/** Joining PDF documents page by page (app/utils.py). */
module PdfStitching {
  import opened Sequences

  /** One page; what is on it does not matter to the code that moves it. */
  type Page = string

  function TotalPages(documents: seq<seq<Page>>): nat {
    if documents == [] then 0 else |documents[0]| + TotalPages(documents[1..])
  }

  class PdfWriter {
    var pages: seq<Page>

    constructor ()
      ensures pages == []
    {
      pages := [];
    }

    method AppendPagesFromReader(document: seq<Page>)
      modifies this
      ensures pages == old(pages) + document
    {
      for i := 0 to |document|
        invariant pages == old(pages) + document[..i]
      {
        pages := pages + [document[i]];
      }
      assert document[..|document|] == document;
    }
  }

  method StitchPdfs(first: seq<Page>, second: seq<Page>) returns (stitched: seq<Page>)
    ensures stitched == first + second
  {
    var output := new PdfWriter();
    output.AppendPagesFromReader(first);
    output.AppendPagesFromReader(second);
    stitched := output.pages;
  }

  /** Every page of every part, in submission order. */
  method MergeLetterParts(pdfs: seq<seq<Page>>) returns (merged: seq<Page>)
    requires pdfs != []
    ensures merged == Flatten(pdfs) && |merged| == TotalPages(pdfs)
  {
    merged := pdfs[0];
    for i := 1 to |pdfs|
      invariant merged == Flatten(pdfs[..i])
    {
      merged := StitchPdfs(merged, pdfs[i]);
      FlattenSnoc(pdfs[..i], pdfs[i]);
      assert pdfs[..i] + [pdfs[i]] == pdfs[..i + 1];
    }
    assert pdfs[..|pdfs|] == pdfs;
    PagesAreConserved(pdfs);
  }

  lemma {:induction false} PagesAreConserved(documents: seq<seq<Page>>)
    ensures |Flatten(documents)| == TotalPages(documents)
  {
    if documents != [] {
      PagesAreConserved(documents[1..]);
    }
  }

  /** Where each page ends up: page p of document d, after all pages of the documents before it. */
  lemma {:induction false} PageLandsInOrder(documents: seq<seq<Page>>, d: nat, p: nat)
    requires d < |documents| && p < |documents[d]|
    ensures TotalPages(documents[..d]) + p < |Flatten(documents)|
    ensures Flatten(documents)[TotalPages(documents[..d]) + p] == documents[d][p]
  {
    if d > 0 {
      PageLandsInOrder(documents[1..], d - 1, p);
      assert documents[..d][1..] == documents[1..][..d - 1];
    }
  }

  /** part is a run of consecutive pages of whole. */
  ghost predicate Occurs(part: seq<Page>, whole: seq<Page>) {
    exists k :: OccursAt(part, whole, k)
  }

  predicate OccursAt(part: seq<Page>, whole: seq<Page>, k: int) {
    0 <= k && k + |part| <= |whole| && whole[k..k + |part|] == part
  }

  /** Each of the joined documents occurs in the result as it is. */
  lemma {:induction false} PartOccurs(documents: seq<seq<Page>>, d: nat)
    requires d < |documents|
    ensures Occurs(documents[d], Flatten(documents))
  {
    if d == 0 {
      assert OccursAt(documents[0], Flatten(documents), 0);
    } else {
      PartOccurs(documents[1..], d - 1);
      var part, rest := documents[d], Flatten(documents[1..]);
      var k :| OccursAt(part, rest, k);
      assert OccursAt(part, Flatten(documents), k + |documents[0]|);
    }
  }
}

/**
  Text extraction from a rectangle of a page (_extract_text_from_page of app/precompiled.py): keep the words that
  meet the rectangle, sort them by block, line and word number, group neighbours into lines and join.
 */
module TextExtraction {
  import Canvas
  import opened Sequences

  datatype Rect = Rect(x0: real, y0: real, x1: real, y1: real)

  datatype Word = Word(box: Rect, text: string, block: nat, line: nat, number: nat)

  /** pymupdf's Rect.intersects: the two share an area, touching is not enough. */
  predicate Meets(w: Word, rect: Rect) {
    && Canvas.Max(w.box.x0, rect.x0) < Canvas.Min(w.box.x1, rect.x1)
    && Canvas.Max(w.box.y0, rect.y0) < Canvas.Min(w.box.y1, rect.y1)
  }

  /** Being kept by the filter means sharing a point inside both rectangles. */
  lemma MeetsIff(w: Word, rect: Rect)
    ensures Meets(w, rect) <==> exists x: real, y: real :: InsideBoth(w.box, rect, x, y)
  {
    if Meets(w, rect) {
      var x := (Canvas.Max(w.box.x0, rect.x0) + Canvas.Min(w.box.x1, rect.x1)) / 2.0;
      var y := (Canvas.Max(w.box.y0, rect.y0) + Canvas.Min(w.box.y1, rect.y1)) / 2.0;
      assert InsideBoth(w.box, rect, x, y);
    }
  }

  predicate InsideBoth(a: Rect, b: Rect, x: real, y: real) {
    a.x0 < x < a.x1 && a.y0 < y < a.y1 && b.x0 < x < b.x1 && b.y0 < y < b.y1
  }

  predicate Before(a: Word, b: Word) {
    || a.block < b.block
    || (a.block == b.block && a.line < b.line)
    || (a.block == b.block && a.line == b.line && a.number < b.number)
  }

  predicate SameTriple(a: Word, b: Word) {
    a.block == b.block && a.line == b.line && a.number == b.number
  }

  function LineKey(w: Word): (nat, nat) { (w.block, w.line) }

  function Y2Key(w: Word): real { w.box.y1 }

  // ---------- The parts of the pipeline as functions ----------

  function Select(words: seq<Word>, rect: Rect): seq<Word> {
    if words == [] then []
    else (if Meets(words[0], rect) then [words[0]] else []) + Select(words[1..], rect)
  }

  /** Puts w before the first word that it does not come after, so equal triples keep their order. */
  function Insert(w: Word, sorted: seq<Word>): seq<Word> {
    if sorted == [] || !Before(sorted[0], w) then [w] + sorted
    else [sorted[0]] + Insert(w, sorted[1..])
  }

  /** Python's stable list sort by (block, line, word number). */
  function Sort(words: seq<Word>): seq<Word> {
    if words == [] then [] else Insert(words[0], Sort(words[1..]))
  }

  /** itertools.groupby: maximal runs of neighbours with the same key. */
  function Runs<K(==)>(words: seq<Word>, key: Word -> K): seq<seq<Word>> {
    if words == [] then []
    else if |words| == 1 || key(words[0]) != key(words[1]) then [[words[0]]] + Runs(words[1..], key)
    else
      var rest := Runs(words[1..], key);
      if rest == [] then [[words[0]]] else [[words[0]] + rest[0]] + rest[1..]
  }

  function Join(parts: seq<string>, separator: char): string {
    if parts == [] then ""
    else if |parts| == 1 then parts[0]
    else parts[0] + [separator] + Join(parts[1..], separator)
  }

  function Texts(words: seq<Word>): seq<string> {
    seq(|words|, i requires 0 <= i < |words| => words[i].text)
  }

  function Lines(groups: seq<seq<Word>>): seq<string> {
    seq(|groups|, i requires 0 <= i < |groups| => Join(Texts(groups[i]), ' '))
  }

  function TextBy<K(==)>(words: seq<Word>, key: Word -> K): string {
    Join(Lines(Runs(words, key)), '\n')
  }

  /** Extracted text before Unicode normalisation. */
  function Extract(words: seq<Word>, rect: Rect): string {
    TextBy(Sort(Select(words, rect)), LineKey)
  }

  // ---------- The code ----------

  /** Filters, sorts and joins in loops; the second result is the alternative grouping by lower edge that the code
      compares it with. */
  method ExtractTextFromPage(words: seq<Word>, rect: Rect) returns (byLine: string, byY2: string)
    ensures byLine == Extract(words, rect)
    ensures byY2 == TextBy(Sort(Select(words, rect)), Y2Key)
  {
    var mywords := [];
    for i := 0 to |words|
      invariant mywords + Select(words[i..], rect) == Select(words, rect)
    {
      if Meets(words[i], rect) {
        mywords := mywords + [words[i]];
      }
    }
    assert mywords == Select(words, rect) by { assert words[|words|..] == []; }
    mywords := Sort(mywords);
    byLine := JoinGroups(Runs(mywords, LineKey));
    byY2 := JoinGroups(Runs(mywords, Y2Key));
  }

  method JoinGroups(groups: seq<seq<Word>>) returns (text: string)
    ensures text == Join(Lines(groups), '\n')
  {
    var extracted := [];
    for i := 0 to |groups|
      invariant extracted == Lines(groups)[..i]
    {
      extracted := extracted + [Join(Texts(groups[i]), ' ')];
    }
    assert extracted == Lines(groups);
    text := Join(extracted, '\n');
  }

  // ---------- Sorting ----------

  ghost predicate Sorted(words: seq<Word>) {
    forall i, j :: 0 <= i < j < |words| ==> !Before(words[j], words[i])
  }

  lemma {:induction false} InsertAddsOne(w: Word, sorted: seq<Word>)
    ensures multiset(Insert(w, sorted)) == multiset(sorted) + multiset{w}
  {
    if sorted != [] && Before(sorted[0], w) {
      InsertAddsOne(w, sorted[1..]);
      assert sorted == [sorted[0]] + sorted[1..];
    }
  }

  lemma {:induction false} InsertSorts(w: Word, sorted: seq<Word>)
    requires Sorted(sorted)
    ensures Sorted(Insert(w, sorted))
  {
    if sorted != [] && Before(sorted[0], w) {
      InsertSorts(w, sorted[1..]);
      InsertAddsOne(w, sorted[1..]);
      var rest := Insert(w, sorted[1..]);
      forall j | 0 <= j < |rest|
        ensures !Before(rest[j], sorted[0])
      {
        assert rest[j] in multiset(rest);
        assert rest[j] == w || rest[j] in sorted[1..];
      }
    }
  }

  lemma {:induction false} SortSorts(words: seq<Word>)
    ensures Sorted(Sort(words)) && multiset(Sort(words)) == multiset(words)
  {
    if words != [] {
      SortSorts(words[1..]);
      InsertSorts(words[0], Sort(words[1..]));
      InsertAddsOne(words[0], Sort(words[1..]));
      assert words == [words[0]] + words[1..];
    }
  }

  /** By block, then by line, then by word number; equal triples may stand in any order. */
  predicate InReadingOrder(a: Word, b: Word) {
    a.block < b.block || (a.block == b.block && (a.line < b.line || (a.line == b.line && a.number <= b.number)))
  }

  /** Sorting puts the words in reading order and neither drops nor duplicates one. */
  lemma SortIsSortedPermutation(words: seq<Word>)
    ensures multiset(Sort(words)) == multiset(words) && Sorted(Sort(words))
    ensures var s := Sort(words);
            forall i, j :: 0 <= i < j < |s| ==>
              || s[i].block < s[j].block
              || (s[i].block == s[j].block && s[i].line < s[j].line)
              || (s[i].block == s[j].block && s[i].line == s[j].line && s[i].number <= s[j].number)
  {
    SortSorts(words);
    var s := Sort(words);
    forall i, j | 0 <= i < j < |s|
      ensures InReadingOrder(s[i], s[j])
    {
      assert !Before(s[j], s[i]);
    }
  }

  /** The words with the triple of t, in the order in which they stand. */
  function Matching(words: seq<Word>, t: Word): seq<Word> {
    if words == [] then []
    else (if SameTriple(words[0], t) then [words[0]] else []) + Matching(words[1..], t)
  }

  lemma {:induction false} InsertIsStable(w: Word, sorted: seq<Word>, t: Word)
    ensures Matching(Insert(w, sorted), t) == Matching([w] + sorted, t)
  {
    if sorted != [] && Before(sorted[0], w) {
      InsertIsStable(w, sorted[1..], t);
      assert ([w] + sorted)[1..] == sorted && ([w] + sorted[1..])[1..] == sorted[1..];
      assert ([sorted[0]] + Insert(w, sorted[1..]))[1..] == Insert(w, sorted[1..]);
    }
  }

  /** Sorting is stable: words with equal triples keep the library's order. */
  lemma {:induction false} SortIsStable(words: seq<Word>, t: Word)
    ensures Matching(Sort(words), t) == Matching(words, t)
  {
    if words != [] {
      SortIsStable(words[1..], t);
      InsertIsStable(words[0], Sort(words[1..]), t);
      assert ([words[0]] + Sort(words[1..]))[1..] == Sort(words[1..]);
    }
  }

  lemma {:induction false} SelectKeepsExactlyMeeting(words: seq<Word>, rect: Rect, w: Word)
    ensures multiset(Select(words, rect))[w] == if Meets(w, rect) then multiset(words)[w] else 0
  {
    if words != [] {
      SelectKeepsExactlyMeeting(words[1..], rect, w);
      assert words == [words[0]] + words[1..];
    }
  }

  /** No two different positions carry the same (block, line, word) triple. */
  ghost predicate DistinctTriples(words: seq<Word>) {
    forall i, j :: 0 <= i < j < |words| ==> !SameTriple(words[i], words[j])
  }

  lemma TripleDeterminesWord(words: seq<Word>, u: Word, v: Word)
    requires DistinctTriples(words) && u in words && v in words && SameTriple(u, v)
    ensures u == v
  {
    var i :| 0 <= i < |words| && words[i] == u;
    var j :| 0 <= j < |words| && words[j] == v;
    assert SameTriple(words[i], words[j]) && SameTriple(words[j], words[i]);
  }

  lemma {:induction false} CountAtMostOne(words: seq<Word>, w: Word)
    requires DistinctTriples(words)
    ensures multiset(words)[w] <= 1
  {
    if words != [] {
      CountAtMostOne(words[1..], w);
      assert words == [words[0]] + words[1..];
      forall k | 0 <= k < |words[1..]|
        ensures words[1..][k] != words[0]
      {
        assert !SameTriple(words[0], words[k + 1]);
      }
    }
  }

  lemma {:induction false} CountTwiceAtTwoPositions(words: seq<Word>, i: nat, j: nat)
    requires i < j < |words| && words[i] == words[j]
    ensures multiset(words)[words[i]] >= 2
  {
    assert words == words[..j] + words[j..];
    assert words[i] in words[..j] && words[j] in words[j..];
  }

  /** Two strictly ordered sequences with the same words are the same sequence. */
  lemma {:induction false} StrictOrderIsCanonical(a: seq<Word>, b: seq<Word>)
    requires forall i, j :: 0 <= i < j < |a| ==> Before(a[i], a[j])
    requires forall i, j :: 0 <= i < j < |b| ==> Before(b[i], b[j])
    requires forall w :: w in a <==> w in b
    ensures a == b
  {
    assert a != [] ==> a[0] in b;
    assert b != [] ==> b[0] in a;
    if a != [] {
      assert a[0] == b[0];
      forall w
        ensures w in a[1..] <==> w in b[1..]
      {
        assert w in a[1..] <==> w in a && w != a[0];
        assert w in b[1..] <==> w in b && w != b[0];
      }
      StrictOrderIsCanonical(a[1..], b[1..]);
    }
  }

  /** Each word that meets the rectangle appears exactly once in the sorted list, in strict order. */
  lemma SortedSelectionIsStrict(words: seq<Word>, rect: Rect)
    requires DistinctTriples(Select(words, rect))
    ensures var s := Sort(Select(words, rect));
            && (forall i, j :: 0 <= i < j < |s| ==> Before(s[i], s[j]))
            && (forall w :: w in s <==> w in words && Meets(w, rect))
            && (forall w :: w in s ==> multiset(s)[w] == 1)
  {
    var selected := Select(words, rect);
    var s := Sort(selected);
    SortIsSortedPermutation(selected);
    forall w
      ensures w in s <==> w in words && Meets(w, rect)
      ensures multiset(s)[w] <= 1
    {
      SelectKeepsExactlyMeeting(words, rect, w);
      CountAtMostOne(selected, w);
      assert w in s <==> w in multiset(s);
      assert w in words <==> w in multiset(words);
    }
    forall i, j | 0 <= i < j < |s|
      ensures Before(s[i], s[j])
    {
      if SameTriple(s[i], s[j]) {
        assert s[i] in multiset(selected) && s[j] in multiset(selected);
        TripleDeterminesWord(selected, s[i], s[j]);
        CountTwiceAtTwoPositions(s, i, j);
      }
    }
  }

  /** Extraction is canonical: with distinct triples the text depends only on the set of words that meet the
      rectangle, not on the order in which the library lists them. */
  lemma ExtractionIsCanonical(words: seq<Word>, others: seq<Word>, rect: Rect)
    requires DistinctTriples(Select(words, rect)) && DistinctTriples(Select(others, rect))
    requires forall w :: Meets(w, rect) ==> (w in words <==> w in others)
    ensures Extract(words, rect) == Extract(others, rect)
  {
    SortedSelectionIsStrict(words, rect);
    SortedSelectionIsStrict(others, rect);
    StrictOrderIsCanonical(Sort(Select(words, rect)), Sort(Select(others, rect)));
  }

  // ---------- Grouping ----------

  ghost predicate AreRuns<K>(groups: seq<seq<Word>>, key: Word -> K) {
    && (forall g :: 0 <= g < |groups| ==> groups[g] != [])
    && (forall g, i :: 0 <= g < |groups| && 0 <= i < |groups[g]| ==> key(groups[g][i]) == key(groups[g][0]))
    && (forall g :: 0 <= g < |groups| - 1 ==> key(groups[g][0]) != key(groups[g + 1][0]))
  }

  lemma {:induction false} RunsFlatten<K>(words: seq<Word>, key: Word -> K)
    ensures Flatten(Runs(words, key)) == words
  {
    if words != [] {
      RunsFlatten(words[1..], key);
      assert words == [words[0]] + words[1..];
      var rest := Runs(words[1..], key);
      if |words| > 1 && key(words[0]) == key(words[1]) && rest != [] {
        assert rest == [rest[0]] + rest[1..];
        assert ([[words[0]] + rest[0]] + rest[1..])[1..] == rest[1..];
      } else {
        assert ([[words[0]]] + rest)[1..] == rest;
      }
    }
  }

  lemma {:induction false} RunsStartWithFirst<K>(words: seq<Word>, key: Word -> K)
    requires words != []
    ensures Runs(words, key) != [] && Runs(words, key)[0] != [] && Runs(words, key)[0][0] == words[0]
  {
  }

  lemma RunInFront<K>(groups: seq<seq<Word>>, w: Word, key: Word -> K)
    requires AreRuns(groups, key) && (groups != [] ==> key(w) != key(groups[0][0]))
    ensures AreRuns([[w]] + groups, key)
  {
    assert forall g :: 1 <= g < |groups| + 1 ==> ([[w]] + groups)[g] == groups[g - 1];
  }

  lemma WordInFront<K>(groups: seq<seq<Word>>, w: Word, key: Word -> K)
    requires AreRuns(groups, key) && groups != [] && key(w) == key(groups[0][0])
    ensures AreRuns([[w] + groups[0]] + groups[1..], key)
  {
    var all: seq<seq<Word>> := [[w] + groups[0]] + groups[1..];
    assert forall g :: 1 <= g < |all| ==> all[g] == groups[g];
    assert forall i :: 1 <= i < |all[0]| ==> all[0][i] == groups[0][i - 1];
  }

  lemma {:induction false} RunsAreRuns<K>(words: seq<Word>, key: Word -> K)
    ensures AreRuns(Runs(words, key), key)
  {
    if |words| > 1 {
      RunsAreRuns(words[1..], key);
      RunsStartWithFirst(words[1..], key);
      var rest := Runs(words[1..], key);
      if key(words[0]) != key(words[1]) {
        RunInFront(rest, words[0], key);
      } else {
        WordInFront(rest, words[0], key);
      }
    }
  }

  /** Grouping only cuts the list: the groups joined again are the list, every group has one key, and
      neighbouring groups have different keys. */
  lemma RunsCutTheList<K>(words: seq<Word>, key: Word -> K)
    ensures Flatten(Runs(words, key)) == words
    ensures AreRuns(Runs(words, key), key)
    ensures words != [] ==> Runs(words, key) != [] && Runs(words, key)[0][0] == words[0]
  {
    RunsFlatten(words, key);
    RunsAreRuns(words, key);
    if words != [] {
      RunsStartWithFirst(words, key);
    }
  }

  predicate LineBefore(a: (nat, nat), b: (nat, nat)) {
    a.0 < b.0 || (a.0 == b.0 && a.1 < b.1)
  }

  lemma {:induction false} FlattenHolds(groups: seq<seq<Word>>, g: nat, i: nat)
    requires g < |groups| && i < |groups[g]|
    ensures groups[g][i] in Flatten(groups)
  {
    if g > 0 {
      FlattenHolds(groups[1..], g - 1, i);
    }
  }

  lemma {:induction false} FlattenFinds(groups: seq<seq<Word>>, w: Word) returns (g: nat, i: nat)
    requires w in Flatten(groups)
    ensures g < |groups| && i < |groups[g]| && groups[g][i] == w
  {
    if w in groups[0] {
      g := 0;
      i :| 0 <= i < |groups[0]| && groups[0][i] == w;
    } else {
      g, i := FlattenFinds(groups[1..], w);
      g := g + 1;
    }
  }

  /** In a sorted list the keys of successive lines strictly increase. */
  lemma {:induction false} SortedLinesIncrease(words: seq<Word>)
    requires Sorted(words)
    ensures var groups := Runs(words, LineKey);
            forall g, h :: 0 <= g < h < |groups| ==>
              groups[g] != [] && groups[h] != [] && LineBefore(LineKey(groups[g][0]), LineKey(groups[h][0]))
  {
    RunsCutTheList(words, LineKey);
    if words != [] {
      SortedLinesIncrease(words[1..]);
      RunsCutTheList(words[1..], LineKey);
      var rest, all := Runs(words[1..], LineKey), Runs(words, LineKey);
      forall g, h | 0 <= g < h < |all|
        ensures LineBefore(LineKey(all[g][0]), LineKey(all[h][0]))
      {
        if |words| == 1 || LineKey(words[0]) != LineKey(words[1]) {
          assert all[h] == rest[h - 1];
          if g == 0 {
            assert LineBefore(LineKey(words[0]), LineKey(words[1])) by { assert !Before(words[1], words[0]); }
            assert rest[0][0] == words[1];
          } else {
            assert all[g] == rest[g - 1];
          }
        } else {
          assert all[h] == rest[h];
          assert LineKey(all[g][0]) == LineKey(rest[g][0]);
        }
      }
    }
  }

  function LineKeys(words: seq<Word>): set<(nat, nat)> {
    set w | w in words :: LineKey(w)
  }

  lemma {:induction false} DistinctHeadsCount(groups: seq<seq<Word>>)
    requires forall g :: 0 <= g < |groups| ==> groups[g] != []
    requires forall g, h :: 0 <= g < h < |groups| ==> LineKey(groups[g][0]) != LineKey(groups[h][0])
    ensures |set g | 0 <= g < |groups| :: LineKey(groups[g][0])| == |groups|
  {
    if groups != [] {
      var last := |groups| - 1;
      DistinctHeadsCount(groups[..last]);
      var heads := set g | 0 <= g < |groups| :: LineKey(groups[g][0]);
      var front := set g | 0 <= g < |groups[..last]| :: LineKey(groups[..last][g][0]);
      assert heads == front + {LineKey(groups[last][0])};
    }
  }

  lemma GroupIsWholeClass(s: seq<Word>, g: nat, w: Word)
    requires Sorted(s) && g < |Runs(s, LineKey)|
    requires Runs(s, LineKey)[g] != []
    ensures w in Runs(s, LineKey)[g] <==> w in s && LineKey(w) == LineKey(Runs(s, LineKey)[g][0])
  {
    var groups := Runs(s, LineKey);
    RunsCutTheList(s, LineKey);
    SortedLinesIncrease(s);
    if w in groups[g] {
      var i :| 0 <= i < |groups[g]| && groups[g][i] == w;
      FlattenHolds(groups, g, i);
    }
    if w in s && LineKey(w) == LineKey(groups[g][0]) {
      var h, i := FlattenFinds(groups, w);
      assert LineKey(groups[h][i]) == LineKey(groups[h][0]);
      assert h == g;
    }
  }

  lemma SelectedIsSorted(words: seq<Word>, rect: Rect)
    ensures Sorted(Sort(Select(words, rect)))
    ensures forall w :: w in Sort(Select(words, rect)) <==> w in Select(words, rect)
    ensures forall w :: w in Select(words, rect) <==> w in words && Meets(w, rect)
  {
    var selected := Select(words, rect);
    SortIsSortedPermutation(selected);
    forall w
      ensures w in Sort(selected) <==> w in selected
      ensures w in selected <==> w in words && Meets(w, rect)
    {
      SelectKeepsExactlyMeeting(words, rect, w);
      assert w in Sort(selected) <==> w in multiset(Sort(selected));
      assert w in selected <==> w in multiset(selected);
      assert w in words <==> w in multiset(words);
    }
  }

  lemma CountOfRuns(s: seq<Word>)
    requires Sorted(s)
    ensures |Runs(s, LineKey)| == |LineKeys(s)|
  {
    var groups := Runs(s, LineKey);
    SortedLinesIncrease(s);
    RunsCutTheList(s, LineKey);
    DistinctHeadsCount(groups);
    var heads := set g | 0 <= g < |groups| :: LineKey(groups[g][0]);
    forall k
      ensures k in heads <==> k in LineKeys(s)
    {
      if k in heads {
        var g :| 0 <= g < |groups| && k == LineKey(groups[g][0]);
        FlattenHolds(groups, g, 0);
      }
      if k in LineKeys(s) {
        var w :| w in s && LineKey(w) == k;
        var g, i := FlattenFinds(groups, w);
        assert LineKey(groups[g][i]) == LineKey(groups[g][0]);
      }
    }
    assert heads == LineKeys(s);
  }

  /** Within each line the word numbers do not decrease. */
  lemma LinesAreInOrder(s: seq<Word>, g: nat, i: nat, j: nat)
    requires Sorted(s) && g < |Runs(s, LineKey)| && i < j < |Runs(s, LineKey)[g]|
    ensures Runs(s, LineKey)[g][i].number <= Runs(s, LineKey)[g][j].number
  {
    var groups := Runs(s, LineKey);
    RunsCutTheList(s, LineKey);
    assert LineKey(groups[g][i]) == LineKey(groups[g][0]) && LineKey(groups[g][j]) == LineKey(groups[g][0]);
    var k := OrderInFlattened(groups, g, i, j);
    assert !Before(s[k.1], s[k.0]);
  }

  /** Two words of one group stand in the joined list in the same order. */
  lemma {:induction false} OrderInFlattened(groups: seq<seq<Word>>, g: nat, i: nat, j: nat) returns (k: (nat, nat))
    requires g < |groups| && i < j < |groups[g]|
    ensures k.0 < k.1 < |Flatten(groups)|
    ensures Flatten(groups)[k.0] == groups[g][i] && Flatten(groups)[k.1] == groups[g][j]
  {
    if g == 0 {
      k := (i, j);
    } else {
      k := OrderInFlattened(groups[1..], g - 1, i, j);
      k := (k.0 + |groups[0]|, k.1 + |groups[0]|);
    }
  }

  lemma WholeLines(words: seq<Word>, rect: Rect)
    ensures var s := Sort(Select(words, rect)); var groups := Runs(s, LineKey);
            && |groups| == |LineKeys(Select(words, rect))|
            && forall g :: 0 <= g < |groups| ==>
                 && groups[g] != []
                 && forall w :: w in groups[g]
                                <==> w in words && Meets(w, rect) && LineKey(w) == LineKey(groups[g][0])
  {
    var s := Sort(Select(words, rect));
    var groups := Runs(s, LineKey);
    SelectedIsSorted(words, rect);
    CountOfRuns(s);
    assert LineKeys(s) == LineKeys(Select(words, rect));
    RunsCutTheList(s, LineKey);
    forall g, w | 0 <= g < |groups|
      ensures w in groups[g] <==> w in s && LineKey(w) == LineKey(groups[g][0])
    {
      GroupIsWholeClass(s, g, w);
    }
  }

  /** There is exactly one line of text per distinct block and line among the selected words. It holds every selected
      word with those, by rising word number, and the lines themselves rise by block and then by line. */
  lemma OneLinePerKey(words: seq<Word>, rect: Rect)
    ensures var groups := Runs(Sort(Select(words, rect)), LineKey);
            && |groups| == |set w | w in words && Meets(w, rect) :: (w.block, w.line)|
            && (forall g :: 0 <= g < |groups| ==>
                  && groups[g] != []
                  && (forall w :: w in groups[g] <==>
                        && w in words && Meets(w, rect)
                        && w.block == groups[g][0].block && w.line == groups[g][0].line)
                  && (forall i, j :: 0 <= i < j < |groups[g]| ==> groups[g][i].number <= groups[g][j].number))
            && (forall g, h :: 0 <= g < h < |groups| ==>
                  || groups[g][0].block < groups[h][0].block
                  || (groups[g][0].block == groups[h][0].block && groups[g][0].line < groups[h][0].line))
  {
    var s := Sort(Select(words, rect));
    var groups: seq<seq<Word>> := Runs(s, LineKey);
    WholeLines(words, rect);
    SelectedIsSorted(words, rect);
    SortedLinesIncrease(s);
    assert LineKeys(Select(words, rect)) == set w | w in words && Meets(w, rect) :: (w.block, w.line);
    forall g, i, j | 0 <= g < |groups| && 0 <= i < j < |groups[g]|
      ensures groups[g][i].number <= groups[g][j].number
    {
      LinesAreInOrder(s, g, i, j);
    }
  }

  // ---------- Splitting recovers the groups ----------

  /** Python's str.split on one character. */
  function Split(s: string, separator: char): (parts: seq<string>)
    ensures parts != []
  {
    if s == "" then [""]
    else
      var rest := Split(s[1..], separator);
      if s[0] == separator then [""] + rest else [[s[0]] + rest[0]] + rest[1..]
  }

  lemma {:induction false} SplitAfterCleanPrefix(part: string, tail: string, separator: char)
    requires separator !in part
    ensures Split(part + tail, separator) == [part + Split(tail, separator)[0]] + Split(tail, separator)[1..]
  {
    if part == "" {
      assert part + tail == tail && part + Split(tail, separator)[0] == Split(tail, separator)[0];
    } else {
      SplitAfterCleanPrefix(part[1..], tail, separator);
      assert (part + tail)[1..] == part[1..] + tail;
      assert [part[0]] + (part[1..] + Split(tail, separator)[0]) == part + Split(tail, separator)[0];
    }
  }

  lemma {:induction false} SplitUndoesJoin(parts: seq<string>, separator: char)
    requires parts != [] && forall i :: 0 <= i < |parts| ==> separator !in parts[i]
    ensures Split(Join(parts, separator), separator) == parts
  {
    if |parts| == 1 {
      SplitAfterCleanPrefix(parts[0], "", separator);
      assert parts[0] + "" == parts[0];
    } else {
      SplitUndoesJoin(parts[1..], separator);
      var tail := [separator] + Join(parts[1..], separator);
      assert tail[1..] == Join(parts[1..], separator);
      SplitAfterCleanPrefix(parts[0], tail, separator);
      assert Join(parts, separator) == parts[0] + tail;
      assert parts[0] + "" == parts[0];
    }
  }

  /** Words as the library returns them contain no white space. */
  predicate Clean(words: seq<Word>) {
    forall i :: 0 <= i < |words| ==> ' ' !in words[i].text && '\n' !in words[i].text
  }

  function Recover(text: string): seq<seq<string>> {
    var lines := Split(text, '\n');
    seq(|lines|, i requires 0 <= i < |lines| => Split(lines[i], ' '))
  }

  function GroupTexts(groups: seq<seq<Word>>): seq<seq<string>> {
    seq(|groups|, i requires 0 <= i < |groups| => Texts(groups[i]))
  }

  lemma {:induction false} JoinAvoids(parts: seq<string>, separator: char, c: char)
    requires c != separator && forall i :: 0 <= i < |parts| ==> c !in parts[i]
    ensures c !in Join(parts, separator)
  {
    if |parts| > 1 {
      JoinAvoids(parts[1..], separator, c);
    }
  }

  /** Splitting the text on newlines and then on spaces gives back the groups, word by word. */
  lemma SplittingRecoversGroups<K>(words: seq<Word>, key: Word -> K)
    requires words != [] && Clean(words)
    ensures Recover(TextBy(words, key)) == GroupTexts(Runs(words, key))
    ensures var groups: seq<seq<Word>>, lines := Runs(words, key), Recover(TextBy(words, key));
            && |lines| == |groups|
            && (forall g :: 0 <= g < |groups| ==> |lines[g]| == |groups[g]|)
            && (forall g, i :: 0 <= g < |groups| && 0 <= i < |groups[g]| ==> lines[g][i] == groups[g][i].text)
  {
    var groups: seq<seq<Word>> := Runs(words, key);
    RunsCutTheList(words, key);
    forall g, i | 0 <= g < |groups| && 0 <= i < |groups[g]|
      ensures ' ' !in groups[g][i].text && '\n' !in groups[g][i].text
    {
      FlattenHolds(groups, g, i);
    }
    forall g | 0 <= g < |groups|
      ensures '\n' !in Lines(groups)[g] && Split(Lines(groups)[g], ' ') == Texts(groups[g])
    {
      JoinAvoids(Texts(groups[g]), ' ', '\n');
      SplitUndoesJoin(Texts(groups[g]), ' ');
    }
    SplitUndoesJoin(Lines(groups), '\n');
  }

  // ---------- Grouping by line and by lower edge ----------

  /** The two keys change at the same places. */
  ghost predicate SameBreaks<K, L>(words: seq<Word>, key: Word -> K, other: Word -> L) {
    forall i :: 0 <= i < |words| - 1 ==>
      (key(words[i]) != key(words[i + 1]) <==> other(words[i]) != other(words[i + 1]))
  }

  lemma {:induction false} SameBreaksSameRuns<K, L>(words: seq<Word>, key: Word -> K, other: Word -> L)
    requires SameBreaks(words, key, other)
    ensures Runs(words, key) == Runs(words, other)
  {
    if |words| > 1 {
      assert SameBreaks(words[1..], key, other) by {
        assert forall i :: 0 <= i < |words[1..]| ==> words[1..][i] == words[i + 1];
      }
      SameBreaksSameRuns(words[1..], key, other);
      assert words[0] == words[0 + 0] && words[1] == words[0 + 1];
    }
  }

  ghost predicate SameSizes(a: seq<seq<Word>>, b: seq<seq<Word>>) {
    |a| == |b| && forall g :: 0 <= g < |a| ==> |a[g]| == |b[g]|
  }

  /** The first word is a group of its own exactly when the key changes after it. */
  lemma FirstRun<K>(words: seq<Word>, key: Word -> K)
    requires |words| > 1
    ensures var all, rest: seq<seq<Word>> := Runs(words, key), Runs(words[1..], key);
            && all != [] && rest != []
            && (key(words[0]) != key(words[1]) <==> |all[0]| == 1)
            && (if |all[0]| == 1 then all[1..] == rest else |all| == |rest| && all[1..] == rest[1..])
            && (|all[0]| > 1 ==> |all[0]| == |rest[0]| + 1)
  {
    RunsStartWithFirst(words[1..], key);
    var rest: seq<seq<Word>> := Runs(words[1..], key);
    assert ([[words[0]]] + rest)[1..] == rest;
    assert ([[words[0]] + rest[0]] + rest[1..])[1..] == rest[1..];
  }

  lemma TailSizes<K, L>(words: seq<Word>, key: Word -> K, other: Word -> L)
    requires |words| > 1 && SameSizes(Runs(words, key), Runs(words, other))
    ensures SameSizes(Runs(words[1..], key), Runs(words[1..], other))
    ensures key(words[0]) != key(words[1]) <==> other(words[0]) != other(words[1])
  {
    FirstRun(words, key);
    FirstRun(words, other);
    var a, b: seq<seq<Word>> := Runs(words, key), Runs(words, other);
    var c, d: seq<seq<Word>> := Runs(words[1..], key), Runs(words[1..], other);
    forall g | 0 <= g < |c| && g < |d|
      ensures |c[g]| == |d[g]|
    {
      if |a[0]| == 1 {
        assert c[g] == a[1..][g] == a[g + 1] && d[g] == b[1..][g] == b[g + 1];
      } else if g > 0 {
        assert c[g] == c[1..][g - 1] == a[g] && d[g] == d[1..][g - 1] == b[g];
      }
    }
  }

  lemma {:induction false} SameSizesSameBreaks<K, L>(words: seq<Word>, key: Word -> K, other: Word -> L)
    requires SameSizes(Runs(words, key), Runs(words, other))
    ensures SameBreaks(words, key, other)
  {
    if |words| > 1 {
      TailSizes(words, key, other);
      SameSizesSameBreaks(words[1..], key, other);
      forall i | 0 < i < |words| - 1
        ensures key(words[i]) != key(words[i + 1]) <==> other(words[i]) != other(words[i + 1])
      {
        assert words[1..][i - 1] == words[i] && words[1..][i] == words[i + 1];
      }
    }
  }

  lemma SameTextSameBreaks(s: seq<Word>)
    requires Clean(s) && s != [] && TextBy(s, LineKey) == TextBy(s, Y2Key)
    ensures SameBreaks(s, LineKey, Y2Key)
  {
    SplittingRecoversGroups(s, LineKey);
    SplittingRecoversGroups(s, Y2Key);
    var a, b := Runs(s, LineKey), Runs(s, Y2Key);
    assert GroupTexts(a) == GroupTexts(b);
    assert forall g :: 0 <= g < |a| ==> |GroupTexts(a)[g]| == |a[g]| && |GroupTexts(b)[g]| == |b[g]|;
    SameSizesSameBreaks(s, LineKey, Y2Key);
  }

  /** The text by line and the text by lower edge are equal if and only if, at every adjacent pair of sorted
      words, the (block, line) key changes exactly when the lower edge does. */
  lemma ByLineEqualsByY2Iff(words: seq<Word>, rect: Rect)
    requires Clean(Select(words, rect))
    ensures var s := Sort(Select(words, rect));
            TextBy(s, LineKey) == TextBy(s, Y2Key) <==>
              forall i :: 0 <= i < |s| - 1 ==>
                ((s[i].block != s[i + 1].block || s[i].line != s[i + 1].line) <==> s[i].box.y1 != s[i + 1].box.y1)
  {
    var s := Sort(Select(words, rect));
    SortIsSortedPermutation(Select(words, rect));
    assert SameBreaks(s, LineKey, Y2Key) <==>
        forall i :: 0 <= i < |s| - 1 ==>
          ((s[i].block != s[i + 1].block || s[i].line != s[i + 1].line) <==> s[i].box.y1 != s[i + 1].box.y1);
    assert Clean(s) by {
      forall i | 0 <= i < |s|
        ensures ' ' !in s[i].text && '\n' !in s[i].text
      {
        assert s[i] in multiset(Select(words, rect));
      }
    }
    if SameBreaks(s, LineKey, Y2Key) {
      SameBreaksSameRuns(s, LineKey, Y2Key);
    }
    if s != [] && TextBy(s, LineKey) == TextBy(s, Y2Key) {
      SameTextSameBreaks(s);
    }
  }
}

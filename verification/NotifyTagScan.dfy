/**
  The scan for text that encroaches on the NOTIFY tag (check_notify_tag_area_for_encroachment of
  app/precompiled.py): three nested loops over blocks, lines and spans that skip a whole subtree as soon as its
  bounding box misses the tag. A flat scan over all spans is the simple form it is compared with.
 */
module NotifyTagScan {
  import opened Canvas
  import opened Options

  /** Corners in points from the top left. */
  datatype Bbox = Bbox(x0: real, y0: real, x1: real, y1: real) {
    predicate Contains(inner: Bbox) {
      x0 <= inner.x0 && y0 <= inner.y0 && inner.x1 <= x1 && inner.y1 <= y1
    }
  }

  datatype Span = Span(bbox: Bbox, text: string)

  datatype Line = Line(bbox: Bbox, spans: seq<Span>)

  datatype Block = Block(bbox: Bbox, lines: seq<Line>)

  const TAG_BOX := Bbox(0.0, 0.0, 15.191 * POINTS_PER_MM, 6.149 * POINTS_PER_MM)
  const TAG_TEXT := "NOTIFY"

  predicate NoIntersectWithTag(bbox: Bbox) {
    bbox.x1 <= TAG_BOX.x0 || bbox.y1 <= TAG_BOX.y0 || TAG_BOX.x1 <= bbox.x0 || TAG_BOX.y1 <= bbox.y0
  }

  predicate Encroaches(span: Span) {
    !NoIntersectWithTag(span.bbox) && span.text != TAG_TEXT && span.text != ""
  }

  // ---------- The simple form ----------

  function LineSpans(lines: seq<Line>): seq<Span> {
    if lines == [] then [] else lines[0].spans + LineSpans(lines[1..])
  }

  /** Every span of the page, in document order. */
  function AllSpans(blocks: seq<Block>): seq<Span> {
    if blocks == [] then [] else LineSpans(blocks[0].lines) + AllSpans(blocks[1..])
  }

  function FlatScan(spans: seq<Span>): Option<string> {
    if spans == [] then None
    else if Encroaches(spans[0]) then Some(spans[0].text)
    else FlatScan(spans[1..])
  }

  /** The flat scan finds the first encroaching span, and nothing exactly when there is none. */
  lemma {:induction false} FlatScanFindsFirst(spans: seq<Span>)
    ensures FlatScan(spans).None? <==> forall i :: 0 <= i < |spans| ==> !Encroaches(spans[i])
    ensures FlatScan(spans).Some? ==>
              exists i :: 0 <= i < |spans| && Encroaches(spans[i]) && spans[i].text == FlatScan(spans).value
                          && forall k :: 0 <= k < i ==> !Encroaches(spans[k])
  {
    if spans != [] {
      FlatScanFindsFirst(spans[1..]);
      if !Encroaches(spans[0]) {
        assert forall i :: 1 <= i < |spans| ==> spans[i] == spans[1..][i - 1];
        if FlatScan(spans[1..]).Some? {
          var i :| 0 <= i < |spans[1..]| && Encroaches(spans[1..][i])
                   && spans[1..][i].text == FlatScan(spans[1..]).value
                   && forall k :: 0 <= k < i ==> !Encroaches(spans[1..][k]);
          assert Encroaches(spans[i + 1]);
        }
      }
    }
  }

  lemma {:induction false} FlatScanOfConcat(a: seq<Span>, b: seq<Span>)
    ensures FlatScan(a + b) == if FlatScan(a).Some? then FlatScan(a) else FlatScan(b)
  {
    if a == [] {
      assert a + b == b;
    } else {
      FlatScanOfConcat(a[1..], b);
      assert (a + b)[1..] == a[1..] + b;
    }
  }

  // ---------- The code ----------

  /** The spans that no ancestor's bounding box hides. */
  function ReachedLineSpans(lines: seq<Line>): seq<Span> {
    if lines == [] then []
    else (if NoIntersectWithTag(lines[0].bbox) then [] else lines[0].spans) + ReachedLineSpans(lines[1..])
  }

  function ReachedSpans(blocks: seq<Block>): seq<Span> {
    if blocks == [] then []
    else (if NoIntersectWithTag(blocks[0].bbox) then [] else ReachedLineSpans(blocks[0].lines))
         + ReachedSpans(blocks[1..])
  }

  method ScanSpans(spans: seq<Span>) returns (found: Option<string>)
    ensures found == FlatScan(spans)
  {
    for i := 0 to |spans|
      invariant FlatScan(spans) == FlatScan(spans[i..])
    {
      if NoIntersectWithTag(spans[i].bbox) {
        continue;
      }
      var text := spans[i].text;
      if text == TAG_TEXT {
        continue;
      }
      if text != "" {
        return Some(text);
      }
    }
    return None;
  }

  method ScanLines(lines: seq<Line>) returns (found: Option<string>)
    ensures found == FlatScan(ReachedLineSpans(lines))
  {
    for i := 0 to |lines|
      invariant FlatScan(ReachedLineSpans(lines)) == FlatScan(ReachedLineSpans(lines[i..]))
    {
      FlatScanOfConcat(if NoIntersectWithTag(lines[i].bbox) then [] else lines[i].spans,
                       ReachedLineSpans(lines[i + 1..]));
      assert lines[i..][1..] == lines[i + 1..];
      if NoIntersectWithTag(lines[i].bbox) {
        continue;
      }
      found := ScanSpans(lines[i].spans);
      if found.Some? {
        return;
      }
    }
    return None;
  }

  /** Reports the first encroaching span among those it reaches; when the page nests properly those are all. */
  method CheckNotifyTagArea(blocks: seq<Block>) returns (found: Option<string>)
    ensures found == FlatScan(ReachedSpans(blocks))
    ensures Nested(blocks) ==> found == FlatScan(AllSpans(blocks))
    ensures Nested(blocks) ==>
              (found.None? <==>
                 forall b, l, s :: 0 <= b < |blocks| && 0 <= l < |blocks[b].lines|
                                   && 0 <= s < |blocks[b].lines[l].spans| ==>
                   !ShowsTextOnTag(blocks[b].lines[l].spans[s]))
  {
    if Nested(blocks) {
      TagIsClearIff(blocks);
    }
    for i := 0 to |blocks|
      invariant FlatScan(ReachedSpans(blocks)) == FlatScan(ReachedSpans(blocks[i..]))
    {
      FlatScanOfConcat(if NoIntersectWithTag(blocks[i].bbox) then [] else ReachedLineSpans(blocks[i].lines),
                       ReachedSpans(blocks[i + 1..]));
      assert blocks[i..][1..] == blocks[i + 1..];
      if NoIntersectWithTag(blocks[i].bbox) {
        continue;
      }
      found := ScanLines(blocks[i].lines);
      if found.Some? {
        if Nested(blocks) {
          PrunedScanEqualsFlatScan(blocks);
        }
        return;
      }
    }
    if Nested(blocks) {
      PrunedScanEqualsFlatScan(blocks);
    }
    return None;
  }

  // ---------- Equivalence ----------

  predicate NestedLines(lines: seq<Line>) {
    forall l, s :: 0 <= l < |lines| && 0 <= s < |lines[l].spans| ==> lines[l].bbox.Contains(lines[l].spans[s].bbox)
  }

  /** Each block's box contains its lines' boxes, and each line's box its spans'. */
  predicate Nested(blocks: seq<Block>) {
    && (forall b, l :: 0 <= b < |blocks| && 0 <= l < |blocks[b].lines| ==>
          blocks[b].bbox.Contains(blocks[b].lines[l].bbox))
    && (forall b :: 0 <= b < |blocks| ==> NestedLines(blocks[b].lines))
  }

  lemma {:induction false} NothingEncroaches(spans: seq<Span>)
    requires forall i :: 0 <= i < |spans| ==> NoIntersectWithTag(spans[i].bbox)
    ensures FlatScan(spans) == None
  {
    if spans != [] {
      NothingEncroaches(spans[1..]);
    }
  }

  lemma {:induction false} NothingEncroachesInLines(lines: seq<Line>)
    requires NestedLines(lines) && forall l :: 0 <= l < |lines| ==> NoIntersectWithTag(lines[l].bbox)
    ensures FlatScan(LineSpans(lines)) == None
  {
    if lines != [] {
      NothingEncroaches(lines[0].spans);
      assert NestedLines(lines[1..]);
      NothingEncroachesInLines(lines[1..]);
      FlatScanOfConcat(lines[0].spans, LineSpans(lines[1..]));
    }
  }

  lemma {:induction false} PrunedLinesEqualFlatLines(lines: seq<Line>)
    requires NestedLines(lines)
    ensures FlatScan(ReachedLineSpans(lines)) == FlatScan(LineSpans(lines))
  {
    if lines != [] {
      assert NestedLines(lines[1..]);
      PrunedLinesEqualFlatLines(lines[1..]);
      if NoIntersectWithTag(lines[0].bbox) {
        NothingEncroaches(lines[0].spans);
      }
      FlatScanOfConcat(lines[0].spans, LineSpans(lines[1..]));
      FlatScanOfConcat(if NoIntersectWithTag(lines[0].bbox) then [] else lines[0].spans,
                       ReachedLineSpans(lines[1..]));
    }
  }

  /** On a properly nested page the pruned scan is the flat scan: it reports the first span in document order that
      meets the tag and is neither empty nor the tag itself, and nothing exactly when there is none. */
  lemma {:induction false} PrunedScanEqualsFlatScan(blocks: seq<Block>)
    requires Nested(blocks)
    ensures FlatScan(ReachedSpans(blocks)) == FlatScan(AllSpans(blocks))
  {
    if blocks != [] {
      assert Nested(blocks[1..]);
      PrunedScanEqualsFlatScan(blocks[1..]);
      var lines := blocks[0].lines;
      if NoIntersectWithTag(blocks[0].bbox) {
        NothingEncroachesInLines(lines);
      } else {
        PrunedLinesEqualFlatLines(lines);
      }
      FlatScanOfConcat(LineSpans(lines), AllSpans(blocks[1..]));
      FlatScanOfConcat(if NoIntersectWithTag(blocks[0].bbox) then [] else ReachedLineSpans(lines),
                       ReachedSpans(blocks[1..]));
    }
  }

  /** A span with a text of its own that lies partly on the tag, 15.191 by 6.149 mm in the page's upper left corner, or
      to the left of it or above. */
  predicate ShowsTextOnTag(span: Span) {
    && span.text != "" && span.text != "NOTIFY"
    && 0.0 < span.bbox.x1 && span.bbox.x0 < 15.191 * 72.0 / 25.4
    && 0.0 < span.bbox.y1 && span.bbox.y0 < 6.149 * 72.0 / 25.4
  }

  lemma EncroachesIff(span: Span)
    ensures Encroaches(span) <==> ShowsTextOnTag(span)
  {
  }

  lemma {:induction false} LineSpansIff(lines: seq<Line>, span: Span)
    ensures span in LineSpans(lines) <==> exists l :: 0 <= l < |lines| && span in lines[l].spans
  {
    if lines != [] {
      LineSpansIff(lines[1..], span);
      assert forall l :: 1 <= l < |lines| ==> lines[l] == lines[1..][l - 1];
    }
  }

  lemma {:induction false} AllSpansIff(blocks: seq<Block>, span: Span)
    ensures span in AllSpans(blocks) <==> exists b :: 0 <= b < |blocks| && span in LineSpans(blocks[b].lines)
  {
    if blocks != [] {
      AllSpansIff(blocks[1..], span);
      assert forall b :: 1 <= b < |blocks| ==> blocks[b] == blocks[1..][b - 1];
    }
  }

  /** On a properly nested page nothing is reported if and only if no span of any line of any block shows text on the
      tag; and what is reported is the text of one that does. */
  lemma TagIsClearIff(blocks: seq<Block>)
    requires Nested(blocks)
    ensures FlatScan(ReachedSpans(blocks)).None? <==>
              forall b, l, s :: 0 <= b < |blocks| && 0 <= l < |blocks[b].lines|
                                && 0 <= s < |blocks[b].lines[l].spans| ==>
                !ShowsTextOnTag(blocks[b].lines[l].spans[s])
    ensures FlatScan(ReachedSpans(blocks)).Some? ==>
              exists b, l, s :: && 0 <= b < |blocks| && 0 <= l < |blocks[b].lines|
                                && 0 <= s < |blocks[b].lines[l].spans|
                                && ShowsTextOnTag(blocks[b].lines[l].spans[s])
                                && blocks[b].lines[l].spans[s].text == FlatScan(ReachedSpans(blocks)).value
  {
    PrunedScanEqualsFlatScan(blocks);
    var spans := AllSpans(blocks);
    FlatScanFindsFirst(spans);
    if FlatScan(spans).Some? {
      var i :| 0 <= i < |spans| && Encroaches(spans[i]) && spans[i].text == FlatScan(spans).value;
      AllSpansIff(blocks, spans[i]);
      var b :| 0 <= b < |blocks| && spans[i] in LineSpans(blocks[b].lines);
      LineSpansIff(blocks[b].lines, spans[i]);
      var l :| 0 <= l < |blocks[b].lines| && spans[i] in blocks[b].lines[l].spans;
      var s :| 0 <= s < |blocks[b].lines[l].spans| && blocks[b].lines[l].spans[s] == spans[i];
      assert ShowsTextOnTag(blocks[b].lines[l].spans[s]);
    } else {
      forall b, l, s | 0 <= b < |blocks| && 0 <= l < |blocks[b].lines| && 0 <= s < |blocks[b].lines[l].spans|
        ensures !ShowsTextOnTag(blocks[b].lines[l].spans[s])
      {
        var span := blocks[b].lines[l].spans[s];
        LineSpansIff(blocks[b].lines, span);
        AllSpansIff(blocks, span);
        var i :| 0 <= i < |spans| && spans[i] == span;
        EncroachesIff(span);
      }
    }
  }

  /** Nesting is needed: a line whose box misses the tag hides a span that meets it. */
  lemma UnnestedSpanIsMissed()
    ensures exists blocks :: FlatScan(ReachedSpans(blocks)) == None && FlatScan(AllSpans(blocks)) == Some("x")
  {
    var away := Bbox(300.0, 300.0, 310.0, 310.0);
    var span := Span(Bbox(1.0, 1.0, 2.0, 2.0), "x");
    var blocks := [Block(away, [Line(away, [span])])];
    assert Encroaches(span);
    assert LineSpans(blocks[0].lines) == [span];
    assert AllSpans(blocks) == [span];
    assert ReachedSpans(blocks) == [];
  }
}

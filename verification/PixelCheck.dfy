/**
  The check for content outside the printable area (app/precompiled.py): pages are painted white wherever
  printing is allowed, rasterised, and every page that still shows a colour other than white is reported.
  The raster has no anti-aliasing: a pixel is painted when its centre is.
 */
module PixelCheck {
  import opened AddressWindow
  import opened Options
  import opened Canvas
  import opened Overlays

  type Channel = n: int | 0 <= n < 256

  datatype Rgb = Rgb(r: Channel, g: Channel, b: Channel)

  const WHITE := Rgb(255, 255, 255)
  const WHITE_TOLERANCE := 3
  // the number of distinct colours above which PIL's getcolors gives up
  const MAX_COLOURS := 256

  predicate NearWhite(c: Rgb) {
    255 - c.r <= WHITE_TOLERANCE && 255 - c.g <= WHITE_TOLERANCE && 255 - c.b <= WHITE_TOLERANCE
  }

  type Image = array2<Rgb>

  /** The page position at the middle of row i, column j. */
  function Centre(image: Image, i: int, j: int): Point
    requires 0 <= i < image.Length0 && 0 <= j < image.Length1
  {
    Point((j as real + 0.5) * A4_WIDTH / (image.Length1 as real),
          (i as real + 0.5) * A4_HEIGHT / (image.Length0 as real))
  }

  /** Rows and columns divide the page evenly. */
  lemma CentreInMillimetres(image: Image, i: int, j: int)
    requires 0 <= i < image.Length0 && 0 <= j < image.Length1
    ensures Centre(image, i, j) == Point((j as real + 0.5) * 210.0 / (image.Length1 as real),
                                         (i as real + 0.5) * 297.0 / (image.Length0 as real))
  {
  }

  lemma CentreIsOnPage(image: Image, i: int, j: int)
    requires 0 <= i < image.Length0 && 0 <= j < image.Length1
    ensures Centre(image, i, j).OnPage()
  {
    MidpointScaled(j, image.Length1, A4_WIDTH);
    MidpointScaled(i, image.Length0, A4_HEIGHT);
  }

  lemma MultiplyMonotone(a: real, b: real, c: real)
    requires a <= b && 0.0 <= c
    ensures a * c <= b * c
  {
  }

  lemma MidpointScaled(k: int, n: int, size: real)
    requires 0 <= k < n && 0.0 < size
    ensures 0.0 <= (k as real + 0.5) * size / (n as real) <= size
  {
    var a, d := (k as real + 0.5) * size, n as real;
    assert (k + 1) as real <= d && k as real + 0.5 <= d;
    MultiplyMonotone(k as real + 0.5, d, size);
    QuotientBounds(a, d, size);
  }

  lemma QuotientBounds(a: real, d: real, size: real)
    requires 0.0 <= a <= d * size && 0.0 < d
    ensures 0.0 <= a / d <= size
  {
    var q := a / d;
    assert q * d == a;
    if size < q {
      MultiplyMonotone(0.0, q - size, d);
    }
  }

  // ---------- Painting ----------

  /** Paints the pixels of one drawn rectangle white and leaves the others alone. */
  method PaintWhite(image: Image, rect: PdfRect)
    modifies image
    ensures forall i, j :: 0 <= i < image.Length0 && 0 <= j < image.Length1 ==>
              image[i, j] == if rect.Covers(Centre(image, i, j)) then WHITE else old(image[i, j])
  {
    for i := 0 to image.Length0
      invariant forall k, j :: 0 <= k < image.Length0 && 0 <= j < image.Length1 ==>
                  image[k, j] == if k < i && rect.Covers(Centre(image, k, j)) then WHITE else old(image[k, j])
    {
      for j := 0 to image.Length1
        invariant forall k, l :: 0 <= k < image.Length0 && 0 <= l < image.Length1 ==>
                    image[k, l] == if (k < i || (k == i && l < j)) && rect.Covers(Centre(image, k, l))
                                   then WHITE else old(image[k, l])
      {
        if rect.Covers(Centre(image, i, j)) {
          image[i, j] := WHITE;
        }
      }
    }
  }

  /** Some rectangle of the drawing covers the page position. */
  predicate Covered(packet: seq<PdfRect>, p: Point) {
    exists n :: 0 <= n < |packet| && packet[n].Covers(p)
  }

  lemma CoveredByPrefix(packet: seq<PdfRect>, n: nat, p: Point)
    requires n < |packet|
    ensures Covered(packet[..n + 1], p) <==> Covered(packet[..n], p) || packet[n].Covers(p)
  {
    if packet[n].Covers(p) {
      assert packet[..n + 1][n].Covers(p);
    }
    if Covered(packet[..n], p) {
      var k :| 0 <= k < n && packet[..n][k].Covers(p);
      assert packet[..n + 1][k].Covers(p);
    }
    if Covered(packet[..n + 1], p) {
      var k :| 0 <= k < n + 1 && packet[..n + 1][k].Covers(p);
      assert k == n || packet[..n][k].Covers(p);
    }
  }

  /** Merges a page with a white drawing. */
  method MergeWhite(image: Image, packet: seq<PdfRect>)
    modifies image
    ensures forall i, j :: 0 <= i < image.Length0 && 0 <= j < image.Length1 ==>
              image[i, j] == if Covered(packet, Centre(image, i, j)) then WHITE else old(image[i, j])
  {
    for n := 0 to |packet|
      invariant forall i, j :: 0 <= i < image.Length0 && 0 <= j < image.Length1 ==>
                  image[i, j] == if Covered(packet[..n], Centre(image, i, j)) then WHITE else old(image[i, j])
    {
      PaintWhite(image, packet[n]);
      forall i, j | 0 <= i < image.Length0 && 0 <= j < image.Length1
        ensures Covered(packet[..n + 1], Centre(image, i, j))
                <==> Covered(packet[..n], Centre(image, i, j)) || packet[n].Covers(Centre(image, i, j))
      {
        CoveredByPrefix(packet, n, Centre(image, i, j));
      }
    }
    assert packet[..|packet|] == packet;
  }

  /** A drawing of some areas covers exactly the positions in those areas. */
  lemma DrawingCoversItsAreas(packet: seq<PdfRect>, boxes: seq<Box>, p: Point)
    requires Draws(packet, boxes)
    ensures Covered(packet, p) <==> Under(boxes, p)
  {
    if n :| 0 <= n < |packet| && packet[n].Covers(p) {
      assert boxes[n].Contains(p);
    }
    if n :| 0 <= n < |boxes| && boxes[n].Contains(p) {
      assert packet[n].Covers(p);
    }
  }

  // ---------- Scanning ----------

  function ColoursOf(image: Image): set<Rgb>
    reads image
  {
    set i, j | 0 <= i < image.Length0 && 0 <= j < image.Length1 :: image[i, j]
  }

  /** PIL's getcolors with its default limit: the distinct colours in some order, or None if there are too many. */
  method GetColours(image: Image) returns (colours: Option<seq<Rgb>>)
    ensures colours.None? <==> |ColoursOf(image)| > MAX_COLOURS
    ensures colours.Some? ==> forall c :: c in colours.value <==> c in ColoursOf(image)
  {
    var rest := ColoursOf(image);
    if |rest| > MAX_COLOURS {
      return None;
    }
    var found := [];
    while rest != {}
      invariant forall c :: c in found || c in rest <==> c in ColoursOf(image)
      decreases rest
    {
      var c :| c in rest;
      found := found + [c];
      rest := rest - {c};
    }
    return Some(found);
  }

  /** The position of a near-white colour among the 4 * 4 * 4 possible ones. */
  function NearWhiteIndex(c: Rgb): int {
    (255 - c.r) * 16 + (255 - c.g) * 4 + (255 - c.b)
  }

  lemma {:induction false} BoundedByIndex(colours: set<Rgb>, n: nat)
    requires forall c :: c in colours ==> NearWhite(c) && NearWhiteIndex(c) < n
    ensures |colours| <= n
  {
    if colours != {} {
      var some :| some in colours;
      assert 0 <= NearWhiteIndex(some) < n;
      var last := set c | c in colours && NearWhiteIndex(c) == n - 1;
      if last == {} {
        assert forall c :: c in colours ==> c !in last;
        BoundedByIndex(colours, n - 1);
      } else {
        var c :| c in last;
        forall d | d in colours - {c}
          ensures NearWhiteIndex(d) < n - 1
        {
          assert d == c || NearWhiteIndex(d) != n - 1;
        }
        BoundedByIndex(colours - {c}, n - 1);
      }
    }
  }

  /** A page whose pixels are all near white has at most 64 colours, so getcolors never gives up on a clean page. */
  lemma CleanPageHasFewColours(colours: set<Rgb>)
    requires forall c :: c in colours ==> NearWhite(c)
    ensures |colours| <= 64 < MAX_COLOURS
  {
    BoundedByIndex(colours, 64);
  }

  ghost predicate ShowsColour(image: Image)
    reads image
  {
    exists i, j :: 0 <= i < image.Length0 && 0 <= j < image.Length1 && !NearWhite(image[i, j])
  }

  lemma ShowsColourByColours(image: Image)
    ensures ShowsColour(image) <==> exists c :: c in ColoursOf(image) && !NearWhite(c)
  {
    if c :| c in ColoursOf(image) && !NearWhite(c) {
      var i, j :| 0 <= i < image.Length0 && 0 <= j < image.Length1 && image[i, j] == c;
      assert ShowsColour(image);
    }
    if ShowsColour(image) {
      var i, j :| 0 <= i < image.Length0 && 0 <= j < image.Length1 && !NearWhite(image[i, j]);
      assert image[i, j] in ColoursOf(image);
    }
  }

  ghost predicate Increasing(pages: seq<nat>) {
    forall i, j :: 0 <= i < j < |pages| ==> pages[i] < pages[j]
  }

  /** The 1-indexed pages with some pixel that is not near white, in increasing order and once each. The branch
      for too many colours reports no page that the colour loop would have passed. */
  method OutOfBoundsPages(images: seq<Image>) returns (pages: seq<nat>)
    ensures Increasing(pages)
    ensures forall n :: n in pages <==> 1 <= n <= |images| && ShowsColour(images[n - 1])
  {
    pages := [];
    for k := 0 to |images|
      invariant Increasing(pages) && forall i :: 0 <= i < |pages| ==> pages[i] <= k
      invariant forall n :: n in pages <==> 1 <= n <= k && ShowsColour(images[n - 1])
    {
      var colours := GetColours(images[k]);
      ShowsColourByColours(images[k]);
      if colours.None? {
        if !ShowsColour(images[k]) {
          CleanPageHasFewColours(ColoursOf(images[k]));
        }
        pages := pages + [k + 1];
        continue;
      }
      var exceeds := false;
      for c := 0 to |colours.value|
        invariant !exceeds
        invariant forall d :: 0 <= d < c ==> NearWhite(colours.value[d])
      {
        var Rgb(r, g, b) := colours.value[c];
        var worst := if 255 - r >= 255 - g && 255 - r >= 255 - b then 255 - r
          else if 255 - g >= 255 - b then 255 - g else 255 - b;
        if worst > WHITE_TOLERANCE {
          assert colours.value[c] in ColoursOf(images[k]);
          exceeds := true;
          break;
        }
      }
      if exceeds {
        pages := pages + [k + 1];
      }
    }
  }

  // ---------- End to end ----------

  predicate Distinct(images: seq<Image>) {
    forall i, j :: 0 <= i < j < |images| ==> images[i] != images[j]
  }

  /** Some pixel of the page has visible colour with its centre outside the printable area. */
  ghost predicate ContentOutside(image: Image, isAddressPage: bool, w: Window)
    reads image
  {
    exists i, j :: 0 <= i < image.Length0 && 0 <= j < image.Length1 && !NearWhite(image[i, j])
                   && !Under(White(isAddressPage, w), Centre(image, i, j))
  }

  /** Once a drawing of the page's printable area is merged into it, a page shows colour exactly if it had content
      outside that area. */
  method MergePage(image: Image, packet: seq<PdfRect>, ghost isAddressPage: bool, ghost w: Window)
    requires Draws(packet, White(isAddressPage, w))
    modifies image
    ensures ShowsColour(image) <==> old(ContentOutside(image, isAddressPage, w))
  {
    MergeWhite(image, packet);
    forall i, j | 0 <= i < image.Length0 && 0 <= j < image.Length1
      ensures NearWhite(image[i, j])
              <==> NearWhite(old(image[i, j])) || Under(White(isAddressPage, w), Centre(image, i, j))
    {
      DrawingCoversItsAreas(packet, White(isAddressPage, w), Centre(image, i, j));
    }
  }

  /** Some pixel with a channel more than 3 below full white has its centre where the page may not be printed. */
  ghost predicate ShowsWhereForbidden(image: Image, isAddressPage: bool, window: Option<Window>, placement: string)
    reads image
  {
    exists i, j :: 0 <= i < image.Length0 && 0 <= j < image.Length1
                   && (image[i, j].r < 252 || image[i, j].g < 252 || image[i, j].b < 252)
                   && !MayBePrinted(isAddressPage, window, placement, Centre(image, i, j))
  }

  /** Some such pixel has its centre less than four millimetres from an edge of the page. */
  ghost predicate ShowsInMargin(image: Image)
    reads image
  {
    exists i, j :: 0 <= i < image.Length0 && 0 <= j < image.Length1
                   && (image[i, j].r < 252 || image[i, j].g < 252 || image[i, j].b < 252)
                   && !(4.0 <= Centre(image, i, j).x <= 206.0 && 4.0 <= Centre(image, i, j).y <= 293.0)
  }

  lemma ContentOutsideIff(image: Image, isAddressPage: bool, window: Option<Window>, placement: string)
    requires window.Some? ==> window.value.WellFormed()
    ensures ContentOutside(image, isAddressPage, WindowOrStandard(window, placement))
            <==> ShowsWhereForbidden(image, isAddressPage, window, placement)
  {
    forall i, j | 0 <= i < image.Length0 && 0 <= j < image.Length1
      ensures Under(White(isAddressPage, WindowOrStandard(window, placement)), Centre(image, i, j))
              <==> MayBePrinted(isAddressPage, window, placement, Centre(image, i, j))
    {
      WhiteIff(isAddressPage, window, placement, Centre(image, i, j));
    }
  }

  lemma ContentInMarginIff(image: Image, w: Window)
    ensures ContentOutside(image, false, w) <==> ShowsInMargin(image)
  {
    forall i, j | 0 <= i < image.Length0 && 0 <= j < image.Length1
      ensures Under(White(false, w), Centre(image, i, j))
              <==> 4.0 <= Centre(image, i, j).x <= 206.0 && 4.0 <= Centre(image, i, j).y <= 293.0
    {
      FrameIff(w, Centre(image, i, j));
    }
  }

  lemma ContentOutsideInMillimetres(image: Image, isAddressPage: bool, window: Option<Window>, placement: string)
    ensures !isAddressPage ==>
              (ContentOutside(image, false, WindowOrStandard(window, placement)) <==> ShowsInMargin(image))
    ensures (window.Some? ==> window.value.WellFormed()) ==>
              (ContentOutside(image, isAddressPage, WindowOrStandard(window, placement))
               <==> ShowsWhereForbidden(image, isAddressPage, window, placement))
  {
    ContentInMarginIff(image, WindowOrStandard(window, placement));
    if window.Some? ==> window.value.WellFormed() {
      ContentOutsideIff(image, isAddressPage, window, placement);
    }
  }

  /** Reports, in increasing order, exactly the pages of a letter or an attachment that show something where they may
      not be printed; for all but a letter's first page that is the four millimetres along the edges. */
  method PagesWithContentOutsidePrintableArea(images: seq<Image>, isAnAttachment: bool, window: Option<Window>,
                                              placement: string)
    returns (pages: seq<nat>)
    requires Distinct(images) && (!isAnAttachment ==> images != [])
    modifies images
    ensures Increasing(pages) && forall n :: n in pages ==> 1 <= n <= |images|
    ensures forall n :: 1 <= n <= |images| && (n > 1 || isAnAttachment) ==>
              (n in pages <==> old(ShowsInMargin(images[n - 1])))
    ensures (window.Some? ==> window.value.WellFormed()) ==>
              forall n :: 1 <= n <= |images| ==>
                (n in pages
                 <==> old(ShowsWhereForbidden(images[n - 1], n == 1 && !isAnAttachment, window, placement)))
    ensures forall n :: 1 <= n <= |images| ==>
              (n in pages
               <==> old(ContentOutside(images[n - 1], n == 1 && !isAnAttachment, WindowOrStandard(window, placement))))
  {
    ghost var w := WindowOrStandard(window, placement);
    forall k | 0 <= k < |images|
      ensures k > 0 || isAnAttachment ==> (ContentOutside(images[k], false, w) <==> ShowsInMargin(images[k]))
      ensures (window.Some? ==> window.value.WellFormed()) ==>
                (ContentOutside(images[k], k == 0 && !isAnAttachment, w)
                 <==> ShowsWhereForbidden(images[k], k == 0 && !isAnAttachment, window, placement))
    {
      ContentOutsideInMillimetres(images[k], k == 0 && !isAnAttachment, window, placement);
    }
    var overlays := OverlayPrintableAreasWithWhite(|images|, isAnAttachment, window, placement);
    for n := 0 to |images|
      invariant forall k :: n <= k < |images| ==> unchanged(images[k])
      invariant forall k :: 0 <= k < n ==>
                  (ShowsColour(images[k]) <==> old(ContentOutside(images[k], k == 0 && !isAnAttachment, w)))
    {
      MergePage(images[n], overlays[n], n == 0 && !isAnAttachment, w);
    }
    pages := OutOfBoundsPages(images);
  }

  /** A page whose visible content keeps off the red overlay is never reported. */
  lemma ContentOffRedIsAccepted(image: Image, isFirstPage: bool, w: Window)
    requires w.WellFormed()
    requires forall i, j :: 0 <= i < image.Length0 && 0 <= j < image.Length1 && !NearWhite(image[i, j]) ==>
               !Under(Red(isFirstPage, w), Centre(image, i, j))
    ensures !ContentOutside(image, isFirstPage, w)
  {
    forall i, j | 0 <= i < image.Length0 && 0 <= j < image.Length1 && !NearWhite(image[i, j])
      ensures Under(White(isFirstPage, w), Centre(image, i, j))
    {
      CentreIsOnPage(image, i, j);
      OffRedIsWhite(isFirstPage, w, Centre(image, i, j));
    }
  }
}

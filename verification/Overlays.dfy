/**
  The two overlays that app/precompiled.py draws from an address window: white over everything that may be
  printed (used to validate a letter) and red over everything that may not (shown to users).
 */
module Overlays {
  import opened AddressWindow
  import opened Options
  import opened Canvas

  const BORDER_LEFT := 5.0
  const BORDER_RIGHT := A4_WIDTH - 5.0
  const BORDER_TOP := 5.0
  const BORDER_BOTTOM := A4_HEIGHT - 5.0
  const BODY_TOP := 95.0
  const SERVICE_ADDRESS_LEFT := 125.0
  const LOGO_RIGHT := SERVICE_ADDRESS_LEFT
  const ADDRESS_LEFT := 24.6
  const ADDRESS_RIGHT := 120.0
  const ADDRESS_WINDOW_HEIGHT := 40.0

  // ---------- Windows ----------

  /** An unrecognised placement counts as the default, 60mm. */
  function AddressTop(placement: string): real {
    if placement == "50mm" then 50.0 else 60.0
  }

  function StandardWindow(placement: string): Window {
    var known := if placement == "50mm" then "50mm" else "60mm";
    Window("standard-" + known, known,
           Area(ADDRESS_LEFT, AddressTop(known), ADDRESS_RIGHT - ADDRESS_LEFT, ADDRESS_WINDOW_HEIGHT), None)
  }

  function WindowOrStandard(window: Option<Window>, placement: string): Window {
    if window.Some? then window.value else StandardWindow(placement)
  }

  function LogoBottom(w: Window): real { w.addressArea.y }

  function BodyTop(w: Window): real { Min(BODY_TOP, w.addressArea.Bottom()) }

  // ---------- White ----------

  /** The frame that is printable on every page without an address. */
  const FRAME := BoxAt(BORDER_LEFT - 1.0, BORDER_TOP - 1.0, BORDER_RIGHT + 1.0, BORDER_BOTTOM + 1.0)

  function WhiteAroundPostage(postage: Area, address: Area): seq<Box> {
    var left, top := BORDER_LEFT - 1.0, BORDER_TOP - 1.0;
    var right, bottom := BORDER_RIGHT + 1.0, BORDER_BOTTOM + 1.0;
    [ BoxAt(left, top, right, postage.y),
      BoxAt(left, postage.Bottom(), right, bottom),
      BoxAt(left, postage.y, postage.x, postage.Bottom()),
      BoxAt(postage.Right(), postage.y, right, postage.Bottom()),
      BoxAt(address.x, address.y, address.Right(), address.Bottom()) ]
  }

  function WhiteStandard(w: Window): seq<Box> {
    var address := w.addressArea;
    [ BoxAt(BORDER_LEFT - 1.0, BodyTop(w) - 1.0, BORDER_RIGHT + 1.0, BORDER_BOTTOM + 1.0),
      BoxAt(SERVICE_ADDRESS_LEFT - 1.0, BORDER_TOP - 1.0, BORDER_RIGHT + 1.0, BODY_TOP + 1.0),
      BoxAt(BORDER_LEFT - 1.0, BORDER_TOP - 1.0, LOGO_RIGHT + 1.0, LogoBottom(w) + 1.0),
      BoxAt(address.x - 1.0, address.y - 1.0, address.Right() + 1.0, address.Bottom() + 1.0) ]
  }

  /** What the white overlay covers on a page. */
  function White(isAddressPage: bool, w: Window): seq<Box> {
    if !isAddressPage then [FRAME]
    else if w.postageArea.Some? then WhiteAroundPostage(w.postageArea.value, w.addressArea)
    else WhiteStandard(w)
  }

  method OverlayAroundPostageAreaWithWhite(can: NotifyCanvas, w: Window)
    requires w.postageArea.Some? && can.packet == []
    modifies can
    ensures Draws(can.packet, WhiteAroundPostage(w.postageArea.value, w.addressArea))
  {
    var postage, address := w.postageArea.value, w.addressArea;
    var left, top := BORDER_LEFT - 1.0, BORDER_TOP - 1.0;
    var right, bottom := BORDER_RIGHT + 1.0, BORDER_BOTTOM + 1.0;
    can.Rect(Point(left, top), Point(right, postage.y));
    can.Rect(Point(left, postage.Bottom()), Point(right, bottom));
    can.Rect(Point(left, postage.y), Point(postage.x, postage.Bottom()));
    can.Rect(Point(postage.Right(), postage.y), Point(right, postage.Bottom()));
    can.Rect(Point(address.x, address.y), Point(address.Right(), address.Bottom()));
  }

  method OverlayAddressPageWithWhite(window: Option<Window>, placement: string) returns (can: NotifyCanvas)
    ensures fresh(can) && Draws(can.packet, White(true, WindowOrStandard(window, placement)))
  {
    can := new NotifyCanvas();
    var w := WindowOrStandard(window, placement);
    if w.postageArea.Some? {
      OverlayAroundPostageAreaWithWhite(can, w);
      return;
    }
    var address := w.addressArea;
    var logoBottom, bodyTop := LogoBottom(w), BodyTop(w);
    can.Rect(Point(BORDER_LEFT - 1.0, bodyTop - 1.0), Point(BORDER_RIGHT + 1.0, BORDER_BOTTOM + 1.0));
    can.Rect(Point(SERVICE_ADDRESS_LEFT - 1.0, BORDER_TOP - 1.0), Point(BORDER_RIGHT + 1.0, BODY_TOP + 1.0));
    can.Rect(Point(BORDER_LEFT - 1.0, BORDER_TOP - 1.0), Point(LOGO_RIGHT + 1.0, logoBottom + 1.0));
    can.Rect(Point(address.x - 1.0, address.y - 1.0), Point(address.Right() + 1.0, address.Bottom() + 1.0));
  }

  /** One drawing a page, in page order. */
  method OverlayPrintableAreasWithWhite(pageCount: nat, isAnAttachment: bool, window: Option<Window>,
                                        placement: string)
    returns (overlays: seq<seq<PdfRect>>)
    requires !isAnAttachment ==> 0 < pageCount
    ensures |overlays| == pageCount
    ensures forall n :: 0 <= n < pageCount ==>
              Draws(overlays[n], White(n == 0 && !isAnAttachment, WindowOrStandard(window, placement)))
  {
    overlays := [];
    var pageNumber := 0;
    if !isAnAttachment {
      var can := OverlayAddressPageWithWhite(window, placement);
      overlays := [can.packet];
      pageNumber := 1;
    }
    for n := pageNumber to pageCount
      invariant |overlays| == n
      invariant forall k :: 0 <= k < n ==>
                  Draws(overlays[k], White(k == 0 && !isAnAttachment, WindowOrStandard(window, placement)))
    {
      var can := new NotifyCanvas();
      can.Rect(Point(BORDER_LEFT - 1.0, BORDER_TOP - 1.0), Point(BORDER_RIGHT + 1.0, BORDER_BOTTOM + 1.0));
      assert Draws(can.packet, [] + [FRAME]);
      overlays := overlays + [can.packet];
    }
  }

  // ---------- Red ----------

  const RED_MARGINS: seq<Box> :=
    [ BoxAt(0.0, 0.0, BORDER_LEFT, A4_HEIGHT),
      BoxAt(BORDER_LEFT, 0.0, BORDER_RIGHT, BORDER_TOP),
      BoxAt(BORDER_RIGHT, 0.0, A4_WIDTH, A4_HEIGHT),
      BoxAt(BORDER_LEFT, BORDER_BOTTOM, BORDER_RIGHT, A4_HEIGHT) ]

  function RedAroundAddress(postage: Area, address: Area): seq<Box> {
    [ BoxAt(postage.x, postage.y, postage.Right(), address.y),
      BoxAt(postage.x, address.Bottom(), postage.Right(), postage.Bottom()),
      BoxAt(postage.x, address.y, address.x, address.Bottom()),
      BoxAt(address.Right(), address.y, postage.Right(), address.Bottom()) ]
  }

  function RedStandard(w: Window): seq<Box> {
    var address := w.addressArea;
    [ BoxAt(BORDER_LEFT, LogoBottom(w), address.x, BodyTop(w)),
      BoxAt(address.x, LogoBottom(w), address.Right(), address.y),
      BoxAt(address.Right(), LogoBottom(w), SERVICE_ADDRESS_LEFT, BodyTop(w)) ]
  }

  /** What the red overlay covers on a page. */
  function Red(isFirstPage: bool, w: Window): seq<Box> {
    if !isFirstPage then RED_MARGINS
    else if w.postageArea.Some? then RED_MARGINS + RedAroundAddress(w.postageArea.value, w.addressArea)
    else RED_MARGINS + RedStandard(w)
  }

  method ColourMarginsInRed(can: NotifyCanvas)
    requires can.packet == []
    modifies can
    ensures Draws(can.packet, RED_MARGINS)
  {
    can.Rect(Point(0.0, 0.0), Point(BORDER_LEFT, A4_HEIGHT));
    can.Rect(Point(BORDER_LEFT, 0.0), Point(BORDER_RIGHT, BORDER_TOP));
    can.Rect(Point(BORDER_RIGHT, 0.0), Point(A4_WIDTH, A4_HEIGHT));
    can.Rect(Point(BORDER_LEFT, BORDER_BOTTOM), Point(BORDER_RIGHT, A4_HEIGHT));
  }

  method ColourAroundPostageInRed(can: NotifyCanvas, w: Window)
    requires w.postageArea.Some? && Draws(can.packet, RED_MARGINS)
    modifies can
    ensures Draws(can.packet, RED_MARGINS + RedAroundAddress(w.postageArea.value, w.addressArea))
  {
    var postage, address := w.postageArea.value, w.addressArea;
    can.Rect(Point(postage.x, postage.y), Point(postage.Right(), address.y));
    can.Rect(Point(postage.x, address.Bottom()), Point(postage.Right(), postage.Bottom()));
    can.Rect(Point(postage.x, address.y), Point(address.x, address.Bottom()));
    can.Rect(Point(address.Right(), address.y), Point(postage.Right(), address.Bottom()));
  }

  method ColourAroundAddressInRed(can: NotifyCanvas, w: Window)
    requires Draws(can.packet, RED_MARGINS)
    modifies can
    ensures Draws(can.packet, RED_MARGINS + RedStandard(w))
  {
    var address := w.addressArea;
    var logoBottom, bodyTop := LogoBottom(w), BodyTop(w);
    can.Rect(Point(BORDER_LEFT, logoBottom), Point(address.x, bodyTop));
    can.Rect(Point(address.x, logoBottom), Point(address.Right(), address.y));
    can.Rect(Point(address.Right(), logoBottom), Point(SERVICE_ADDRESS_LEFT, bodyTop));
  }

  method ColourNoPrintAreasInRed(isFirstPage: bool, window: Option<Window>, placement: string)
    returns (can: NotifyCanvas)
    ensures fresh(can) && Draws(can.packet, Red(isFirstPage, WindowOrStandard(window, placement)))
  {
    can := new NotifyCanvas();
    ColourMarginsInRed(can);
    var w := WindowOrStandard(window, placement);
    if isFirstPage && w.postageArea.Some? {
      ColourAroundPostageInRed(can, w);
    } else if isFirstPage {
      ColourAroundAddressInRed(can, w);
    }
  }

  // ---------- Both drawings in millimetres ----------

  predicate Between(a: real, v: real, b: real) { Min(a, b) <= v <= Max(a, b) }

  /** Below the address or 95 mm, right of 125 mm, above the address, and the address itself, each with one millimetre
      to spare. */
  predicate WhiteForAddress(a: Area, p: Point) {
    || (4.0 <= p.x <= 206.0 && Min(95.0, a.y + a.height) - 1.0 <= p.y <= 293.0)
    || (124.0 <= p.x <= 206.0 && 4.0 <= p.y <= 96.0)
    || (4.0 <= p.x <= 126.0 && Between(4.0, p.y, a.y + 1.0))
    || (a.x - 1.0 <= p.x <= a.x + a.width + 1.0 && a.y - 1.0 <= p.y <= a.y + a.height + 1.0)
  }

  /** What lies between an edge of the postage area and the border four millimetres from the page's edge. */
  predicate WhiteForPostage(postage: Area, address: Area, p: Point) {
    var right, bottom := postage.x + postage.width, postage.y + postage.height;
    || (4.0 <= p.x <= 206.0 && (Between(4.0, p.y, postage.y) || Between(bottom, p.y, 293.0)))
    || (postage.y <= p.y <= bottom && (Between(4.0, p.x, postage.x) || Between(right, p.x, 206.0)))
    || (address.x <= p.x <= address.x + address.width && address.y <= p.y <= address.y + address.height)
  }

  /** Where a page may be printed, given the caller's window and the placement that counts without one. */
  predicate MayBePrinted(isAddressPage: bool, window: Option<Window>, placement: string, p: Point) {
    if !isAddressPage then 4.0 <= p.x <= 206.0 && 4.0 <= p.y <= 293.0
    else
      match window
      case None => WhiteForAddress(Area(24.6, if placement == "50mm" then 50.0 else 60.0, 95.4, 40.0), p)
      case Some(w) =>
        if w.postageArea.Some? then WhiteForPostage(w.postageArea.value, w.addressArea, p)
        else WhiteForAddress(w.addressArea, p)
  }

  lemma FrameIff(w: Window, p: Point)
    ensures Under(White(false, w), p) <==> 4.0 <= p.x <= 206.0 && 4.0 <= p.y <= 293.0
  {
    var white := White(false, w);
    assert Under(white, p) <==> white[0].Contains(p);
  }

  lemma WhiteForPostageIff(w: Window, p: Point)
    requires w.WellFormed() && w.postageArea.Some?
    ensures Under(White(true, w), p) <==> WhiteForPostage(w.postageArea.value, w.addressArea, p)
  {
    var white := White(true, w);
    assert Under(white, p) <==> white[0].Contains(p) || white[1].Contains(p) || white[2].Contains(p)
                                || white[3].Contains(p) || white[4].Contains(p);
  }

  lemma WhiteForAddressIff(w: Window, p: Point)
    requires w.WellFormed() && w.postageArea.None?
    ensures Under(White(true, w), p) <==> WhiteForAddress(w.addressArea, p)
  {
    var white := White(true, w);
    assert Under(white, p) <==> white[0].Contains(p) || white[1].Contains(p) || white[2].Contains(p)
                                || white[3].Contains(p);
  }

  /** The white drawing of every page, position by position and in millimetres, for the caller's window or without
      one. */
  lemma WhiteIff(isAddressPage: bool, window: Option<Window>, placement: string, p: Point)
    requires window.Some? ==> window.value.WellFormed()
    ensures Under(White(isAddressPage, WindowOrStandard(window, placement)), p)
            <==> MayBePrinted(isAddressPage, window, placement, p)
  {
    var w := WindowOrStandard(window, placement);
    if !isAddressPage {
      FrameIff(w, p);
    } else if w.postageArea.Some? {
      WhiteForPostageIff(w, p);
    } else {
      WhiteForAddressIff(w, p);
    }
  }

  /** Left and right of the address, down to its lower edge or 95 mm, and its upper edge. */
  predicate RedForAddress(a: Area, p: Point) {
    var right, bodyTop := a.x + a.width, Min(95.0, a.y + a.height);
    || (Between(a.y, p.y, bodyTop) && (Between(5.0, p.x, a.x) || Between(right, p.x, 125.0)))
    || (a.x <= p.x <= right && p.y == a.y)
  }

  /** Where a page is shown as forbidden. */
  predicate IsForbidden(isFirstPage: bool, window: Option<Window>, placement: string, p: Point) {
    || p.x <= 5.0 || 205.0 <= p.x || p.y <= 5.0 || 292.0 <= p.y
    || (isFirstPage &&
        match window
        case None => RedForAddress(Area(24.6, if placement == "50mm" then 50.0 else 60.0, 95.4, 40.0), p)
        case Some(w) =>
          if w.postageArea.Some? then ClosureOf(w.postageArea.value, p) && !InteriorOf(w.addressArea, p)
          else RedForAddress(w.addressArea, p))
  }

  lemma MarginsIff(isFirstPage: bool, w: Window, p: Point)
    requires p.OnPage()
    ensures var red := Red(isFirstPage, w);
            Under(red, p) <==> p.x <= 5.0 || 205.0 <= p.x || p.y <= 5.0 || 292.0 <= p.y
                               || exists i :: 4 <= i < |red| && red[i].Contains(p)
  {
    var red := Red(isFirstPage, w);
    assert red[0].Contains(p) <==> p.x <= 5.0;
    assert red[2].Contains(p) <==> 205.0 <= p.x;
    assert red[1].Contains(p) <==> 5.0 <= p.x <= 205.0 && p.y <= 5.0;
    assert red[3].Contains(p) <==> 5.0 <= p.x <= 205.0 && 292.0 <= p.y;
  }

  lemma RedForAddressIff(w: Window, p: Point)
    requires w.WellFormed() && w.postageArea.None?
    ensures RedForAddress(w.addressArea, p)
            <==> exists i :: 4 <= i < |Red(true, w)| && Red(true, w)[i].Contains(p)
  {
    var red := Red(true, w);
    assert (exists i :: 4 <= i < |red| && red[i].Contains(p))
           <==> red[4].Contains(p) || red[5].Contains(p) || red[6].Contains(p);
  }

  /** The red drawing of every page, position by position and in millimetres. */
  lemma RedIff(isFirstPage: bool, window: Option<Window>, placement: string, p: Point)
    requires (window.Some? ==> window.value.WellFormed()) && p.OnPage()
    ensures Under(Red(isFirstPage, WindowOrStandard(window, placement)), p)
            <==> IsForbidden(isFirstPage, window, placement, p)
  {
    var w := WindowOrStandard(window, placement);
    if isFirstPage && w.postageArea.Some? {
      RedAroundPostageIsExact(w, p);
    } else {
      MarginsIff(isFirstPage, w, p);
      if isFirstPage {
        RedForAddressIff(w, p);
      }
    }
  }

  // ---------- Properties ----------

  lemma OffRedIsInsideTheBorder(isFirstPage: bool, w: Window, p: Point)
    requires p.OnPage() && !Under(Red(isFirstPage, w), p)
    ensures BORDER_LEFT < p.x < BORDER_RIGHT && BORDER_TOP < p.y < BORDER_BOTTOM
    ensures forall i :: 4 <= i < |Red(isFirstPage, w)| ==> !Red(isFirstPage, w)[i].Contains(p)
  {
    var red := Red(isFirstPage, w);
    assert !red[0].Contains(p) && !red[1].Contains(p) && !red[2].Contains(p) && !red[3].Contains(p);
  }

  lemma OffRedIsWhiteAroundPostage(w: Window, p: Point)
    requires w.WellFormed() && w.postageArea.Some? && p.OnPage() && !Under(Red(true, w), p)
    ensures Under(White(true, w), p)
  {
    OffRedIsInsideTheBorder(true, w, p);
    var red, white := Red(true, w), White(true, w);
    assert !red[4].Contains(p) && !red[5].Contains(p) && !red[6].Contains(p) && !red[7].Contains(p);
    assert white[0].Contains(p) || white[1].Contains(p) || white[2].Contains(p) || white[3].Contains(p)
        || white[4].Contains(p);
  }

  lemma OffRedIsWhiteStandard(w: Window, p: Point)
    requires w.WellFormed() && w.postageArea.None? && p.OnPage() && !Under(Red(true, w), p)
    ensures Under(White(true, w), p)
  {
    OffRedIsInsideTheBorder(true, w, p);
    var red, white := Red(true, w), White(true, w);
    assert !red[4].Contains(p) && !red[6].Contains(p);
    assert white[0].Contains(p) || white[1].Contains(p) || white[2].Contains(p) || white[3].Contains(p);
  }

  /** Content kept off the red is never rejected: on every page, for every window the parser can return, a page
      position that no red rectangle touches lies under a white one. */
  lemma OffRedIsWhite(isFirstPage: bool, w: Window, p: Point)
    requires w.WellFormed() && p.OnPage()
    ensures Under(Red(isFirstPage, w), p) || Under(White(isFirstPage, w), p)
  {
    if !Under(Red(isFirstPage, w), p) {
      if !isFirstPage {
        OffRedIsInsideTheBorder(isFirstPage, w, p);
        assert White(isFirstPage, w)[0].Contains(p);
      } else if w.postageArea.Some? {
        OffRedIsWhiteAroundPostage(w, p);
      } else {
        OffRedIsWhiteStandard(w, p);
      }
    }
  }

  predicate InteriorOf(a: Area, p: Point) {
    a.x < p.x < a.Right() && a.y < p.y < a.Bottom()
  }

  predicate ClosureOf(a: Area, p: Point) {
    a.x <= p.x <= a.Right() && a.y <= p.y <= a.Bottom()
  }

  /** What the docstring promises for a print provider's window: everything inside the border except the postage
      area, plus the address. */
  predicate PromisedAroundPostage(postage: Area, address: Area, p: Point) {
    (FRAME.Contains(p) && !InteriorOf(postage, p)) || ClosureOf(address, p)
  }

  predicate FillsTop(postage: Area, address: Area) {
    4.0 <= postage.y || (address.x <= 4.0 && 206.0 <= address.Right() && address.y == postage.y
                         && 4.0 <= address.Bottom())
  }

  predicate FillsBottom(postage: Area, address: Area) {
    postage.Bottom() <= 293.0 || (address.x <= 4.0 && 206.0 <= address.Right()
                                  && address.Bottom() == postage.Bottom() && address.y <= 293.0)
  }

  predicate FillsLeft(postage: Area, address: Area) {
    4.0 <= postage.x || (address.x == postage.x && address.y == postage.y && address.Bottom() == postage.Bottom()
                         && 4.0 <= address.Right())
  }

  predicate FillsRight(postage: Area, address: Area) {
    postage.Right() <= 206.0 || (address.Right() == postage.Right() && address.y == postage.y
                                 && address.Bottom() == postage.Bottom() && address.x <= 206.0)
  }

  /** Wherever the postage area sticks out of the frame, the address area fills everything that sticks out. */
  predicate OvershootIsAddress(postage: Area, address: Area) {
    && FillsTop(postage, address) && FillsBottom(postage, address)
    && FillsLeft(postage, address) && FillsRight(postage, address)
  }

  /** The white region holds everything that is promised, for every window. */
  lemma PromisedIsWhite(postage: Area, address: Area, p: Point)
    requires PromisedAroundPostage(postage, address, p)
    ensures Under(WhiteAroundPostage(postage, address), p)
  {
    var white := WhiteAroundPostage(postage, address);
    assert white[0].Contains(p) || white[1].Contains(p) || white[2].Contains(p) || white[3].Contains(p)
        || white[4].Contains(p);
  }

  lemma WhiteIsPromised(postage: Area, address: Area, p: Point)
    requires postage.OnPage() && address.OnPage() && postage.Contains(address)
    requires OvershootIsAddress(postage, address)
    requires Under(WhiteAroundPostage(postage, address), p)
    ensures PromisedAroundPostage(postage, address, p)
  {
  }

  /** A page position that is white without being promised, on a side where the postage area sticks out. */
  function OvershootPoint(postage: Area, address: Area): Point {
    var x := if 4.0 < address.x then 4.0 else if address.Right() < 206.0 then 206.0 else 4.0;
    var y := if postage.y < address.y then postage.y else postage.Bottom();
    if !FillsTop(postage, address) then
      Point(x, if address.y == postage.y && address.Bottom() < 4.0 then (address.Bottom() + 4.0) / 2.0 else postage.y)
    else if !FillsBottom(postage, address) then
      Point(x, if address.Bottom() == postage.Bottom() && 293.0 < address.y then (address.y + 293.0) / 2.0
               else postage.Bottom())
    else if !FillsLeft(postage, address) then
      Point(if address.x == postage.x && address.Right() < 4.0 then (address.Right() + 4.0) / 2.0 else postage.x, y)
    else
      Point(if address.Right() == postage.Right() && 206.0 < address.x then (address.x + 206.0) / 2.0
            else postage.Right(), y)
  }

  lemma OvershootPointIsNotPromised(postage: Area, address: Area)
    requires postage.OnPage() && address.OnPage() && postage.Contains(address)
    requires !OvershootIsAddress(postage, address)
    ensures var p := OvershootPoint(postage, address); p.OnPage() && !PromisedAroundPostage(postage, address, p)
  {
  }

  lemma OvershootPointIsWhite(postage: Area, address: Area)
    requires postage.OnPage() && address.OnPage() && postage.Contains(address)
    requires !OvershootIsAddress(postage, address)
    ensures Under(WhiteAroundPostage(postage, address), OvershootPoint(postage, address))
  {
    var white, p := WhiteAroundPostage(postage, address), OvershootPoint(postage, address);
    var i := if !FillsTop(postage, address) then 0 else if !FillsBottom(postage, address) then 1
      else if !FillsLeft(postage, address) then 2 else 3;
    assert white[i].Contains(p);
  }

  ghost predicate WhiteIsExactAroundPostage(postage: Area, address: Area) {
    forall p: Point | p.OnPage() ::
      Under(WhiteAroundPostage(postage, address), p) <==> PromisedAroundPostage(postage, address, p)
  }

  /** For every provider window the parser can return, the white region is exactly what is promised if and only if
      the address area fills whatever part of the postage area sticks out of the frame. */
  lemma WhiteAroundPostageIsExactIff(w: Window)
    requires w.WellFormed() && w.postageArea.Some?
    ensures WhiteIsExactAroundPostage(w.postageArea.value, w.addressArea)
            <==> OvershootIsAddress(w.postageArea.value, w.addressArea)
  {
    var postage, address := w.postageArea.value, w.addressArea;
    if OvershootIsAddress(postage, address) {
      forall p: Point | p.OnPage()
        ensures Under(WhiteAroundPostage(postage, address), p) <==> PromisedAroundPostage(postage, address, p)
      {
        if Under(WhiteAroundPostage(postage, address), p) {
          WhiteIsPromised(postage, address, p);
        }
        if PromisedAroundPostage(postage, address, p) {
          PromisedIsWhite(postage, address, p);
        }
      }
    } else {
      OvershootPointIsNotPromised(postage, address);
      OvershootPointIsWhite(postage, address);
    }
  }

  /** In particular it is exact for a postage area inside the frame. */
  lemma WhiteIsExactInsideFrame(w: Window)
    requires w.WellFormed() && w.postageArea.Some?
    requires 4.0 <= w.postageArea.value.x && 4.0 <= w.postageArea.value.y
    requires w.postageArea.value.Right() <= 206.0 && w.postageArea.value.Bottom() <= 293.0
    ensures WhiteIsExactAroundPostage(w.postageArea.value, w.addressArea)
  {
    WhiteAroundPostageIsExactIff(w);
  }

  /** The parser's own page bounds do not suffice: it accepts a window whose white region reaches the page edge. */
  lemma PageBoundsDoNotMakeWhiteExact(py: Python)
    requires forall s: string :: py.show(Text(s)) == s
    ensures exists w: Window ::
              && Parse(py, Value(Encode(w))) == Parsed(Some(w)) && w.postageArea.Some?
              && !WhiteIsExactAroundPostage(w.postageArea.value, w.addressArea)
  {
    var w := Window("edge", "60mm", Area(22.0, 60.0, 85.5, 25.5), Some(Area(0.0, 40.0, 109.5, 47.5)));
    ParseAcceptsExactlyWellFormedWindows(py, w);
    WhiteAroundPostageIsExactIff(w);
  }

  /** The red rectangles around a provider's address cover exactly the postage area less the inside of the address, and
      with the margins they are all the red there is: nothing that may be printed inside the border is shown as
      forbidden. */
  lemma RedAroundPostageIsExact(w: Window, p: Point)
    requires w.WellFormed() && w.postageArea.Some? && p.OnPage()
    ensures Under(Red(true, w), p) <==>
              || !(BORDER_LEFT < p.x < BORDER_RIGHT && BORDER_TOP < p.y < BORDER_BOTTOM)
              || (ClosureOf(w.postageArea.value, p) && !InteriorOf(w.addressArea, p))
  {
    var red := Red(true, w);
    if Under(red, p) {
      var i :| 0 <= i < |red| && red[i].Contains(p);
    } else {
      OffRedIsInsideTheBorder(true, w, p);
      assert !red[4].Contains(p) && !red[5].Contains(p) && !red[6].Contains(p) && !red[7].Contains(p);
    }
  }

  // ---------- The standard branch: red and printable areas tile the page ----------

  /** The four printable areas as published, without the extra millimetre of the white overlay. */
  function Printable(w: Window): seq<Box> {
    var address := w.addressArea;
    [ BoxAt(BORDER_LEFT, BodyTop(w), BORDER_RIGHT, BORDER_BOTTOM),
      BoxAt(SERVICE_ADDRESS_LEFT, BORDER_TOP, BORDER_RIGHT, BODY_TOP),
      BoxAt(BORDER_LEFT, BORDER_TOP, LOGO_RIGHT, LogoBottom(w)),
      BoxAt(address.x, address.y, address.Right(), address.Bottom()) ]
  }

  /** Red and printable areas leave no gap, for every postage-free window. */
  lemma RedAndPrintableCoverThePage(w: Window, p: Point)
    requires w.WellFormed() && w.postageArea.None? && p.OnPage()
    ensures Under(Red(true, w), p) || Under(Printable(w), p)
  {
    var red, open := Red(true, w), Printable(w);
    assert red[0].Contains(p) || red[1].Contains(p) || red[2].Contains(p) || red[3].Contains(p)
        || red[4].Contains(p) || red[6].Contains(p)
        || open[0].Contains(p) || open[1].Contains(p) || open[2].Contains(p) || open[3].Contains(p);
  }

  ghost predicate Overlap(a: Box, b: Box) {
    exists p: Point :: a.InteriorContains(p) && b.InteriorContains(p)
  }

  ghost predicate RedAndPrintableAreDisjoint(w: Window) {
    forall i, j :: 0 <= i < |Red(true, w)| && 0 <= j < |Printable(w)| ==> !Overlap(Red(true, w)[i], Printable(w)[j])
  }

  /** The geometry a caller can check: the address inside the border, left of the service address unless it starts
      where the body does, and the full logo width wide if it starts below that. */
  predicate TilesCleanly(w: Window) {
    var a := w.addressArea;
    && BORDER_LEFT <= a.x && a.Right() <= BORDER_RIGHT && BORDER_TOP <= a.y && a.Bottom() <= BORDER_BOTTOM
    && (a.y < BODY_TOP ==> a.Right() <= SERVICE_ADDRESS_LEFT)
    && (BODY_TOP < a.y ==> a.x == BORDER_LEFT && a.Right() == SERVICE_ADDRESS_LEFT)
  }

  lemma CentreOverlap(a: Box, b: Box, p: Point)
    requires a.InteriorContains(p) && b.InteriorContains(p)
    ensures Overlap(a, b)
  {
  }

  /** The middle of the part that two overlapping rectangles share. */
  function SharedCentre(a: Box, b: Box): Point {
    Point((Max(Min(a.pt1.x, a.pt2.x), Min(b.pt1.x, b.pt2.x)) + Min(Max(a.pt1.x, a.pt2.x), Max(b.pt1.x, b.pt2.x))) / 2.0,
          (Max(Min(a.pt1.y, a.pt2.y), Min(b.pt1.y, b.pt2.y)) + Min(Max(a.pt1.y, a.pt2.y), Max(b.pt1.y, b.pt2.y))) / 2.0)
  }

  lemma UncleanWindowOverlaps(w: Window) returns (i: nat, j: nat)
    requires w.WellFormed() && w.postageArea.None? && !TilesCleanly(w)
    ensures i < |Red(true, w)| && j < |Printable(w)| && Overlap(Red(true, w)[i], Printable(w)[j])
  {
    var a := w.addressArea;
    if a.x < BORDER_LEFT {
      i, j := 0, 3;
    } else if BORDER_RIGHT < a.Right() {
      i, j := 2, 3;
    } else if a.y < BORDER_TOP {
      i, j := 1, 2;
    } else if BORDER_BOTTOM < a.Bottom() {
      i, j := 3, 3;
    } else if a.y < BODY_TOP {
      i, j := 6, 1;
    } else if a.x != BORDER_LEFT {
      i, j := 4, 0;
    } else {
      i, j := 6, 0;
    }
    CentreOverlap(Red(true, w)[i], Printable(w)[j], SharedCentre(Red(true, w)[i], Printable(w)[j]));
  }

  lemma CleanWindowIsDisjoint(w: Window, i: nat, j: nat, p: Point)
    requires w.WellFormed() && w.postageArea.None? && TilesCleanly(w)
    requires i < |Red(true, w)| && j < |Printable(w)|
    requires Red(true, w)[i].InteriorContains(p)
    ensures !Printable(w)[j].InteriorContains(p)
  {
  }

  /** Red never covers printable ground if and only if the window's geometry tiles cleanly. */
  lemma RedAndPrintableAreDisjointIff(w: Window)
    requires w.WellFormed() && w.postageArea.None?
    ensures RedAndPrintableAreDisjoint(w) <==> TilesCleanly(w)
  {
    if TilesCleanly(w) {
      forall i, j | 0 <= i < |Red(true, w)| && 0 <= j < |Printable(w)|
        ensures !Overlap(Red(true, w)[i], Printable(w)[j])
      {
        forall p | Red(true, w)[i].InteriorContains(p)
          ensures !Printable(w)[j].InteriorContains(p)
        {
          CleanWindowIsDisjoint(w, i, j, p);
        }
      }
    } else {
      var i, j := UncleanWindowOverlaps(w);
    }
  }

  /** Then no two red rectangles overlap either, so no red is drawn twice. */
  lemma RedIsDrawnOnce(w: Window, i: nat, j: nat)
    requires w.WellFormed() && w.postageArea.None? && TilesCleanly(w)
    requires i < j < |Red(true, w)|
    ensures !Overlap(Red(true, w)[i], Red(true, w)[j])
  {
  }

  /** Both windows used when a caller sends none are well formed and tile cleanly. */
  lemma StandardWindowsTileCleanly(placement: string)
    ensures StandardWindow(placement).WellFormed() && TilesCleanly(StandardWindow(placement))
  {
  }

  predicate Within1mmOfPrintable(w: Window, p: Point) {
    exists j :: 0 <= j < |Printable(w)| && Printable(w)[j].Within1mm(p)
  }

  /** The white overlay is at most one millimetre more generous than what is published, for every postage-free
      window. */
  lemma WhiteIsWithin1mmOfPrintable(w: Window, p: Point)
    requires w.WellFormed() && w.postageArea.None? && Under(White(true, w), p)
    ensures Within1mmOfPrintable(w, p)
  {
    var j :| 0 <= j < |White(true, w)| && White(true, w)[j].Contains(p);
    assert Printable(w)[j].Within1mm(p);
  }

  /** For a window that starts below the top border it is generous by exactly that. */
  lemma WhiteReaches1mmAroundPrintable(w: Window, p: Point)
    requires w.WellFormed() && w.postageArea.None? && BORDER_TOP <= w.addressArea.y
    ensures Under(White(true, w), p) <==> Within1mmOfPrintable(w, p)
  {
    if Within1mmOfPrintable(w, p) {
      var j :| 0 <= j < |Printable(w)| && Printable(w)[j].Within1mm(p);
      assert White(true, w)[j].Contains(p);
    }
    if Under(White(true, w), p) {
      WhiteIsWithin1mmOfPrintable(w, p);
    }
  }
}

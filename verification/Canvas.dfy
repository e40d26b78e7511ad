/**
  NotifyCanvas of app/precompiled.py: rectangles are given by two opposite corners in millimetres from the top
  left of the page, and are stored in PDF points from the bottom left.
 */
module Canvas {
  import opened AddressWindow

  const POINTS_PER_MM := 72.0 / 25.4
  const A4_HEIGHT_IN_PTS := A4_HEIGHT * POINTS_PER_MM

  function Min(a: real, b: real): real { if a <= b then a else b }

  function Max(a: real, b: real): real { if a <= b then b else a }

  /** A position on the page, in millimetres from the top left. */
  datatype Point = Point(x: real, y: real) {
    predicate OnPage() { 0.0 <= x <= A4_WIDTH && 0.0 <= y <= A4_HEIGHT }
  }

  /** Two opposite corners, in no particular order: an "inside out" pair still spans a rectangle. */
  datatype Box = Box(pt1: Point, pt2: Point) {
    predicate Contains(p: Point) {
      && Min(pt1.x, pt2.x) <= p.x <= Max(pt1.x, pt2.x)
      && Min(pt1.y, pt2.y) <= p.y <= Max(pt1.y, pt2.y)
    }

    predicate InteriorContains(p: Point) {
      && Min(pt1.x, pt2.x) < p.x < Max(pt1.x, pt2.x)
      && Min(pt1.y, pt2.y) < p.y < Max(pt1.y, pt2.y)
    }

    /** p is at most 1 mm from this rectangle, measured along each axis. */
    predicate Within1mm(p: Point) {
      && Min(pt1.x, pt2.x) - 1.0 <= p.x <= Max(pt1.x, pt2.x) + 1.0
      && Min(pt1.y, pt2.y) - 1.0 <= p.y <= Max(pt1.y, pt2.y) + 1.0
    }
  }

  function BoxAt(x1: real, y1: real, x2: real, y2: real): Box {
    Box(Point(x1, y1), Point(x2, y2))
  }

  predicate Under(boxes: seq<Box>, p: Point) {
    exists i :: 0 <= i < |boxes| && boxes[i].Contains(p)
  }

  /** A filled rectangle as the PDF page holds it: lower left corner and size, in points. */
  datatype PdfRect = PdfRect(x: real, y: real, width: real, height: real) {
    /** Whether its fill covers the page position p. A point is 1/72 of an inch, and y counts from the lower edge. */
    predicate Covers(p: Point) {
      && x <= p.x * (72.0 / 25.4) <= x + width
      && y <= (297.0 - p.y) * (72.0 / 25.4) <= y + height
    }
  }

  /** The drawing in packet covers exactly what boxes says, rectangle by rectangle and in the same order. */
  ghost predicate Draws(packet: seq<PdfRect>, boxes: seq<Box>) {
    && |packet| == |boxes|
    && forall i, p: Point :: 0 <= i < |packet| ==> (packet[i].Covers(p) <==> boxes[i].Contains(p))
  }

  class NotifyCanvas {
    var packet: seq<PdfRect>

    constructor ()
      ensures packet == []
    {
      packet := [];
    }

    /** Whatever the order of the corners, the fill covers exactly the positions between them. */
    method Rect(pt1: Point, pt2: Point)
      modifies this
      ensures |packet| == |old(packet)| + 1 && packet[..|old(packet)|] == old(packet)
      ensures packet[|old(packet)|].width >= 0.0 && packet[|old(packet)|].height >= 0.0
      ensures forall p: Point :: packet[|old(packet)|].Covers(p) <==> Box(pt1, pt2).Contains(p)
      ensures forall boxes :: Draws(old(packet), boxes) ==> Draws(packet, boxes + [Box(pt1, pt2)])
    {
      var leftX := Min(pt1.x, pt2.x) * POINTS_PER_MM;
      var rightX := Max(pt1.x, pt2.x) * POINTS_PER_MM;
      var topY := Min(pt1.y, pt2.y) * POINTS_PER_MM;
      var bottomY := Max(pt1.y, pt2.y) * POINTS_PER_MM;
      var bottomYFromBottom := A4_HEIGHT_IN_PTS - bottomY;
      var width := rightX - leftX;
      var height := bottomY - topY;
      packet := packet + [PdfRect(leftX, bottomYFromBottom, width, height)];
    }
  }
}

/**
  The address window of app/address_window_nl.py: where the recipient's address goes on the first page,
  and how such a window is read from what a caller sent.
  All lengths are millimetres from the top left corner of the page.
 */
module AddressWindow {
  import opened Options

  const A4_WIDTH := 210.0
  const A4_HEIGHT := 297.0

  datatype Area = Area(x: real, y: real, width: real, height: real) {
    function Right(): real { x + width }

    function Bottom(): real { y + height }

    predicate Contains(other: Area) {
      x <= other.x && y <= other.y && other.Right() <= Right() && other.Bottom() <= Bottom()
    }

    /** A rectangle of positive size that lies on the page. */
    predicate OnPage() {
      0.0 <= x && 0.0 <= y && 0.0 < width && 0.0 < height && Right() <= A4_WIDTH && Bottom() <= A4_HEIGHT
    }
  }

  datatype Window = Window(id: string, addressPlacement: string, addressArea: Area, postageArea: Option<Area>) {
    /** What every window that the parser built from a caller's value satisfies. */
    predicate WellFormed() {
      && addressArea.OnPage()
      && (postageArea.Some? ==> postageArea.value.OnPage() && postageArea.value.Contains(addressArea))
    }
  }

  // ---------- Numbers as Python's float: exact where finite, with the three values JSON lets in ----------

  datatype Float = Finite(r: real) | PlusInfinity | MinusInfinity | NaN

  function Plus(a: Float, b: Float): Float {
    if a.NaN? || b.NaN? then NaN
    else if a.Finite? && b.Finite? then Finite(a.r + b.r)
    else if a.Finite? then b
    else if b.Finite? then a
    else if a == b then a
    else NaN
  }

  /** a < b. Any comparison with NaN is false. */
  predicate Less(a: Float, b: Float) {
    match (a, b)
    case (Finite(p), Finite(q)) => p < q
    case (MinusInfinity, Finite(_)) => true
    case (MinusInfinity, PlusInfinity) => true
    case (Finite(_), PlusInfinity) => true
    case _ => false
  }

  predicate AtMost(a: Float, b: Float) {
    Less(a, b) || (a == b && !a.NaN?)
  }

  datatype RawArea = RawArea(x: Float, y: Float, width: Float, height: Float) {
    predicate AllFinite() { x.Finite? && y.Finite? && width.Finite? && height.Finite? }

    predicate HasNaN() { x.NaN? || y.NaN? || width.NaN? || height.NaN? }

    /** The two comparison guards that follow the finiteness check. */
    predicate ComparisonsReject() {
      || Less(x, Finite(0.0)) || Less(y, Finite(0.0)) || AtMost(width, Finite(0.0)) || AtMost(height, Finite(0.0))
      || Less(Finite(A4_WIDTH), Plus(x, width)) || Less(Finite(A4_HEIGHT), Plus(y, height))
    }
  }

  // ---------- What a caller may send ----------

  datatype Json =
    | Null
    | Bool(b: bool)
    | Number(f: Float)
    | Integer(n: int)
    | Text(s: string)
    | Array(items: seq<Json>)
    | Object(fields: map<string, Json>)
  {
    /** Python's truth value. */
    predicate Truthy() {
      match this
      case Null => false
      case Bool(b) => b
      case Number(f) => f != Finite(0.0)
      case Integer(n) => n != 0
      case Text(s) => s != ""
      case Array(items) => items != []
      case Object(fields) => fields != map[]
    }
  }

  datatype Input = Nothing | Built(window: Window) | JsonText(text: string) | Value(json: Json)

  /** Crashed is an exception that the parser does not turn into InvalidRequest. */
  datatype ParseResult = Parsed(window: Option<Window>) | InvalidRequest | Crashed

  /** What reading a value gives: the value, an AttributeError, KeyError, TypeError or ValueError, or some other
      exception. */
  datatype Reading<+T> = Got(value: T) | Refused | Escapes {
    predicate IsFailure() { !Got? }

    function PropagateFailure<U>(): Reading<U>
      requires IsFailure()
    {
      if Refused? then Reading.Refused else Reading.Escapes
    }

    function Extract(): T
      requires Got?
    {
      value
    }
  }

  /** The parts of Python that the parser calls: json.loads, str and float applied to text, and whether float() of an
      integer raises OverflowError, which is not a ValueError. */
  datatype Python = Python(loads: string -> Reading<Json>, show: Json -> string, readFloat: string -> Option<Float>,
                           overflows: int -> bool)

  /** float(value[key]) */
  function FloatAt(py: Python, value: Json, key: string): Reading<Float> {
    if !value.Object? || key !in value.fields then Refused
    else
      match value.fields[key]
      case Number(f) => Got(f)
      case Integer(n) => if py.overflows(n) then Escapes else Got(Finite(n as real))
      case Bool(b) => Got(Finite(if b then 1.0 else 0.0))
      case Text(s) => var f := py.readFloat(s); if f.Some? then Got(f.value) else Refused
      case _ => Refused
  }

  function ReadRawArea(py: Python, value: Json): Reading<RawArea> {
    var x :- FloatAt(py, value, "x");
    var y :- FloatAt(py, value, "y");
    var width :- FloatAt(py, value, "width");
    var height :- FloatAt(py, value, "height");
    Got(RawArea(x, y, width, height))
  }

  /** The checks of _area on the four numbers. */
  function CheckArea(raw: RawArea): (r: Option<Area>)
    ensures r.Some? ==> r.value.OnPage()
  {
    if !raw.AllFinite() then None
    else if raw.ComparisonsReject() then None
    else Some(Area(raw.x.r, raw.y.r, raw.width.r, raw.height.r))
  }

  function ReadArea(py: Python, value: Json): Reading<Area> {
    var raw :- ReadRawArea(py, value);
    var area := CheckArea(raw);
    if area.Some? then Got(area.value) else Refused
  }

  function ReadWindow(py: Python, value: Json): Reading<Window> {
    if !value.Object? || "id" !in value.fields || "address_placement" !in value.fields
       || "address_area" !in value.fields
    then Refused
    else
      var address :- ReadArea(py, value.fields["address_area"]);
      var id, placement := py.show(value.fields["id"]), py.show(value.fields["address_placement"]);
      if "postage_area" in value.fields && value.fields["postage_area"].Truthy() then
        var postage :- ReadArea(py, value.fields["postage_area"]);
        Got(Window(id, placement, address, Some(postage)))
      else
        Got(Window(id, placement, address, None))
  }

  function BuildWindow(py: Python, value: Json): ParseResult {
    match ReadWindow(py, value)
    case Got(w) =>
      if w.postageArea.Some? && !w.postageArea.value.Contains(w.addressArea) then InvalidRequest else Parsed(Some(w))
    case Refused => InvalidRequest
    case Escapes => Crashed
  }

  function Parse(py: Python, value: Input): ParseResult {
    match value
    case Nothing => Parsed(None)
    case Built(window) => Parsed(Some(window))
    case JsonText(text) =>
      if text == "" then Parsed(None)
      else
        (match py.loads(text)
         case Got(json) => BuildWindow(py, json)
         case Refused => InvalidRequest
         case Escapes => Crashed)
    case Value(json) => if !json.Truthy() then Parsed(None) else BuildWindow(py, json)
  }

  // ---------- Properties ----------

  /** Whatever a caller sends, a window that comes back is well formed; a window that was already built is
      the only thing taken on trust. */
  lemma ParsedWindowIsWellFormed(py: Python, value: Input)
    requires value.Built? ==> value.window.WellFormed()
    ensures var r := Parse(py, value); r.Parsed? && r.window.Some? ==> r.window.value.WellFormed()
  {
  }

  // ---------- What is accepted, value by value ----------

  /** The JSON value stands for the number: a float, an integer, true or false as 1 or 0, or text that float() reads. */
  predicate StandsFor(py: Python, json: Json, r: real) {
    || json == Number(Finite(r))
    || (json.Integer? && !py.overflows(json.n) && json.n as real == r)
    || (json.Bool? && r == if json.b then 1.0 else 0.0)
    || (json.Text? && py.readFloat(json.s) == Some(Finite(r)))
  }

  predicate StandsForArea(py: Python, json: Json, a: Area) {
    && json.Object?
    && "x" in json.fields && StandsFor(py, json.fields["x"], a.x)
    && "y" in json.fields && StandsFor(py, json.fields["y"], a.y)
    && "width" in json.fields && StandsFor(py, json.fields["width"], a.width)
    && "height" in json.fields && StandsFor(py, json.fields["height"], a.height)
  }

  predicate LiesOnA4(a: Area) {
    0.0 <= a.x && 0.0 <= a.y && 0.0 < a.width && 0.0 < a.height && a.x + a.width <= 210.0 && a.y + a.height <= 297.0
  }

  predicate IsEmptyValue(json: Json) {
    json in {Null, Bool(false), Number(Finite(0.0)), Integer(0), Text(""), Array([]), Object(map[])}
  }

  /** The JSON value describes the window. */
  predicate Describes(py: Python, json: Json, w: Window) {
    && json.Object? && "id" in json.fields && "address_placement" in json.fields && "address_area" in json.fields
    && w.id == py.show(json.fields["id"]) && w.addressPlacement == py.show(json.fields["address_placement"])
    && StandsForArea(py, json.fields["address_area"], w.addressArea) && LiesOnA4(w.addressArea)
    && match w.postageArea
       case None => "postage_area" in json.fields ==> IsEmptyValue(json.fields["postage_area"])
       case Some(postage) =>
         && "postage_area" in json.fields && !IsEmptyValue(json.fields["postage_area"])
         && StandsForArea(py, json.fields["postage_area"], postage) && LiesOnA4(postage)
         && postage.x <= w.addressArea.x && postage.y <= w.addressArea.y
         && w.addressArea.x + w.addressArea.width <= postage.x + postage.width
         && w.addressArea.y + w.addressArea.height <= postage.y + postage.height
  }

  lemma FloatAtIff(py: Python, value: Json, key: string, r: real)
    ensures FloatAt(py, value, key) == Got(Finite(r))
            <==> value.Object? && key in value.fields && StandsFor(py, value.fields[key], r)
  {
  }

  lemma ReadAreaIff(py: Python, value: Json, a: Area)
    ensures ReadArea(py, value) == Got(a) <==> StandsForArea(py, value, a) && LiesOnA4(a)
  {
    FloatAtIff(py, value, "x", a.x);
    FloatAtIff(py, value, "y", a.y);
    FloatAtIff(py, value, "width", a.width);
    FloatAtIff(py, value, "height", a.height);
  }

  lemma BuildWindowIff(py: Python, json: Json, w: Window)
    ensures BuildWindow(py, json) == Parsed(Some(w)) <==> Describes(py, json, w)
  {
    if json.Object? && "address_area" in json.fields {
      ReadAreaIff(py, json.fields["address_area"], w.addressArea);
    }
    if json.Object? && "postage_area" in json.fields {
      var given := json.fields["postage_area"];
      assert given.Truthy() <==> !IsEmptyValue(given);
      if w.postageArea.Some? {
        ReadAreaIff(py, given, w.postageArea.value);
      }
    }
  }

  /** For every input and every window: the parser gives that window if and only if the input describes it, as a value
      or as JSON text, or is that window already. It gives none if and only if the input is empty in Python's sense. */
  lemma ParseIff(py: Python, value: Input, w: Window)
    ensures Parse(py, value) == Parsed(Some(w)) <==>
              match value
              case Nothing => false
              case Built(window) => window == w
              case JsonText(text) => text != "" && py.loads(text).Got? && Describes(py, py.loads(text).value, w)
              case Value(json) => Describes(py, json, w)
    ensures Parse(py, value) == Parsed(None) <==>
              value == Nothing || value == JsonText("") || (value.Value? && IsEmptyValue(value.json))
  {
    match value
    case JsonText(text) =>
      if text != "" && py.loads(text).Got? {
        BuildWindowIff(py, py.loads(text).value, w);
      }
    case Value(json) =>
      assert json.Truthy() <==> !IsEmptyValue(json);
      BuildWindowIff(py, json, w);
    case _ =>
  }

  function EncodeArea(a: Area): Json {
    Object(map["x" := Number(Finite(a.x)), "y" := Number(Finite(a.y)),
               "width" := Number(Finite(a.width)), "height" := Number(Finite(a.height))])
  }

  function Encode(w: Window): Json {
    Object(map["id" := Text(w.id), "address_placement" := Text(w.addressPlacement),
               "address_area" := EncodeArea(w.addressArea),
               "postage_area" := if w.postageArea.Some? then EncodeArea(w.postageArea.value) else Null])
  }

  lemma EncodedAreaReads(py: Python, a: Area)
    ensures ReadArea(py, EncodeArea(a)) == if a.OnPage() then Got(a) else Refused
    ensures EncodeArea(a).Truthy()
  {
    var fields := EncodeArea(a).fields;
    assert "x" in fields && "y" in fields && "width" in fields && "height" in fields;
    assert ReadRawArea(py, EncodeArea(a)) == Got(RawArea(Finite(a.x), Finite(a.y), Finite(a.width), Finite(a.height)));
  }

  /** Round trip: a window sent as JSON comes back unchanged exactly when it is well formed, and is refused
      otherwise. */
  lemma ParseAcceptsExactlyWellFormedWindows(py: Python, w: Window)
    requires forall s: string :: py.show(Text(s)) == s
    ensures Parse(py, Value(Encode(w))) == if w.WellFormed() then Parsed(Some(w)) else InvalidRequest
  {
    var fields := Encode(w).fields;
    assert "id" in fields && "address_placement" in fields && "address_area" in fields && "postage_area" in fields;
    EncodedAreaReads(py, w.addressArea);
    if w.postageArea.Some? {
      EncodedAreaReads(py, w.postageArea.value);
    }
  }

  /** No comparison finds fault with a start and a size along one axis. */
  predicate SlipsThrough(start: Float, size: Float, limit: real) {
    if start.NaN? then size.NaN? || Less(Finite(0.0), size)
    else if size.NaN? then AtMost(Finite(0.0), start)
    else start.Finite? && size.Finite? && 0.0 <= start.r && 0.0 < size.r && start.r + size.r <= limit
  }

  lemma SlipsThroughIff(start: Float, size: Float, limit: real)
    ensures SlipsThrough(start, size, limit) <==>
              !Less(start, Finite(0.0)) && !AtMost(size, Finite(0.0)) && !Less(Finite(limit), Plus(start, size))
  {
  }

  /** The finiteness check refuses something that the comparisons would let through exactly when there is a NaN and no
      number beside it is out of range. So the comparisons refuse every area with an infinity and no NaN by
      themselves. */
  lemma FinitenessCheckMattersExactlyForNaN(raw: RawArea)
    ensures CheckArea(raw).None? && !raw.ComparisonsReject() <==>
              && raw.HasNaN()
              && SlipsThrough(raw.x, raw.width, A4_WIDTH) && SlipsThrough(raw.y, raw.height, A4_HEIGHT)
    ensures !raw.HasNaN() ==> (CheckArea(raw).Some? <==> !raw.ComparisonsReject())
  {
    SlipsThroughIff(raw.x, raw.width, A4_WIDTH);
    SlipsThroughIff(raw.y, raw.height, A4_HEIGHT);
  }

  const AREA_KEYS := ["x", "y", "width", "height"]

  /** An integer too large for a float stands at the key. */
  predicate OverflowsAt(py: Python, area: Json, key: string) {
    area.Object? && key in area.fields && area.fields[key].Integer? && py.overflows(area.fields[key].n)
  }

  /** Such an integer comes before anything else that is wrong with the numbers. */
  predicate OverflowsFirst(py: Python, area: Json) {
    exists i :: 0 <= i < |AREA_KEYS| && OverflowsAt(py, area, AREA_KEYS[i])
                && forall j :: 0 <= j < i ==> FloatAt(py, area, AREA_KEYS[j]).Got?
  }

  predicate HasAllKeys(value: Json) {
    value.Object? && "id" in value.fields && "address_placement" in value.fields && "address_area" in value.fields
  }

  predicate HasPostage(value: Json) {
    value.Object? && "postage_area" in value.fields && value.fields["postage_area"].Truthy()
  }

  /** The window is complete and such an integer comes first in its address area; or that is an area and it comes first
      in its postage area. */
  predicate CrashesOn(py: Python, value: Json) {
    && HasAllKeys(value)
    && (|| OverflowsFirst(py, value.fields["address_area"])
        || (ReadArea(py, value.fields["address_area"]).Got? && HasPostage(value)
            && OverflowsFirst(py, value.fields["postage_area"])))
  }

  lemma EscapesIff(py: Python, area: Json)
    ensures ReadArea(py, area).Escapes? <==> OverflowsFirst(py, area)
  {
    var keys := AREA_KEYS;
    assert keys[0] == "x" && keys[1] == "y" && keys[2] == "width" && keys[3] == "height";
    if ReadArea(py, area).Escapes? {
      var i := if FloatAt(py, area, "x").Escapes? then 0 else if FloatAt(py, area, "y").Escapes? then 1
        else if FloatAt(py, area, "width").Escapes? then 2 else 3;
      assert OverflowsAt(py, area, keys[i]);
    }
  }

  /** For every input: the parser raises something other than InvalidRequest if and only if json.loads does, or an
      integer too large for a float is the first thing wrong with a complete window. */
  lemma CrashIff(py: Python, value: Input)
    ensures Parse(py, value).Crashed? <==>
              match value
              case Value(json) => CrashesOn(py, json)
              case JsonText(text) =>
                text != "" && (py.loads(text).Escapes? || (py.loads(text).Got? && CrashesOn(py, py.loads(text).value)))
              case _ => false
  {
    match value
    case Value(json) => BuildCrashesIff(py, json);
    case JsonText(text) =>
      if text != "" && py.loads(text).Got? {
        BuildCrashesIff(py, py.loads(text).value);
      }
    case _ =>
  }

  lemma BuildCrashesIff(py: Python, json: Json)
    ensures BuildWindow(py, json).Crashed? <==> CrashesOn(py, json)
  {
    if HasAllKeys(json) {
      EscapesIff(py, json.fields["address_area"]);
      if HasPostage(json) {
        EscapesIff(py, json.fields["postage_area"]);
      }
    }
  }

  /** In place of the left edge of any window, for example, an integer makes the parser crash if and only if it
      overflows. */
  lemma OversizedIntegerCrashes(py: Python, w: Window, n: int)
    ensures var area := Object(EncodeArea(w.addressArea).fields["x" := Integer(n)]);
            Parse(py, Value(Object(Encode(w).fields["address_area" := area]))).Crashed? <==> py.overflows(n)
  {
    var area := Object(EncodeArea(w.addressArea).fields["x" := Integer(n)]);
    var fields := Encode(w).fields["address_area" := area];
    assert area.fields["x"] == Integer(n) && "y" in area.fields && "width" in area.fields && "height" in area.fields;
    assert "id" in fields && "address_placement" in fields && fields["address_area"] == area;
    assert "postage_area" in fields;
    assert ReadArea(py, area).Escapes? <==> py.overflows(n);
    if w.postageArea.Some? {
      EncodedAreaReads(py, w.postageArea.value);
    }
  }
}

/**
  sanitise_file_contents of app/precompiled.py and what it calls: an ordered series of checks, then a series of
  conversions, over streams whose cursors the PDF libraries leave anywhere. The libraries are functions of whole
  documents; each may raise.
 */
module Sanitise {
  import opened Options
  import opened AddressWindow
  import opened Canvas
  import opened Overlays
  import opened Verdicts

  type Bytes = seq<int>

  // ---------- Exceptions ----------

  datatype Error =
    | ValidationError(message: string, invalidPages: Option<seq<nat>>, pageCount: Option<nat>)
    | PdfReadError
    | OtherError

  datatype Outcome<+T> = Returns(value: T) | Raises(error: Error) {
    predicate IsFailure() { Raises? }

    function PropagateFailure<U>(): Outcome<U>
      requires Raises?
    {
      Raises(error)
    }

    function Extract(): T
      requires Returns?
    {
      value
    }
  }

  // ---------- Addresses ----------

  /** What the address library finds out about an extracted text. Whether the last line is valid depends on whether
      international letters are allowed: the library answers that question for either case. */
  datatype Address = Address(isEmpty: bool, hasEnoughLines: bool, hasTooManyLines: bool, hasAlphanumeric: bool,
                             hasInvalidCountryForBfpo: bool, lastLineValidAtHome: bool, lastLineValidAnywhere: bool,
                             international: bool, hasInvalidCharacters: bool, noFixedAbode: bool, normalised: string) {
    predicate LastLineValid(allowInternational: bool) {
      if allowInternational then lastLineValidAnywhere else lastLineValidAtHome
    }

    predicate RightApartFromLastLine() {
      && !isEmpty && hasEnoughLines && !hasTooManyLines && hasAlphanumeric && !hasInvalidCountryForBfpo
      && !hasInvalidCharacters && !noFixedAbode
    }

    /** Nothing at all is wrong with the address. */
    predicate IsRight(allowInternational: bool) {
      RightApartFromLastLine() && LastLineValid(allowInternational)
    }
  }

  datatype AddressCode =
    | IsEmpty | NotEnoughLines | TooManyLines | InvalidLine1Or2 | CountryForBfpo | NotAPostcodeOrCountry
    | CantSendInternational | NotAPostcode | InvalidCharacter | NoFixedAbode

  function ErrorCode(a: Address, allowInternational: bool): (code: Option<AddressCode>)
    ensures code.None? <==> a.IsRight(allowInternational)
  {
    if a.isEmpty then Some(IsEmpty)
    else if !a.hasEnoughLines then Some(NotEnoughLines)
    else if a.hasTooManyLines then Some(TooManyLines)
    else if !a.hasAlphanumeric then Some(InvalidLine1Or2)
    else if a.hasInvalidCountryForBfpo then Some(CountryForBfpo)
    else if !a.LastLineValid(allowInternational) then
      Some(if allowInternational then NotAPostcodeOrCountry
           else if a.international then CantSendInternational
           else NotAPostcode)
    else if a.hasInvalidCharacters then Some(InvalidCharacter)
    else if a.noFixedAbode then Some(NoFixedAbode)
    else None
  }

  function Text(code: AddressCode): string {
    match code
    case IsEmpty => "address-is-empty"
    case NotEnoughLines => "not-enough-address-lines"
    case TooManyLines => "too-many-address-lines"
    case InvalidLine1Or2 => "invalid-address-line-1-or-2"
    case CountryForBfpo => "has-country-for-bfpo-address"
    case NotAPostcodeOrCountry => "not-a-real-uk-postcode-or-country"
    case CantSendInternational => "cant-send-international-letters"
    case NotAPostcode => "not-a-real-uk-postcode"
    case InvalidCharacter => "invalid-char-in-address"
    case NoFixedAbode => "no-fixed-abode-address"
  }

  predicate MayBeMisplaced(code: AddressCode) { code.IsEmpty? || code.NotEnoughLines? }

  function OtherPlacement(placement: string): string {
    if placement == "50mm" then "60mm" else "50mm"
  }

  /** Where else the address may sit. */
  function CandidateWindows(w: Window): seq<Window> {
    if w.postageArea.Some? then [StandardWindow("50mm"), StandardWindow("60mm")]
    else [StandardWindow(OtherPlacement(w.addressPlacement))]
  }

  /** The rectangle that text is taken from, in points: exact for a provider's window, 3 mm wider otherwise. */
  function AddressBox(w: Window): Box {
    var margin := if w.postageArea.Some? then 0.0 else 3.0;
    var a := w.addressArea;
    BoxAt((a.x - margin) * POINTS_PER_MM, (a.y - margin) * POINTS_PER_MM,
          (a.Right() + margin) * POINTS_PER_MM, (a.Bottom() + margin) * POINTS_PER_MM)
  }

  // ---------- The libraries ----------

  datatype Library = Library(
    pageCount: Bytes -> Outcome<nat>,
    notA4Portrait: Bytes -> Outcome<seq<nat>>,
    overlayWithWhite: (Bytes, bool, Window) -> Outcome<Bytes>,
    outOfBoundsPages: Bytes -> Outcome<seq<nat>>,
    pagesWithTag: (Bytes, bool) -> Outcome<seq<nat>>,
    metadata: Bytes -> Outcome<bool>,
    extractAddress: (Bytes, Box) -> Outcome<Address>,
    containsCmyk: Bytes -> Outcome<bool>,
    containsRgb: Bytes -> Outcome<bool>,
    convertToCmyk: Bytes -> Outcome<Bytes>,
    hasUnembeddedFonts: Bytes -> Outcome<bool>,
    embedFonts: Bytes -> Outcome<Bytes>,
    tagPresent: Bytes -> Outcome<bool>,
    addTag: Bytes -> Outcome<Bytes>,
    encroachingText: Bytes -> Outcome<Option<string>>)

  datatype Request = Request(python: Python, allowInternational: bool, isAnAttachment: bool, placement: string,
                             window: Input)

  datatype Details = Details(recipientAddress: Option<string>, pageCount: Option<nat>, message: Option<string>,
                             invalidPages: Option<seq<nat>>, file: Option<Bytes>)

  // ---------- The pipeline over whole documents, without cursors ----------

  function CheckPages(lib: Library, data: Bytes, isAnAttachment: bool, w: Window, count: nat): Outcome<bool> {
    var notA4 :- lib.notA4Portrait(data);
    if notA4 != [] then Raises(ValidationError("letter-not-a4-portrait-oriented", Some(notA4), Some(count))) else
    var white :- lib.overlayWithWhite(data, isAnAttachment, w);
    var outside :- lib.outOfBoundsPages(white);
    if outside != [] then Raises(ValidationError("content-outside-printable-area", Some(outside), Some(count))) else
    var tagged :- lib.pagesWithTag(white, isAnAttachment);
    if tagged != [] then Raises(ValidationError("notify-tag-found-in-content", Some(tagged), Some(count))) else
    Returns(true)
  }

  /** Whether some candidate window holds a fully valid address; the first exception ends the search. */
  function SomeValidElsewhere(lib: Library, data: Bytes, windows: seq<Window>, allowInternational: bool):
    Outcome<bool>
  {
    if windows == [] then Returns(false) else
    var other :- lib.extractAddress(data, AddressBox(windows[0]));
    if ErrorCode(other, allowInternational).None? then Returns(true)
    else SomeValidElsewhere(lib, data, windows[1..], allowInternational)
  }

  function CheckAddress(lib: Library, data: Bytes, allowInternational: bool, w: Window, count: nat): Outcome<string> {
    var address :- lib.extractAddress(data, AddressBox(w));
    var code := ErrorCode(address, allowInternational);
    if code.None? then Returns(address.normalised)
    else
      var elsewhere :- if MayBeMisplaced(code.value)
        then SomeValidElsewhere(lib, data, CandidateWindows(w), allowInternational) else Returns(false);
      Raises(ValidationError(if elsewhere then "address-placement-mismatch" else Text(code.value),
                             Some([1]), Some(count)))
  }

  function Normalise(lib: Library, data: Bytes): Outcome<Bytes> {
    var cmyk :- lib.containsCmyk(data);
    var rgb :- if cmyk then lib.containsRgb(data) else Returns(true);
    var converted :- if rgb then lib.convertToCmyk(data) else Returns(data);
    var unembedded :- lib.hasUnembeddedFonts(converted);
    if unembedded then lib.embedFonts(converted) else Returns(converted)
  }

  function AddTagIfAbsent(lib: Library, data: Bytes): Outcome<Bytes> {
    var present :- lib.tagPresent(data);
    if present then Returns(data) else lib.addTag(data)
  }

  /** The letter in its final colours, fonts and with its tag. */
  function Tagged(lib: Library, data: Bytes): Outcome<Bytes> {
    var normal :- Normalise(lib, data);
    AddTagIfAbsent(lib, normal)
  }

  /** The recipient's address and the letter with fonts, colours and tag in order. */
  function Rewrite(lib: Library, data: Bytes, allowInternational: bool, w: Window, count: nat):
    Outcome<(string, Bytes)>
  {
    var _ :- lib.metadata(data);
    var recipient :- CheckAddress(lib, data, allowInternational, w, count);
    var tagged :- Tagged(lib, data);
    Returns((recipient, tagged))
  }

  /** The recipient's address, if any, and the final document. */
  function Convert(lib: Library, data: Bytes, r: Request, w: Window, count: nat): Outcome<(Option<string>, Bytes)> {
    if r.isAnAttachment then
      var file :- Normalise(lib, data);
      Returns((None, file))
    else
      var letter :- Rewrite(lib, data, r.allowInternational, w, count);
      var _ :- lib.encroachingText(letter.1);
      Returns((Some(letter.0), letter.1))
  }

  function ParseWindow(r: Request): Outcome<Window> {
    match Parse(r.python, r.window)
    case Parsed(window) => Returns(WindowOrStandard(window, r.placement))
    case InvalidRequest => Raises(OtherError)
    case Crashed => Raises(OtherError)
  }

  function Pipeline(lib: Library, data: Bytes, r: Request): Outcome<Details> {
    var w :- ParseWindow(r);
    var count :- lib.pageCount(data);
    if count > LETTER_MAX_PAGE_COUNT then Raises(ValidationError("letter-too-long", None, Some(count))) else
    var _ :- CheckPages(lib, data, r.isAnAttachment, w, count);
    var result :- Convert(lib, data, r, w, count);
    Returns(Details(result.0, Some(count), None, None, Some(result.1)))
  }

  /** What the exception handlers make of an exception. */
  function Report(error: Error): Details {
    match error
    case ValidationError(message, pages, count) => Details(None, count, Some(message), pages, None)
    case PdfReadError => Details(None, None, Some("unable-to-read-the-file"), None, None)
    case OtherError => Details(None, None, Some("unable-to-read-the-file"), None, None)
  }

  function Sanitised(lib: Library, data: Bytes, r: Request): Details {
    match Pipeline(lib, data, r)
    case Returns(details) => details
    case Raises(error) => Report(error)
  }

  // ---------- The code, with cursors ----------

  class Stream {
    const data: Bytes
    var pos: nat

    constructor (data: Bytes)
      ensures this.data == data && pos == 0
    {
      this.data := data;
      pos := 0;
    }

    method SeekToStart()
      modifies this
      ensures pos == 0
    {
      pos := 0;
    }

    /** A library reads the stream and leaves the cursor anywhere. */
    method Disturb()
      modifies this
    {
      var anywhere: nat := *;
      pos := anywhere;
    }

    /** Everything from the cursor on. */
    method Read() returns (rest: Bytes)
      modifies this
      ensures old(pos) == 0 ==> rest == data
      ensures old(pos) > 0 ==> |rest| < |data| || rest == data == []
    {
      rest := if pos <= |data| then data[pos..] else [];
      pos := |data|;
    }
  }

  /** What r says about the stream that comes out: rewound, and holding what the specification says. */
  ghost predicate Rewound(r: Outcome<Stream>, expected: Outcome<Bytes>)
    reads if r.Returns? then {r.value} else {}
  {
    match r
    case Returns(stream) => stream.pos == 0 && expected == Returns(stream.data)
    case Raises(error) => expected == Raises(error)
  }

  /** A question about a document that is answered with the cursor put back to the start. */
  method AskAndRewind(answer: Bytes -> Outcome<bool>, s: Stream) returns (r: Outcome<bool>)
    modifies s
    ensures r == answer(s.data) && (r.Returns? ==> s.pos == 0)
  {
    s.Disturb();
    r := answer(s.data);
    if r.Returns? {
      s.SeekToStart();
    }
  }

  /** Ghostscript gets whatever lies after the cursor. */
  method PipeThrough(convert: Bytes -> Outcome<Bytes>, s: Stream) returns (r: Outcome<Stream>)
    requires s.pos == 0
    modifies s
    ensures Rewound(r, convert(s.data)) && (r.Returns? ==> fresh(r.value))
  {
    var input := s.Read();
    var output := convert(input);
    match output
    case Returns(data) =>
      var stream := new Stream(data);
      r := Returns(stream);
    case Raises(error) => r := Raises(error);
  }

  method NormaliseFontsAndColours(lib: Library, s: Stream) returns (r: Outcome<Stream>)
    modifies s
    ensures Rewound(r, Normalise(lib, s.data)) && (r.Returns? ==> r.value == s || fresh(r.value))
  {
    var fileData := s;
    var cmyk :- AskAndRewind(lib.containsCmyk, fileData);
    if !cmyk {
      fileData :- PipeThrough(lib.convertToCmyk, fileData);
    } else {
      var rgb :- AskAndRewind(lib.containsRgb, fileData);
      if rgb {
        fileData :- PipeThrough(lib.convertToCmyk, fileData);
      }
    }
    var unembedded :- AskAndRewind(lib.hasUnembeddedFonts, fileData);
    if unembedded {
      fileData :- PipeThrough(lib.embedFonts, fileData);
    }
    r := Returns(fileData);
  }

  method GetInvalidPagesWithMessage(lib: Library, s: Stream, isAnAttachment: bool, w: Window)
    returns (r: Outcome<(string, seq<nat>)>)
    modifies s
    ensures forall count :: CheckPages(lib, s.data, isAnAttachment, w, count) ==
              match r
              case Returns(found) =>
                if found.1 == [] then Returns(true)
                else Raises(ValidationError(found.0, Some(found.1), Some(count)))
              case Raises(error) => Raises(error)
    ensures r.Returns? ==> (r.value.0 == "" <==> r.value.1 == [])
  {
    s.Disturb();
    var notA4 :- lib.notA4Portrait(s.data);
    if notA4 != [] {
      return Returns(("letter-not-a4-portrait-oriented", notA4));
    }
    s.Disturb();
    var white :- lib.overlayWithWhite(s.data, isAnAttachment, w);
    var overlaid := new Stream(white);
    s.SeekToStart();
    var pixels := overlaid.Read();
    overlaid.SeekToStart();
    var outside :- lib.outOfBoundsPages(pixels);
    if outside != [] {
      return Returns(("content-outside-printable-area", outside));
    }
    overlaid.Disturb();
    var tagged :- lib.pagesWithTag(overlaid.data, isAnAttachment);
    overlaid.SeekToStart();
    if tagged != [] {
      return Returns(("notify-tag-found-in-content", tagged));
    }
    r := Returns(("", []));
  }

  method ExtractAddressBlock(lib: Library, s: Stream, w: Window) returns (r: Outcome<Address>)
    modifies s
    ensures r == lib.extractAddress(s.data, AddressBox(w)) && (r.Returns? ==> s.pos == 0)
  {
    s.SeekToStart();
    s.Disturb();
    r := lib.extractAddress(s.data, AddressBox(w));
    if r.Returns? {
      s.SeekToStart();
    }
  }

  method RewriteAddressBlock(lib: Library, s: Stream, allowInternational: bool, w: Window, count: nat)
    returns (r: Outcome<string>)
    modifies s
    ensures r == CheckAddress(lib, s.data, allowInternational, w, count) && (r.Returns? ==> s.pos == 0)
  {
    var address :- ExtractAddressBlock(lib, s, w);
    var code := ErrorCode(address, allowInternational);
    if code.Some? {
      if MayBeMisplaced(code.value) {
        var windows := CandidateWindows(w);
        for i := 0 to |windows|
          invariant SomeValidElsewhere(lib, s.data, windows, allowInternational)
                    == SomeValidElsewhere(lib, s.data, windows[i..], allowInternational)
        {
          var other :- ExtractAddressBlock(lib, s, windows[i]);
          if ErrorCode(other, allowInternational).None? {
            return Raises(ValidationError("address-placement-mismatch", Some([1]), Some(count)));
          }
        }
      }
      return Raises(ValidationError(Text(code.value), Some([1]), Some(count)));
    }
    r := Returns(address.normalised);
  }

  method RewritePdf(lib: Library, s: Stream, allowInternational: bool, w: Window, count: nat)
    returns (r: Outcome<(string, Stream)>)
    modifies s
    ensures r.Returns? ==> r.value.1 == s || fresh(r.value.1)
    ensures Rewrite(lib, s.data, allowInternational, w, count) ==
            match r
            case Returns(letter) => Returns((letter.0, letter.1.data))
            case Raises(error) => Raises(error)
  {
    s.Disturb();
    var _ :- lib.metadata(s.data);
    var recipient :- RewriteAddressBlock(lib, s, allowInternational, w, count);
    var fileData :- NormaliseFontsAndColours(lib, s);
    var present :- AskAndRewind(lib.tagPresent, fileData);
    if !present {
      fileData.Disturb();
      var tagged :- lib.addTag(fileData.data);
      fileData := new Stream(tagged);
    }
    r := Returns((recipient, fileData));
  }

  method CheckNotifyTagAreaForEncroachment(lib: Library, s: Stream) returns (r: Outcome<Option<string>>)
    modifies s
    ensures r == lib.encroachingText(s.data) && (r.Returns? ==> s.pos == 0)
  {
    s.SeekToStart();
    s.Disturb();
    r := lib.encroachingText(s.data);
    if r.Returns? {
      s.SeekToStart();
    }
  }

  method SanitiseOrRaise(lib: Library, data: Bytes, r: Request) returns (result: Outcome<Details>)
    ensures result == Pipeline(lib, data, r)
  {
    var w :- ParseWindow(r);
    var fileData := new Stream(data);
    fileData.Disturb();
    var count :- lib.pageCount(fileData.data);
    if count > LETTER_MAX_PAGE_COUNT {
      return Raises(ValidationError("letter-too-long", None, Some(count)));
    }
    var found :- GetInvalidPagesWithMessage(lib, fileData, r.isAnAttachment, w);
    assert CheckPages(lib, data, r.isAnAttachment, w, count).Returns? <==> found.1 == [];
    if found.0 != "" {
      return Raises(ValidationError(found.0, Some(found.1), Some(count)));
    }
    var recipient: Option<string> := None;
    if r.isAnAttachment {
      fileData :- NormaliseFontsAndColours(lib, fileData);
    } else {
      var letter :- RewritePdf(lib, fileData, r.allowInternational, w, count);
      recipient, fileData := Some(letter.0), letter.1;
      var encroaching :- CheckNotifyTagAreaForEncroachment(lib, fileData);
    }
    var rawFile := fileData.Read();
    result := Returns(Details(recipient, Some(count), None, None, Some(rawFile)));
  }

  /** The code gives what the cursor-free pipeline gives, so the returned file is the whole final document wherever
      the libraries leave the cursors. */
  method SanitiseFileContents(lib: Library, data: Bytes, r: Request) returns (details: Details)
    ensures details == Sanitised(lib, data, r)
  {
    var result := SanitiseOrRaise(lib, data, r);
    match result
    case Returns(d) => details := d;
    case Raises(error) =>
      match error
      case ValidationError(message, pages, count) => details := Details(None, count, Some(message), pages, None);
      case _ => details := Details(None, None, Some("unable-to-read-the-file"), None, None);
  }

  // ---------- Properties ----------

  /** Sanitising always answers, and with exactly one of a message and a file; a file comes with a page count within
      the limit. */
  lemma EitherMessageOrFile(lib: Library, data: Bytes, r: Request)
    ensures var d := Sanitised(lib, data, r);
            && (d.message.Some? <==> d.file.None?)
            && (d.message.Some? ==> d.recipientAddress.None?)
            && (d.file.Some? ==> d.invalidPages.None? && d.pageCount.Some? && d.pageCount.value <= LETTER_MAX_PAGE_COUNT
                                 && (d.recipientAddress.Some? <==> !r.isAnAttachment))
  {
  }

  // ---------- Addresses in other windows ----------

  predicate ValidAt(lib: Library, data: Bytes, w: Window, allow: bool) {
    var address := lib.extractAddress(data, AddressBox(w));
    address.Returns? && address.value.IsRight(allow)
  }

  predicate InvalidAt(lib: Library, data: Bytes, w: Window, allow: bool) {
    var address := lib.extractAddress(data, AddressBox(w));
    address.Returns? && !address.value.IsRight(allow)
  }

  function CodeAt(lib: Library, data: Bytes, w: Window, allow: bool): AddressCode
    requires InvalidAt(lib, data, w, allow)
  {
    ErrorCode(lib.extractAddress(data, AddressBox(w)).value, allow).value
  }

  /** The first window that does not just hold an invalid address holds a valid one. */
  predicate FirstValidAt(lib: Library, data: Bytes, windows: seq<Window>, allow: bool, i: int) {
    && 0 <= i < |windows| && ValidAt(lib, data, windows[i], allow)
    && forall j :: 0 <= j < i ==> InvalidAt(lib, data, windows[j], allow)
  }

  ghost predicate SomeValidFirst(lib: Library, data: Bytes, windows: seq<Window>, allow: bool) {
    exists i :: FirstValidAt(lib, data, windows, allow, i)
  }

  predicate AllInvalid(lib: Library, data: Bytes, windows: seq<Window>, allow: bool) {
    forall j :: 0 <= j < |windows| ==> InvalidAt(lib, data, windows[j], allow)
  }

  lemma {:induction false} ElsewhereIff(lib: Library, data: Bytes, windows: seq<Window>, allow: bool)
    ensures SomeValidElsewhere(lib, data, windows, allow) == Returns(true) <==>
              SomeValidFirst(lib, data, windows, allow)
    ensures SomeValidElsewhere(lib, data, windows, allow) == Returns(false) <==> AllInvalid(lib, data, windows, allow)
  {
    if windows != [] {
      ElsewhereIff(lib, data, windows[1..], allow);
      if ValidAt(lib, data, windows[0], allow) {
        assert FirstValidAt(lib, data, windows, allow, 0);
      } else if SomeValidElsewhere(lib, data, windows, allow) == Returns(true) {
        var i :| FirstValidAt(lib, data, windows[1..], allow, i);
        assert forall j :: 1 <= j < i + 1 ==> windows[j] == windows[1..][j - 1];
        assert FirstValidAt(lib, data, windows, allow, i + 1);
      } else if i :| FirstValidAt(lib, data, windows, allow, i) {
        assert i > 0 && InvalidAt(lib, data, windows[0], allow);
        assert FirstValidAt(lib, data, windows[1..], allow, i - 1);
      }
      assert forall j :: 1 <= j < |windows| ==> windows[j] == windows[1..][j - 1];
      assert AllInvalid(lib, data, windows, allow) <==>
          InvalidAt(lib, data, windows[0], allow) && AllInvalid(lib, data, windows[1..], allow) by {
        if AllInvalid(lib, data, windows, allow) {
          assert forall j :: 0 <= j < |windows| - 1 ==> windows[1..][j] == windows[j + 1];
        }
      }
    }
  }

  lemma {:induction false} ElsewhereRaisesOnlyWhatExtractionRaises(lib: Library, data: Bytes, windows: seq<Window>,
                                                                   allow: bool)
    requires forall box :: lib.extractAddress(data, box).Raises? ==>
                             !lib.extractAddress(data, box).error.ValidationError?
    ensures var r := SomeValidElsewhere(lib, data, windows, allow); r.Raises? ==> !r.error.ValidationError?
  {
    if windows != [] {
      ElsewhereRaisesOnlyWhatExtractionRaises(lib, data, windows[1..], allow);
    }
  }

  // ---------- What each stage by itself says of a file ----------

  /** Everything that can be said about a file that is not accepted. */
  datatype Message =
    | LetterTooLong | NotA4Portrait | OutsidePrintableArea | TagInContent
    | BadAddress(code: AddressCode) | PlacementMismatch | Unreadable

  function Wording(m: Message): string {
    match m
    case LetterTooLong => "letter-too-long"
    case NotA4Portrait => "letter-not-a4-portrait-oriented"
    case OutsidePrintableArea => "content-outside-printable-area"
    case TagInContent => "notify-tag-found-in-content"
    case BadAddress(code) => Text(code)
    case PlacementMismatch => "address-placement-mismatch"
    case Unreadable => "unable-to-read-the-file"
  }

  datatype Stage =
    | Reading | Length | Orientation | PrintableArea | TagSearch
    | Metadata | AddressBlock | Conversion | Tagging | TagArea

  const PAGE_STAGES := [Reading, Length, Orientation, PrintableArea, TagSearch]

  function Stages(isAnAttachment: bool): seq<Stage> {
    if isAnAttachment then PAGE_STAGES + [Conversion]
    else PAGE_STAGES + [Metadata, AddressBlock, Conversion, Tagging, TagArea]
  }

  datatype Finding = Passes | Problem(message: Message, pages: Option<seq<nat>>)

  /** An exception that is not about the letter. */
  const BREAKS := Problem(Unreadable, None)

  function Did<T>(outcome: Outcome<T>): Finding { if outcome.Returns? then Passes else BREAKS }

  function Listed(outcome: Outcome<seq<nat>>, message: Message): Finding {
    if outcome.Raises? then BREAKS else if outcome.value == [] then Passes else Problem(message, Some(outcome.value))
  }

  function WindowOf(r: Request): Window {
    var w := ParseWindow(r); if w.Returns? then w.value else StandardWindow(r.placement)
  }

  /** The document with everything printable painted over. */
  function Overlaid(lib: Library, data: Bytes, r: Request): Outcome<Bytes> {
    lib.overlayWithWhite(data, r.isAnAttachment, WindowOf(r))
  }

  /** What is wrong with the address, judged by what the own window and the others hold. */
  ghost function AddressFinding(lib: Library, data: Bytes, w: Window, allow: bool): Finding {
    if ValidAt(lib, data, w, allow) then Passes
    else if !InvalidAt(lib, data, w, allow) then BREAKS
    else
      var code := CodeAt(lib, data, w, allow);
      if !MayBeMisplaced(code) || AllInvalid(lib, data, CandidateWindows(w), allow) then
        Problem(BadAddress(code), Some([1]))
      else if SomeValidFirst(lib, data, CandidateWindows(w), allow) then Problem(PlacementMismatch, Some([1]))
      else BREAKS
  }

  /** What one stage finds, whatever the stages before it have found. */
  ghost function FindingOf(lib: Library, data: Bytes, r: Request, stage: Stage): Finding {
    match stage
    case Reading => if ParseWindow(r).Raises? then BREAKS else Did(lib.pageCount(data))
    case Length =>
      if lib.pageCount(data).Returns? && lib.pageCount(data).value > LETTER_MAX_PAGE_COUNT
      then Problem(LetterTooLong, None) else Passes
    case Orientation => Listed(lib.notA4Portrait(data), NotA4Portrait)
    case PrintableArea =>
      var white := Overlaid(lib, data, r);
      if white.Raises? then BREAKS else Listed(lib.outOfBoundsPages(white.value), OutsidePrintableArea)
    case TagSearch =>
      var white := Overlaid(lib, data, r);
      if white.Raises? then BREAKS else Listed(lib.pagesWithTag(white.value, r.isAnAttachment), TagInContent)
    case Metadata => Did(lib.metadata(data))
    case AddressBlock => AddressFinding(lib, data, WindowOf(r), r.allowInternational)
    case Conversion => Did(Normalise(lib, data))
    case Tagging => Did(Tagged(lib, data))
    case TagArea =>
      var tagged := Tagged(lib, data);
      if tagged.Raises? then BREAKS else Did(lib.encroachingText(tagged.value))
  }

  /** The first n stages find nothing. */
  ghost predicate PassesUpTo(lib: Library, data: Bytes, r: Request, n: int)
    requires n <= |Stages(r.isAnAttachment)|
  {
    forall j :: 0 <= j < n ==> FindingOf(lib, data, r, Stages(r.isAnAttachment)[j]).Passes?
  }

  /** The i-th stage is the first to find something. */
  ghost predicate FirstProblemAt(lib: Library, data: Bytes, r: Request, i: int) {
    && 0 <= i < |Stages(r.isAnAttachment)| && PassesUpTo(lib, data, r, i)
    && FindingOf(lib, data, r, Stages(r.isAnAttachment)[i]).Problem?
  }

  predicate Unexpected<T>(outcome: Outcome<T>) { outcome.Raises? ==> !outcome.error.ValidationError? }

  /** Only the service's own checks raise validation errors. */
  ghost predicate NoValidationErrors(lib: Library) {
    && (forall d :: Unexpected(lib.pageCount(d)) && Unexpected(lib.notA4Portrait(d)))
    && (forall d, a, w :: Unexpected(lib.overlayWithWhite(d, a, w)))
    && (forall d :: Unexpected(lib.outOfBoundsPages(d)))
    && (forall d, a :: Unexpected(lib.pagesWithTag(d, a)))
    && (forall d :: Unexpected(lib.metadata(d)))
    && (forall d, box :: Unexpected(lib.extractAddress(d, box)))
    && (forall d :: Unexpected(lib.containsCmyk(d)) && Unexpected(lib.containsRgb(d)))
    && (forall d :: Unexpected(lib.convertToCmyk(d)) && Unexpected(lib.hasUnembeddedFonts(d)))
    && (forall d :: Unexpected(lib.embedFonts(d)) && Unexpected(lib.tagPresent(d)))
    && (forall d :: Unexpected(lib.addTag(d)) && Unexpected(lib.encroachingText(d)))
  }

  /** What is answered when a stage has found a problem. */
  function Reported(finding: Finding, lib: Library, data: Bytes): Details
    requires finding.Problem?
  {
    var count := lib.pageCount(data);
    Details(None, if finding.message.Unreadable? || count.Raises? then None else Some(count.value),
            Some(Wording(finding.message)), finding.pages, None)
  }

  /** An outcome in which a stage's finding has been acted on. */
  predicate ActsOn<T>(outcome: Outcome<T>, finding: Finding, count: nat) {
    match finding
    case Passes => outcome.Returns?
    case Problem(m, pages) =>
      && outcome.Raises?
      && (if m.Unreadable? then pages == None && !outcome.error.ValidationError?
          else outcome.error == ValidationError(Wording(m), pages, Some(count)))
  }

  lemma CheckAddressActsOnFinding(lib: Library, data: Bytes, allow: bool, w: Window, count: nat)
    requires forall box :: Unexpected(lib.extractAddress(data, box))
    ensures ActsOn(CheckAddress(lib, data, allow, w, count), AddressFinding(lib, data, w, allow), count)
  {
    ElsewhereIff(lib, data, CandidateWindows(w), allow);
    ElsewhereRaisesOnlyWhatExtractionRaises(lib, data, CandidateWindows(w), allow);
  }

  /** The first of two findings. */
  function Either(first: Finding, second: Finding): Finding { if first.Passes? then second else first }

  lemma CheckPagesActsOnFindings(lib: Library, data: Bytes, r: Request, count: nat)
    requires NoValidationErrors(lib)
    ensures ActsOn(CheckPages(lib, data, r.isAnAttachment, WindowOf(r), count),
                   Either(FindingOf(lib, data, r, Orientation),
                          Either(FindingOf(lib, data, r, PrintableArea), FindingOf(lib, data, r, TagSearch))), count)
  {
  }

  lemma PageStageDecides(lib: Library, data: Bytes, r: Request, i: int)
    requires NoValidationErrors(lib) && FirstProblemAt(lib, data, r, i) && i < 5
    ensures Sanitised(lib, data, r) == Reported(FindingOf(lib, data, r, Stages(r.isAnAttachment)[i]), lib, data)
  {
    var stages := Stages(r.isAnAttachment);
    assert stages[0] == Reading && stages[1] == Length && stages[2] == Orientation && stages[3] == PrintableArea
        && stages[4] == TagSearch;
    if i < 2 {
      assert i > 0 ==> FindingOf(lib, data, r, stages[0]).Passes?;
    } else {
      assert FindingOf(lib, data, r, stages[0]).Passes? && FindingOf(lib, data, r, stages[1]).Passes?;
      assert i > 2 ==> FindingOf(lib, data, r, stages[2]).Passes?;
      assert i > 3 ==> FindingOf(lib, data, r, stages[3]).Passes?;
      CheckPagesActsOnFindings(lib, data, r, lib.pageCount(data).value);
    }
  }

  lemma PagesPassIff(lib: Library, data: Bytes, r: Request)
    ensures PassesUpTo(lib, data, r, 5) <==>
              && ParseWindow(r).Returns? && lib.pageCount(data).Returns?
              && lib.pageCount(data).value <= LETTER_MAX_PAGE_COUNT
              && CheckPages(lib, data, r.isAnAttachment, WindowOf(r), lib.pageCount(data).value).Returns?
  {
    var stages := Stages(r.isAnAttachment);
    assert stages[0] == Reading && stages[1] == Length && stages[2] == Orientation && stages[3] == PrintableArea
        && stages[4] == TagSearch;
    if PassesUpTo(lib, data, r, 5) {
      assert FindingOf(lib, data, r, stages[0]).Passes? && FindingOf(lib, data, r, stages[1]).Passes?;
      assert FindingOf(lib, data, r, stages[2]).Passes? && FindingOf(lib, data, r, stages[3]).Passes?;
      assert FindingOf(lib, data, r, stages[4]).Passes?;
    }
  }

  lemma LetterStages()
    ensures var stages := Stages(false);
            stages[5] == Metadata && stages[6] == AddressBlock && stages[7] == Conversion && stages[8] == Tagging
            && stages[9] == TagArea
  {
  }

  lemma RewriteActsOnFindings(lib: Library, data: Bytes, r: Request, count: nat)
    requires NoValidationErrors(lib)
    ensures ActsOn(Rewrite(lib, data, r.allowInternational, WindowOf(r), count),
                   Either(FindingOf(lib, data, r, Metadata),
                          Either(FindingOf(lib, data, r, AddressBlock), FindingOf(lib, data, r, Tagging))), count)
  {
    CheckAddressActsOnFinding(lib, data, r.allowInternational, WindowOf(r), count);
    ConversionsRaiseNoValidationErrors(lib, data);
  }

  lemma LetterStageDecides(lib: Library, data: Bytes, r: Request, i: int)
    requires NoValidationErrors(lib) && FirstProblemAt(lib, data, r, i) && 5 <= i && !r.isAnAttachment
    ensures Sanitised(lib, data, r) == Reported(FindingOf(lib, data, r, Stages(r.isAnAttachment)[i]), lib, data)
  {
    PagesPassIff(lib, data, r);
    LetterStages();
    var stages := Stages(r.isAnAttachment);
    assert i > 5 ==> FindingOf(lib, data, r, stages[5]).Passes?;
    assert i > 6 ==> FindingOf(lib, data, r, stages[6]).Passes?;
    assert i > 7 ==> FindingOf(lib, data, r, stages[7]).Passes?;
    assert i > 8 ==> FindingOf(lib, data, r, stages[8]).Passes?;
    RewriteActsOnFindings(lib, data, r, lib.pageCount(data).value);
  }

  lemma ConversionsRaiseNoValidationErrors(lib: Library, data: Bytes)
    requires NoValidationErrors(lib)
    ensures Unexpected(Normalise(lib, data)) && Unexpected(Tagged(lib, data))
  {
  }

  lemma AttachmentStageDecides(lib: Library, data: Bytes, r: Request, i: int)
    requires NoValidationErrors(lib) && FirstProblemAt(lib, data, r, i) && 5 <= i && r.isAnAttachment
    ensures Sanitised(lib, data, r) == Reported(FindingOf(lib, data, r, Stages(r.isAnAttachment)[i]), lib, data)
  {
    PagesPassIff(lib, data, r);
    assert Stages(r.isAnAttachment)[5] == Conversion;
    ConversionsRaiseNoValidationErrors(lib, data);
  }

  /** The first stage to find something settles the answer, message, pages and page count, whatever the later stages
      would say. */
  lemma FirstProblemDecides(lib: Library, data: Bytes, r: Request, i: int)
    requires NoValidationErrors(lib) && FirstProblemAt(lib, data, r, i)
    ensures Sanitised(lib, data, r) == Reported(FindingOf(lib, data, r, Stages(r.isAnAttachment)[i]), lib, data)
  {
    if i < 5 {
      PageStageDecides(lib, data, r, i);
    } else if r.isAnAttachment {
      AttachmentStageDecides(lib, data, r, i);
    } else {
      LetterStageDecides(lib, data, r, i);
    }
  }

  /** The first stage that finds something among the first n. */
  lemma {:induction false} SomeFirstProblem(lib: Library, data: Bytes, r: Request, n: int) returns (i: int)
    requires 0 <= n <= |Stages(r.isAnAttachment)| && !PassesUpTo(lib, data, r, n)
    ensures FirstProblemAt(lib, data, r, i)
  {
    if PassesUpTo(lib, data, r, n - 1) {
      i := n - 1;
    } else {
      i := SomeFirstProblem(lib, data, r, n - 1);
    }
  }

  lemma LetterStagesPassIff(lib: Library, data: Bytes, r: Request)
    requires !r.isAnAttachment
    ensures PassesUpTo(lib, data, r, |Stages(false)|) <==>
              && PassesUpTo(lib, data, r, 5) && lib.metadata(data).Returns?
              && ValidAt(lib, data, WindowOf(r), r.allowInternational)
              && Tagged(lib, data).Returns? && lib.encroachingText(Tagged(lib, data).value).Returns?
  {
    LetterStages();
    var stages := Stages(false);
    if PassesUpTo(lib, data, r, 10) {
      assert FindingOf(lib, data, r, stages[5]).Passes? && FindingOf(lib, data, r, stages[6]).Passes?;
      assert FindingOf(lib, data, r, stages[8]).Passes? && FindingOf(lib, data, r, stages[9]).Passes?;
    }
  }

  /** A file is returned if and only if every stage, asked by itself, finds nothing. It is then the converted
      document, and for a letter the tagged one, with the address found in the letter's own window. */
  lemma FileIffEveryStagePasses(lib: Library, data: Bytes, r: Request)
    ensures Sanitised(lib, data, r).file.Some? <==> PassesUpTo(lib, data, r, |Stages(r.isAnAttachment)|)
    ensures var d := Sanitised(lib, data, r);
            d.file.Some? ==>
              if r.isAnAttachment then
                Normalise(lib, data) == Returns(d.file.value) && d.recipientAddress == None
              else
                && Tagged(lib, data) == Returns(d.file.value) && ValidAt(lib, data, WindowOf(r), r.allowInternational)
                && d.recipientAddress == Some(lib.extractAddress(data, AddressBox(WindowOf(r))).value.normalised)
  {
    PagesPassIff(lib, data, r);
    if r.isAnAttachment {
      assert Stages(r.isAnAttachment)[5] == Conversion;
    } else {
      LetterStagesPassIff(lib, data, r);
    }
  }

  lemma WordingIsInjective(a: Message, b: Message)
    requires Wording(a) == Wording(b)
    ensures a == b
  {
    assert |Wording(a)| == |Wording(b)| && Wording(a)[5] == Wording(b)[5];
  }

  /** Every message is given if and only if the first stage to find anything finds that. */
  lemma MessageIff(lib: Library, data: Bytes, r: Request, m: Message)
    requires NoValidationErrors(lib)
    ensures Sanitised(lib, data, r).message == Some(Wording(m)) <==>
              exists i :: FirstProblemAt(lib, data, r, i)
                          && FindingOf(lib, data, r, Stages(r.isAnAttachment)[i]).message == m
  {
    if i :| FirstProblemAt(lib, data, r, i) {
      FirstProblemDecides(lib, data, r, i);
      var said := FindingOf(lib, data, r, Stages(r.isAnAttachment)[i]).message;
      if Wording(m) == Wording(said) {
        WordingIsInjective(m, said);
      }
      forall j | FirstProblemAt(lib, data, r, j)
        ensures j == i
      {
      }
    } else {
      var n := |Stages(r.isAnAttachment)|;
      if !PassesUpTo(lib, data, r, n) {
        var i := SomeFirstProblem(lib, data, r, n);
      }
      FileIffEveryStagePasses(lib, data, r);
      EitherMessageOrFile(lib, data, r);
    }
  }

  /** The one stage that gives a message about the letter. */
  function Speaker(m: Message): Stage
    requires !m.Unreadable?
  {
    match m
    case LetterTooLong => Length
    case NotA4Portrait => Orientation
    case OutsidePrintableArea => PrintableArea
    case TagInContent => TagSearch
    case _ => AddressBlock
  }

  lemma OnlyItsStageSays(lib: Library, data: Bytes, r: Request, stage: Stage)
    requires FindingOf(lib, data, r, stage).Problem? && !FindingOf(lib, data, r, stage).message.Unreadable?
    ensures stage == Speaker(FindingOf(lib, data, r, stage).message)
  {
  }

  lemma StagesAreDistinct(isAnAttachment: bool, i: nat, k: nat)
    requires i < |Stages(isAnAttachment)| && k < |Stages(isAnAttachment)|
    requires Stages(isAnAttachment)[i] == Stages(isAnAttachment)[k]
    ensures i == k
  {
  }

  /** A message about the letter is given if and only if all earlier stages find nothing and its stage gives it. */
  lemma SaidBy(lib: Library, data: Bytes, r: Request, m: Message, k: nat)
    requires NoValidationErrors(lib) && !m.Unreadable?
    requires k < |Stages(r.isAnAttachment)| && Stages(r.isAnAttachment)[k] == Speaker(m)
    ensures Sanitised(lib, data, r).message == Some(Wording(m)) <==>
              && PassesUpTo(lib, data, r, k) && FindingOf(lib, data, r, Speaker(m)).Problem?
              && FindingOf(lib, data, r, Speaker(m)).message == m
    ensures Sanitised(lib, data, r).message == Some(Wording(m)) ==>
              Sanitised(lib, data, r) == Reported(FindingOf(lib, data, r, Speaker(m)), lib, data)
  {
    MessageIff(lib, data, r, m);
    if PassesUpTo(lib, data, r, k) && FindingOf(lib, data, r, Speaker(m)).Problem? {
      assert FirstProblemAt(lib, data, r, k);
      FirstProblemDecides(lib, data, r, k);
    }
    if Sanitised(lib, data, r).message == Some(Wording(m)) {
      var i :| FirstProblemAt(lib, data, r, i) && FindingOf(lib, data, r, Stages(r.isAnAttachment)[i]).message == m;
      OnlyItsStageSays(lib, data, r, Stages(r.isAnAttachment)[i]);
      StagesAreDistinct(r.isAnAttachment, i, k);
    }
  }

  predicate Fits(lib: Library, data: Bytes, r: Request) {
    && ParseWindow(r).Returns? && lib.pageCount(data).Returns?
    && lib.pageCount(data).value <= LETTER_MAX_PAGE_COUNT
  }

  predicate UprightA4(lib: Library, data: Bytes, r: Request) {
    Fits(lib, data, r) && lib.notA4Portrait(data) == Returns([])
  }

  predicate InsidePrintableArea(lib: Library, data: Bytes, r: Request) {
    && UprightA4(lib, data, r) && Overlaid(lib, data, r).Returns?
    && lib.outOfBoundsPages(Overlaid(lib, data, r).value) == Returns([])
  }

  predicate Lists(answer: Outcome<seq<nat>>) { answer.Returns? && answer.value != [] }

  /** A letter is called too long exactly when it can be read and has too many pages. */
  lemma TooLongIff(lib: Library, data: Bytes, r: Request)
    requires NoValidationErrors(lib)
    ensures Sanitised(lib, data, r).message == Some("letter-too-long") <==>
              && ParseWindow(r).Returns? && lib.pageCount(data).Returns? && lib.pageCount(data).value > 10
  {
    PassesFirst(lib, data, r);
    PageMessageIff(lib, data, r, LetterTooLong, 1);
  }

  /** Pages are named as not portrait A4 exactly when all earlier checks pass and there are such pages. */
  lemma NotA4PortraitIff(lib: Library, data: Bytes, r: Request)
    requires NoValidationErrors(lib)
    ensures var d, pages := Sanitised(lib, data, r), lib.notA4Portrait(data);
            && (d.message == Some("letter-not-a4-portrait-oriented") <==> Fits(lib, data, r) && Lists(pages))
            && (d.message == Some("letter-not-a4-portrait-oriented") ==> d.invalidPages == Some(pages.value))
  {
    PassesFirst(lib, data, r);
    PageMessageIff(lib, data, r, NotA4Portrait, 2);
  }

  /** Pages are named as having content outside the printable area exactly when all earlier checks pass, the white
      overlay is drawn and pages still show colour. */
  lemma OutsidePrintableAreaIff(lib: Library, data: Bytes, r: Request)
    requires NoValidationErrors(lib)
    ensures var d, white := Sanitised(lib, data, r), Overlaid(lib, data, r);
            && (d.message == Some("content-outside-printable-area") <==>
                  UprightA4(lib, data, r) && white.Returns? && Lists(lib.outOfBoundsPages(white.value)))
            && (d.message == Some("content-outside-printable-area") ==>
                  d.invalidPages == Some(lib.outOfBoundsPages(white.value).value))
  {
    PassesFirst(lib, data, r);
    PageMessageIff(lib, data, r, OutsidePrintableArea, 3);
  }

  /** Pages are named as containing the tag exactly when all earlier checks pass and the overlaid pages contain it. */
  lemma TagInContentIff(lib: Library, data: Bytes, r: Request)
    requires NoValidationErrors(lib)
    ensures var d, white := Sanitised(lib, data, r), Overlaid(lib, data, r);
            && (d.message == Some("notify-tag-found-in-content") <==>
                  InsidePrintableArea(lib, data, r) && Lists(lib.pagesWithTag(white.value, r.isAnAttachment)))
            && (d.message == Some("notify-tag-found-in-content") ==>
                  d.invalidPages == Some(lib.pagesWithTag(white.value, r.isAnAttachment).value))
  {
    PassesFirst(lib, data, r);
    PageMessageIff(lib, data, r, TagInContent, 4);
  }

  lemma PageMessageIff(lib: Library, data: Bytes, r: Request, m: Message, k: nat)
    requires NoValidationErrors(lib) && !m.Unreadable? && 1 <= k <= 4 && PAGE_STAGES[k] == Speaker(m)
    ensures var d, finding := Sanitised(lib, data, r), FindingOf(lib, data, r, PAGE_STAGES[k]);
            && (d.message == Some(Wording(m)) <==>
                  PassesUpTo(lib, data, r, k) && finding.Problem? && finding.message == m)
            && (d.message == Some(Wording(m)) ==> finding.Problem? && d.invalidPages == finding.pages)
  {
    PageStages(r.isAnAttachment);
    SaidBy(lib, data, r, m, k);
  }

  lemma PageStages(isAnAttachment: bool)
    ensures var stages := Stages(isAnAttachment);
            stages[0] == Reading && stages[1] == Length && stages[2] == Orientation && stages[3] == PrintableArea
            && stages[4] == TagSearch
  {
  }

  lemma PassesFirst(lib: Library, data: Bytes, r: Request)
    ensures PassesUpTo(lib, data, r, 1) <==> ParseWindow(r).Returns? && lib.pageCount(data).Returns?
    ensures PassesUpTo(lib, data, r, 2) <==> Fits(lib, data, r)
    ensures PassesUpTo(lib, data, r, 3) <==> UprightA4(lib, data, r)
    ensures PassesUpTo(lib, data, r, 4) <==> InsidePrintableArea(lib, data, r)
  {
    PageStages(r.isAnAttachment);
    PassesOneMore(lib, data, r, 0);
    PassesOneMore(lib, data, r, 1);
    PassesOneMore(lib, data, r, 2);
    PassesOneMore(lib, data, r, 3);
  }

  lemma PassesOneMore(lib: Library, data: Bytes, r: Request, n: nat)
    requires n < |Stages(r.isAnAttachment)|
    ensures PassesUpTo(lib, data, r, n + 1) <==>
              PassesUpTo(lib, data, r, n) && FindingOf(lib, data, r, Stages(r.isAnAttachment)[n]).Passes?
  {
  }

  lemma AttachmentStages(i: int)
    requires 0 <= i < |Stages(true)|
    ensures Stages(true)[i] != AddressBlock
  {
  }

  lemma AttachmentsHaveNoAddressMessage(lib: Library, data: Bytes, r: Request, m: Message)
    requires NoValidationErrors(lib) && (m.BadAddress? || m.PlacementMismatch?) && r.isAnAttachment
    ensures Sanitised(lib, data, r).message != Some(Wording(m))
  {
    MessageIff(lib, data, r, m);
    forall i | FirstProblemAt(lib, data, r, i)
      ensures FindingOf(lib, data, r, Stages(true)[i]).message != m
    {
      AttachmentStages(i);
      var stage := Stages(true)[i];
      if !FindingOf(lib, data, r, stage).message.Unreadable? {
        OnlyItsStageSays(lib, data, r, stage);
      }
    }
  }

  lemma SaidByAddressBlock(lib: Library, data: Bytes, r: Request, m: Message)
    requires NoValidationErrors(lib) && (m.BadAddress? || m.PlacementMismatch?)
    ensures Sanitised(lib, data, r).message == Some(Wording(m)) <==>
              && !r.isAnAttachment && PassesUpTo(lib, data, r, 6)
              && AddressFinding(lib, data, WindowOf(r), r.allowInternational) == Problem(m, Some([1]))
    ensures Sanitised(lib, data, r).message == Some(Wording(m)) ==> Sanitised(lib, data, r).invalidPages == Some([1])
  {
    AddressFindingSays(lib, data, WindowOf(r), r.allowInternational, IsEmpty);
    if r.isAnAttachment {
      AttachmentsHaveNoAddressMessage(lib, data, r, m);
    } else {
      LetterStages();
      SaidBy(lib, data, r, m, 6);
    }
  }

  lemma AddressFindingSays(lib: Library, data: Bytes, w: Window, allow: bool, code: AddressCode)
    ensures AddressFinding(lib, data, w, allow) == Problem(BadAddress(code), Some([1])) <==>
              && InvalidAt(lib, data, w, allow) && CodeAt(lib, data, w, allow) == code
              && (MayBeMisplaced(code) ==> AllInvalid(lib, data, CandidateWindows(w), allow))
    ensures AddressFinding(lib, data, w, allow) == Problem(PlacementMismatch, Some([1])) <==>
              && InvalidAt(lib, data, w, allow) && MayBeMisplaced(CodeAt(lib, data, w, allow))
              && SomeValidFirst(lib, data, CandidateWindows(w), allow)
    ensures var finding := AddressFinding(lib, data, w, allow);
            finding.Problem? ==> finding.pages == if finding.message.Unreadable? then None else Some([1])
  {
    ElsewhereIff(lib, data, CandidateWindows(w), allow);
  }

  /** When each message about the address is given: exactly for a letter whose earlier stages pass, when its own window
      gives that error and, for an empty or too short address, every other window holds an invalid one too. The answer
      then names page 1. */
  lemma AddressMessageIff(lib: Library, data: Bytes, r: Request, code: AddressCode)
    requires NoValidationErrors(lib)
    ensures Sanitised(lib, data, r).message == Some(Text(code)) <==>
              && !r.isAnAttachment && PassesUpTo(lib, data, r, 6)
              && InvalidAt(lib, data, WindowOf(r), r.allowInternational)
              && CodeAt(lib, data, WindowOf(r), r.allowInternational) == code
              && (MayBeMisplaced(code) ==> AllInvalid(lib, data, CandidateWindows(WindowOf(r)), r.allowInternational))
    ensures Sanitised(lib, data, r).message == Some(Text(code)) ==> Sanitised(lib, data, r).invalidPages == Some([1])
  {
    assert Wording(BadAddress(code)) == Text(code);
    SaidByAddressBlock(lib, data, r, BadAddress(code));
    AddressFindingSays(lib, data, WindowOf(r), r.allowInternational, code);
  }

  /** What is the first thing wrong with an address, fault by fault in the order of the checks. */
  predicate HasFault(a: Address, allow: bool, code: AddressCode) {
    var proper := !a.isEmpty && a.hasEnoughLines && !a.hasTooManyLines;
    var soFar := proper && a.hasAlphanumeric && !a.hasInvalidCountryForBfpo;
    var lastLineValid := (allow && a.lastLineValidAnywhere) || (!allow && a.lastLineValidAtHome);
    match code
    case IsEmpty => a.isEmpty
    case NotEnoughLines => !a.isEmpty && !a.hasEnoughLines
    case TooManyLines => !a.isEmpty && a.hasEnoughLines && a.hasTooManyLines
    case InvalidLine1Or2 => proper && !a.hasAlphanumeric
    case CountryForBfpo => proper && a.hasAlphanumeric && a.hasInvalidCountryForBfpo
    case NotAPostcodeOrCountry => soFar && allow && !a.lastLineValidAnywhere
    case CantSendInternational => soFar && !allow && !a.lastLineValidAtHome && a.international
    case NotAPostcode => soFar && !allow && !a.lastLineValidAtHome && !a.international
    case InvalidCharacter => soFar && lastLineValid && a.hasInvalidCharacters
    case NoFixedAbode => soFar && lastLineValid && !a.hasInvalidCharacters && a.noFixedAbode
  }

  lemma CodeIff(a: Address, allow: bool, code: AddressCode)
    ensures ErrorCode(a, allow) == Some(code) <==> HasFault(a, allow, code)
  {
  }

  function OwnAddress(lib: Library, data: Bytes, r: Request): Outcome<Address> {
    lib.extractAddress(data, AddressBox(WindowOf(r)))
  }

  /** The file is a letter, all stages before the address find nothing, and text is extracted from its own window. */
  ghost predicate AddressIsJudged(lib: Library, data: Bytes, r: Request) {
    !r.isAnAttachment && PassesUpTo(lib, data, r, 6) && OwnAddress(lib, data, r).Returns?
  }

  ghost predicate NoneElsewhere(lib: Library, data: Bytes, r: Request) {
    AllInvalid(lib, data, CandidateWindows(WindowOf(r)), r.allowInternational)
  }

  lemma FaultMessageIff(lib: Library, data: Bytes, r: Request, code: AddressCode)
    requires NoValidationErrors(lib)
    ensures Sanitised(lib, data, r).message == Some(Text(code)) <==>
              && AddressIsJudged(lib, data, r)
              && HasFault(OwnAddress(lib, data, r).value, r.allowInternational, code)
              && (code.IsEmpty? || code.NotEnoughLines? ==> NoneElsewhere(lib, data, r))
  {
    AddressMessageIff(lib, data, r, code);
    if OwnAddress(lib, data, r).Returns? {
      CodeIff(OwnAddress(lib, data, r).value, r.allowInternational, code);
    }
  }

  /** The same with the message given by its wording and the fault by its facts. */
  lemma FaultIs(lib: Library, data: Bytes, r: Request, code: AddressCode, wording: string, fault: bool)
    requires NoValidationErrors(lib) && wording == Text(code)
    requires AddressIsJudged(lib, data, r) ==>
               fault == HasFault(OwnAddress(lib, data, r).value, r.allowInternational, code)
    ensures AddressIsJudged(lib, data, r) ==>
              (Sanitised(lib, data, r).message == Some(wording) <==>
                 fault && (code.IsEmpty? || code.NotEnoughLines? ==> NoneElsewhere(lib, data, r)))
    ensures !AddressIsJudged(lib, data, r) ==> Sanitised(lib, data, r).message != Some(wording)
  {
    FaultMessageIff(lib, data, r, code);
  }

  /** The messages about the lines of an address, by what the library finds out about the text in the letter's own
      window. The first two are given only if every other window holds an invalid address too. */
  lemma AddressLinesMessagesIff(lib: Library, data: Bytes, r: Request)
    requires NoValidationErrors(lib)
    ensures AddressIsJudged(lib, data, r) ==>
              var a, message := OwnAddress(lib, data, r).value, Sanitised(lib, data, r).message;
              && (message == Some("address-is-empty") <==>
                    a.isEmpty && NoneElsewhere(lib, data, r))
              && (message == Some("not-enough-address-lines") <==>
                    !a.isEmpty && !a.hasEnoughLines && NoneElsewhere(lib, data, r))
              && (message == Some("too-many-address-lines") <==>
                    !a.isEmpty && a.hasEnoughLines && a.hasTooManyLines)
    ensures !AddressIsJudged(lib, data, r) ==>
              var message := Sanitised(lib, data, r).message;
              && message != Some("address-is-empty")
              && message != Some("not-enough-address-lines")
              && message != Some("too-many-address-lines")
  {
    FaultMessageIff(lib, data, r, IsEmpty);
    FaultMessageIff(lib, data, r, NotEnoughLines);
    FaultMessageIff(lib, data, r, TooManyLines);
  }

  /** The messages about the last line, for an address with nothing wrong before it. */
  lemma AddressLastLineMessagesIff(lib: Library, data: Bytes, r: Request)
    requires NoValidationErrors(lib)
    ensures AddressIsJudged(lib, data, r) ==>
              var a, allow := OwnAddress(lib, data, r).value, r.allowInternational;
              var message := Sanitised(lib, data, r).message;
              var soFar := !a.isEmpty && a.hasEnoughLines && !a.hasTooManyLines && a.hasAlphanumeric
                           && !a.hasInvalidCountryForBfpo;
              && (message == Some("not-a-real-uk-postcode-or-country") <==>
                    soFar && allow && !a.lastLineValidAnywhere)
              && (message == Some("cant-send-international-letters") <==>
                    soFar && !allow && !a.lastLineValidAtHome && a.international)
              && (message == Some("not-a-real-uk-postcode") <==>
                    soFar && !allow && !a.lastLineValidAtHome && !a.international)
    ensures !AddressIsJudged(lib, data, r) ==>
              var message := Sanitised(lib, data, r).message;
              && message != Some("not-a-real-uk-postcode-or-country")
              && message != Some("cant-send-international-letters")
              && message != Some("not-a-real-uk-postcode")
  {
    FaultMessageIff(lib, data, r, NotAPostcodeOrCountry);
    FaultMessageIff(lib, data, r, CantSendInternational);
    FaultMessageIff(lib, data, r, NotAPostcode);
  }

  /** The messages about text without letters or digits and about a country in a BFPO address. */
  lemma AddressTextMessagesIff(lib: Library, data: Bytes, r: Request)
    requires NoValidationErrors(lib)
    ensures AddressIsJudged(lib, data, r) ==>
              var a, message := OwnAddress(lib, data, r).value, Sanitised(lib, data, r).message;
              var proper := !a.isEmpty && a.hasEnoughLines && !a.hasTooManyLines;
              && (message == Some("invalid-address-line-1-or-2") <==>
                    proper && !a.hasAlphanumeric)
              && (message == Some("has-country-for-bfpo-address") <==>
                    proper && a.hasAlphanumeric && a.hasInvalidCountryForBfpo)
    ensures !AddressIsJudged(lib, data, r) ==>
              var message := Sanitised(lib, data, r).message;
              && message != Some("invalid-address-line-1-or-2")
              && message != Some("has-country-for-bfpo-address")
  {
    FaultMessageIff(lib, data, r, InvalidLine1Or2);
    FaultMessageIff(lib, data, r, CountryForBfpo);
  }

  /** The messages about characters and places that an address may not have, when its lines are in order. */
  lemma AddressContentMessagesIff(lib: Library, data: Bytes, r: Request)
    requires NoValidationErrors(lib)
    ensures AddressIsJudged(lib, data, r) ==>
              var a, allow := OwnAddress(lib, data, r).value, r.allowInternational;
              var message := Sanitised(lib, data, r).message;
              var lastLineValid := (allow && a.lastLineValidAnywhere) || (!allow && a.lastLineValidAtHome);
              var soFar := !a.isEmpty && a.hasEnoughLines && !a.hasTooManyLines && a.hasAlphanumeric
                           && !a.hasInvalidCountryForBfpo && lastLineValid;
              && (message == Some("invalid-char-in-address") <==>
                    soFar && a.hasInvalidCharacters)
              && (message == Some("no-fixed-abode-address") <==>
                    soFar && !a.hasInvalidCharacters && a.noFixedAbode)
    ensures !AddressIsJudged(lib, data, r) ==>
              var message := Sanitised(lib, data, r).message;
              && message != Some("invalid-char-in-address")
              && message != Some("no-fixed-abode-address")
  {
    if AddressIsJudged(lib, data, r) {
      var a, allow := OwnAddress(lib, data, r).value, r.allowInternational;
      var soFar := !a.isEmpty && a.hasEnoughLines && !a.hasTooManyLines && a.hasAlphanumeric
                   && !a.hasInvalidCountryForBfpo
                   && ((allow && a.lastLineValidAnywhere) || (!allow && a.lastLineValidAtHome));
      FaultIs(lib, data, r, InvalidCharacter, "invalid-char-in-address", soFar && a.hasInvalidCharacters);
      FaultIs(lib, data, r, NoFixedAbode, "no-fixed-abode-address",
              soFar && !a.hasInvalidCharacters && a.noFixedAbode);
    } else {
      FaultIs(lib, data, r, InvalidCharacter, "invalid-char-in-address", false);
      FaultIs(lib, data, r, NoFixedAbode, "no-fixed-abode-address", false);
    }
  }

  /** When a placement mismatch is answered: exactly for a letter whose earlier stages pass, when its own window gives
      an empty or too short address and the first other window that does not just hold an invalid address holds a
      fully valid one. So an address that is wrong in any other way keeps its own message. */
  lemma MismatchMessageIff(lib: Library, data: Bytes, r: Request)
    requires NoValidationErrors(lib)
    ensures Sanitised(lib, data, r).message == Some("address-placement-mismatch") <==>
              && AddressIsJudged(lib, data, r)
              && (OwnAddress(lib, data, r).value.isEmpty || !OwnAddress(lib, data, r).value.hasEnoughLines)
              && SomeValidFirst(lib, data, CandidateWindows(WindowOf(r)), r.allowInternational)
    ensures Sanitised(lib, data, r).message == Some("address-placement-mismatch") ==>
              Sanitised(lib, data, r).invalidPages == Some([1])
  {
    SaidByAddressBlock(lib, data, r, PlacementMismatch);
    AddressFindingSays(lib, data, WindowOf(r), r.allowInternational, IsEmpty);
    if OwnAddress(lib, data, r).Returns? {
      CodeIff(OwnAddress(lib, data, r).value, r.allowInternational, IsEmpty);
      CodeIff(OwnAddress(lib, data, r).value, r.allowInternational, NotEnoughLines);
    }
  }

  // ---------- International letters ----------

  /** Allowing international letters changes whether a letter is accepted if and only if the address in its own window
      has nothing wrong with it apart from a last line on which the two settings differ, and every other stage
      passes. */
  lemma AllowingInternationalMattersIff(lib: Library, data: Bytes, r: Request)
    requires !r.isAnAttachment
    ensures Sanitised(lib, data, r.(allowInternational := true)).file.Some?
            != Sanitised(lib, data, r.(allowInternational := false)).file.Some? <==>
              var address := lib.extractAddress(data, AddressBox(WindowOf(r)));
              && PassesUpTo(lib, data, r, 6) && Tagged(lib, data).Returns?
              && lib.encroachingText(Tagged(lib, data).value).Returns?
              && address.Returns? && address.value.RightApartFromLastLine()
              && address.value.lastLineValidAnywhere != address.value.lastLineValidAtHome
  {
    LetterStages();
    PassesOneMore(lib, data, r, 5);
    forall allow: bool
      ensures PassesUpTo(lib, data, r.(allowInternational := allow), 5) == PassesUpTo(lib, data, r, 5)
      ensures Sanitised(lib, data, r.(allowInternational := allow)).file.Some?
              == PassesUpTo(lib, data, r.(allowInternational := allow), |Stages(false)|)
    {
      PagesPassIff(lib, data, r);
      PagesPassIff(lib, data, r.(allowInternational := allow));
      FileIffEveryStagePasses(lib, data, r.(allowInternational := allow));
    }
    LetterStagesPassIff(lib, data, r.(allowInternational := true));
    LetterStagesPassIff(lib, data, r.(allowInternational := false));
  }

  /** Text that encroaches on the tag never changes the answer: two libraries that differ only in the text they find
      there give the same result. */
  lemma EncroachmentNeverChangesTheVerdict(lib: Library, found: Bytes -> Outcome<Option<string>>, data: Bytes,
                                           r: Request)
    requires forall document :: lib.encroachingText(document).Returns? && found(document).Returns?
    ensures Sanitised(lib, data, r) == Sanitised(lib.(encroachingText := found), data, r)
  {
    if ParseWindow(r).Returns? && lib.pageCount(data).Returns? {
      SameConversion(lib, found, data, r, ParseWindow(r).value, lib.pageCount(data).value);
    }
  }

  lemma SameConversion(lib: Library, found: Bytes -> Outcome<Option<string>>, data: Bytes, r: Request, w: Window,
                       count: nat)
    requires forall document :: lib.encroachingText(document).Returns? && found(document).Returns?
    ensures Convert(lib, data, r, w, count) == Convert(lib.(encroachingText := found), data, r, w, count)
  {
    SameRewrite(lib, found, data, r.allowInternational, w, count);
    assert Normalise(lib, data) == Normalise(lib.(encroachingText := found), data);
  }

  lemma SameRewrite(lib: Library, found: Bytes -> Outcome<Option<string>>, data: Bytes, allow: bool, w: Window,
                    count: nat)
    ensures var other := lib.(encroachingText := found);
            Rewrite(lib, data, allow, w, count) == Rewrite(other, data, allow, w, count)
  {
    var other := lib.(encroachingText := found);
    SameAddressesElsewhere(lib, other, data, CandidateWindows(w), allow);
    assert CheckAddress(lib, data, allow, w, count) == CheckAddress(other, data, allow, w, count);
    assert Normalise(lib, data) == Normalise(other, data);
  }

  lemma {:induction false} SameAddressesElsewhere(lib: Library, other: Library, data: Bytes, windows: seq<Window>,
                                                  allow: bool)
    requires lib.extractAddress == other.extractAddress
    ensures SomeValidElsewhere(lib, data, windows, allow) == SomeValidElsewhere(other, data, windows, allow)
  {
    if windows != [] {
      SameAddressesElsewhere(lib, other, data, windows[1..], allow);
    }
  }

  /** But an exception in that check does: a letter that passes everything before is refused exactly when it
      raises. */
  lemma EncroachmentCheckRefusesExactlyWhenItRaises(lib: Library, data: Bytes, r: Request)
    requires !r.isAnAttachment && PassesUpTo(lib, data, r, |Stages(false)| - 1)
    ensures Tagged(lib, data).Returns?
    ensures Sanitised(lib, data, r).message.Some? <==> lib.encroachingText(Tagged(lib, data).value).Raises?
  {
    LetterStages();
    assert FindingOf(lib, data, r, Stages(false)[8]).Passes?;
    PassesOneMore(lib, data, r, 9);
    FileIffEveryStagePasses(lib, data, r);
    EitherMessageOrFile(lib, data, r);
  }

  /** What the conversions are for: Ghostscript's colour conversion leaves no RGB and its font embedding leaves no
      unembedded font, and neither embedding nor the tag brings RGB or unembedded fonts back. */
  ghost predicate ConversionsWork(lib: Library) {
    && (forall d :: lib.convertToCmyk(d).Returns? ==>
          lib.containsRgb(lib.convertToCmyk(d).value) == Returns(false))
    && (forall d :: lib.embedFonts(d).Returns? ==>
          lib.hasUnembeddedFonts(lib.embedFonts(d).value) == Returns(false)
          && lib.containsRgb(lib.embedFonts(d).value) == lib.containsRgb(d))
    && (forall d :: lib.addTag(d).Returns? ==>
          lib.tagPresent(lib.addTag(d).value) == Returns(true)
          && lib.hasUnembeddedFonts(lib.addTag(d).value) == lib.hasUnembeddedFonts(d)
          && lib.containsRgb(lib.addTag(d).value) == lib.containsRgb(d))
  }

  /** Then every file that is returned, on whichever path, has no RGB and no unembedded font, and a letter carries the
      tag. */
  lemma ReturnedFileIsReadyToPrint(lib: Library, data: Bytes, r: Request)
    requires ConversionsWork(lib) && Sanitised(lib, data, r).file.Some?
    ensures var file := Sanitised(lib, data, r).file.value;
            && lib.containsRgb(file) == Returns(false) && lib.hasUnembeddedFonts(file) == Returns(false)
            && (!r.isAnAttachment ==> lib.tagPresent(file) == Returns(true))
  {
    FileIffEveryStagePasses(lib, data, r);
    NormalisedIsPrintable(lib, data);
  }

  lemma NormalisedIsPrintable(lib: Library, data: Bytes)
    requires ConversionsWork(lib) && Normalise(lib, data).Returns?
    ensures lib.containsRgb(Normalise(lib, data).value) == Returns(false)
    ensures lib.hasUnembeddedFonts(Normalise(lib, data).value) == Returns(false)
  {
  }

  /** A placement mismatch is reported exactly when the letter's own window gives an empty or too short address and
      one elsewhere gives a fully valid one. So it never hides a valid address, and an address that is wrong in any
      other way keeps its own message. Text extraction itself raises no validation errors. */
  lemma MismatchIff(lib: Library, data: Bytes, allow: bool, w: Window, count: nat)
    requires forall box :: lib.extractAddress(data, box).Raises? ==>
                             !lib.extractAddress(data, box).error.ValidationError?
    ensures CheckAddress(lib, data, allow, w, count)
            == Raises(ValidationError("address-placement-mismatch", Some([1]), Some(count))) <==>
              && InvalidAt(lib, data, w, allow)
              && MayBeMisplaced(CodeAt(lib, data, w, allow))
              && SomeValidFirst(lib, data, CandidateWindows(w), allow)
  {
    ElsewhereIff(lib, data, CandidateWindows(w), allow);
    ElsewhereRaisesOnlyWhatExtractionRaises(lib, data, CandidateWindows(w), allow);
    if InvalidAt(lib, data, w, allow) {
      TextIsNotMismatch(CodeAt(lib, data, w, allow));
    }
  }

  lemma TextIsNotMismatch(code: AddressCode)
    ensures Text(code) != "address-placement-mismatch"
  {
    assert Text(code)[8] != "address-placement-mismatch"[8];
  }

  /** Text is taken from three millimetres around the address area, or from exactly the address area if the window has a
      postage area. */
  lemma SearchedAreaIff(w: Window, x: real, y: real)
    requires w.WellFormed()
    ensures AddressBox(w).Contains(Point(x * 72.0 / 25.4, y * 72.0 / 25.4)) <==>
              var margin := if w.postageArea.Some? then 0.0 else 3.0;
              && w.addressArea.x - margin <= x <= w.addressArea.x + w.addressArea.width + margin
              && w.addressArea.y - margin <= y <= w.addressArea.y + w.addressArea.height + margin
  {
  }

  /** A letter with a postage area is tried at 50 mm and then at 60 mm, any other at whichever of the two its placement
      is not, an unrecognised placement counting as 60 mm. */
  lemma CandidatesAre(w: Window)
    ensures var others, standard := CandidateWindows(w), (top: real) => Area(24.6, top, 95.4, 40.0);
            if w.postageArea.Some? then
              && |others| == 2 && others[0].postageArea.None? && others[1].postageArea.None?
              && others[0].addressArea == standard(50.0) && others[1].addressArea == standard(60.0)
            else
              && |others| == 1 && others[0].postageArea.None?
              && others[0].addressArea == standard(if w.addressPlacement == "50mm" then 60.0 else 50.0)
  {
    assert "60mm" != "50mm";
  }

  /** The window that all stages use is the caller's, and without one that of the placement, 60 mm unless it says
      50 mm. A request whose window cannot be read is answered as unreadable whatever the libraries say. */
  lemma WindowInUse(lib: Library, data: Bytes, r: Request)
    ensures match Parse(r.python, r.window)
            case Parsed(Some(w)) => WindowOf(r) == w
            case Parsed(None) =>
              && WindowOf(r).postageArea.None?
              && WindowOf(r).addressArea == Area(24.6, if r.placement == "50mm" then 50.0 else 60.0, 95.4, 40.0)
            case _ => Sanitised(lib, data, r) == Details(None, None, Some("unable-to-read-the-file"), None, None)
  {
  }

  /** A document comes out of normalising as it was exactly where that suffices: its colours are converted unless it has
      CMYK and no RGB, and its fonts are embedded only if some are not. */
  lemma NormaliseIff(lib: Library, data: Bytes, file: Bytes)
    ensures Normalise(lib, data) == Returns(file) <==>
              exists coloured :: ColouredAs(lib, data, coloured) && EmbeddedAs(lib, coloured, file)
  {
    if exists coloured :: ColouredAs(lib, data, coloured) && EmbeddedAs(lib, coloured, file) {
      var coloured :| ColouredAs(lib, data, coloured) && EmbeddedAs(lib, coloured, file);
    } else if Normalise(lib, data) == Returns(file) {
      var kept := lib.containsCmyk(data) == Returns(true) && lib.containsRgb(data) == Returns(false);
      var coloured := if kept then data else lib.convertToCmyk(data).value;
      assert ColouredAs(lib, data, coloured) && EmbeddedAs(lib, coloured, file);
    }
  }

  predicate ColouredAs(lib: Library, data: Bytes, coloured: Bytes) {
    || (lib.containsCmyk(data) == Returns(true) && lib.containsRgb(data) == Returns(false) && coloured == data)
    || (lib.containsCmyk(data) == Returns(true) && lib.containsRgb(data) == Returns(true)
        && lib.convertToCmyk(data) == Returns(coloured))
    || (lib.containsCmyk(data) == Returns(false) && lib.convertToCmyk(data) == Returns(coloured))
  }

  predicate EmbeddedAs(lib: Library, data: Bytes, file: Bytes) {
    || (lib.hasUnembeddedFonts(data) == Returns(false) && file == data)
    || (lib.hasUnembeddedFonts(data) == Returns(true) && lib.embedFonts(data) == Returns(file))
  }

  /** A letter gets the tag after that, and only if it has none. */
  lemma TaggedIff(lib: Library, data: Bytes, file: Bytes)
    ensures Tagged(lib, data) == Returns(file) <==>
              exists normal :: Normalise(lib, data) == Returns(normal)
                               && (|| (lib.tagPresent(normal) == Returns(true) && file == normal)
                                   || (lib.tagPresent(normal) == Returns(false) && lib.addTag(normal) == Returns(file)))
  {
  }

  /** For a letter without a window of its own, the window tried next is the other standard one, never the same one
      again, even when the placement is unrecognised. */
  lemma CandidateIsTheOtherStandardWindow(placement: string)
    ensures var own := StandardWindow(placement); var others := CandidateWindows(own);
            && |others| == 1 && others[0].addressArea != own.addressArea
            && {own.addressPlacement, others[0].addressPlacement} == {"50mm", "60mm"}
  {
    assert "50mm" != "60mm";
  }
}

/**
  The protocol behind create_pdf_for_templated_letter of app/celery/tasks.py, with app/templated.py and
  app/letter_attachments.py: a letter is rendered, its ad-hoc attachments are fetched from the scan bucket,
  sanitised and appended, the result is stored and announced, and only then are the raw attachments removed; or
  one attachment is refused, the refusal is announced, and the raw attachments are set aside.
 */
module TemplatedLetterProtocol {
  import opened Options
  import opened PdfStitching
  import opened Sequences
  import opened Storage
  import opened Verdicts
  import opened CallHistory

  /** The decoded task argument and what the environment answers: how templates render, what conversion to CMYK
      gives, what the attachment bucket holds, and which verdicts the sanitiser may reach on an attachment. A letter
      that is too long is stored under invalidName. */
  datatype Job = Job(letterFilename: string, invalidName: string, isTest: bool, welshThenEnglish: bool,
                     attachments: seq<string>, fixedAttachment: Option<seq<Page>>, render: (string, bool) -> seq<Page>,
                     cmyk: seq<Page> -> seq<Page>, admits: (File, Verdict) -> bool) {
    ghost predicate Valid() {
      && (forall document :: |cmyk(document)| == |document|)
      && invalidName !in attachments
    }
  }

  // ---------- The document ----------

  function Base(job: Job): seq<Page> {
    job.cmyk(if job.welshThenEnglish then job.render("welsh", true) + job.render("english", false)
             else job.render("english", true))
  }

  function Pieces(job: Job, adhoc: seq<seq<Page>>): seq<seq<Page>> {
    [Base(job)] + (if job.fixedAttachment.Some? then [job.fixedAttachment.value] else []) + adhoc
  }

  /** The pages of the finished letter. */
  function TemplatedPages(job: Job, adhoc: seq<seq<Page>>): seq<Page> {
    Flatten(Pieces(job, adhoc))
  }

  function FixedPages(job: Job): seq<Page> {
    if job.fixedAttachment.Some? then job.fixedAttachment.value else []
  }

  lemma PiecesInOrder(job: Job, adhoc: seq<seq<Page>>)
    ensures TemplatedPages(job, adhoc) == Base(job) + FixedPages(job) + Flatten(adhoc)
  {
    var pieces := Pieces(job, adhoc);
    if job.fixedAttachment.Some? {
      assert pieces[1..] == [job.fixedAttachment.value] + adhoc && pieces[1..][1..] == adhoc;
      assert Flatten(pieces[1..]) == job.fixedAttachment.value + Flatten(adhoc);
    } else {
      assert pieces[1..] == adhoc;
    }
    assert Flatten(pieces) == Base(job) + Flatten(pieces[1..]);
    assert Flatten(pieces[1..]) == FixedPages(job) + Flatten(adhoc);
  }

  /** Order and number of pages: Welsh and then English, or English alone, converted as one document; then the fixed
      attachment; then the ad-hoc attachments in the order of their keys. */
  lemma TemplatedPagesInOrder(job: Job, adhoc: seq<seq<Page>>)
    requires job.Valid()
    ensures TemplatedPages(job, adhoc) ==
              (if job.welshThenEnglish then job.cmyk(job.render("welsh", true) + job.render("english", false))
               else job.cmyk(job.render("english", true)))
              + (if job.fixedAttachment.Some? then job.fixedAttachment.value else [])
              + Flatten(adhoc)
    ensures |TemplatedPages(job, adhoc)| ==
              (if job.welshThenEnglish then |job.render("welsh", true)| + |job.render("english", false)|
               else |job.render("english", true)|)
              + (if job.fixedAttachment.Some? then |job.fixedAttachment.value| else 0) + TotalPages(adhoc)
  {
    PagesAreConserved(adhoc);
    PiecesInOrder(job, adhoc);
  }

  lemma AttachmentOccurs(job: Job, adhoc: seq<seq<Page>>, k: nat)
    requires k < |adhoc|
    ensures Occurs(adhoc[k], TemplatedPages(job, adhoc))
  {
    var pieces := Pieces(job, adhoc);
    var d := |pieces| - |adhoc| + k;
    assert pieces[d] == adhoc[k];
    PartOccurs(pieces, d);
  }

  // ---------- Steps ----------

  datatype Outcome = UpdateBillableUnits(pageCount: nat) | ValidationFailed(failedPageCount: Option<nat>)

  datatype Pc =
    | Downloading(done: seq<seq<Page>>)
    | FetchingFixed(adhoc: seq<seq<Page>>)
    | Storing(adhoc: seq<seq<Page>>)
    | Announcing(adhoc: seq<seq<Page>>)
    | Rejecting(outcome: Outcome)
    | Removing(next: nat)
    | Quarantining(next: nat, copied: bool)
    | Finished
    | Halted

  /** One delivery of the Celery task, with the messages that it has sent. */
  datatype Delivery = Delivery(pc: Pc, sent: seq<Outcome>)

  function AfterDownloads(job: Job, adhoc: seq<seq<Page>>): Pc {
    if job.fixedAttachment.Some? then FetchingFixed(adhoc) else Storing(adhoc)
  }

  function NextDownload(job: Job, done: seq<seq<Page>>): Pc {
    if |done| < |job.attachments| then Downloading(done) else AfterDownloads(job, done)
  }

  function Start(job: Job): Delivery { Delivery(NextDownload(job, []), []) }

  function AfterVerdict(job: Job, done: seq<seq<Page>>, v: Verdict): Pc {
    if v.Failed? then Rejecting(ValidationFailed(v.failedPageCount)) else NextDownload(job, done + [v.document])
  }

  function NextRemoval(job: Job, k: nat): Pc {
    if k < |job.attachments| then Removing(k) else Finished
  }

  function NextQuarantine(job: Job, k: nat): Pc {
    if k < |job.attachments| then Quarantining(k, false) else Finished
  }

  /** Where a letter of so many pages is stored, and under which name. */
  function Destination(job: Job, pageCount: nat): (Bucket, string) {
    if pageCount > LETTER_MAX_PAGE_COUNT then (Invalid, job.invalidName)
    else if job.isTest then (TestLetters, job.letterFilename)
    else (LettersPdf, job.letterFilename)
  }

  function OutcomeOf(pageCount: nat): Outcome {
    if pageCount > LETTER_MAX_PAGE_COUNT then ValidationFailed(Some(pageCount)) else UpdateBillableUnits(pageCount)
  }

  function PutLetter(job: Job, b: Buckets, pages: seq<Page>): Buckets {
    var (bucket, name) := Destination(job, |pages|);
    b.Put(bucket, name, Document(pages))
  }

  /** Going on from d to pc, or stopping there because the call failed although it took effect. */
  predicate GoesTo(d: Delivery, d': Delivery, pc: Pc) {
    d' == Delivery(pc, d.sent) || d' == Delivery(Halted, d.sent)
  }

  /** What a delivery that is about to send has to send, and where it goes on from there. */
  predicate Announces(job: Job, d: Delivery, next: Pc, outcome: Outcome) {
    match d.pc
    case Announcing(adhoc) => next == NextRemoval(job, 0) && outcome == OutcomeOf(|TemplatedPages(job, adhoc)|)
    case Rejecting(refusal) => next == NextQuarantine(job, 0) && outcome == refusal
    case _ => false
  }

  ghost predicate Step(job: Job, d: Delivery, b: Buckets, d': Delivery, b': Buckets) {
    || (!d.pc.Finished? && !d.pc.Halted? && d' == Delivery(Halted, d.sent) && b' == b)
    || match d.pc
       case Downloading(done) =>
         && |done| < |job.attachments| && job.attachments[|done|] in b.scan && b' == b
         && exists v :: && job.admits(b.scan[job.attachments[|done|]], v)
                        && d' == Delivery(AfterVerdict(job, done, v), d.sent)
       case FetchingFixed(adhoc) => b' == b && d' == Delivery(Storing(adhoc), d.sent)
       case Storing(adhoc) =>
         b' == PutLetter(job, b, TemplatedPages(job, adhoc)) && GoesTo(d, d', Announcing(adhoc))
       case Announcing(adhoc) =>
         && b' == b && d'.sent == d.sent + [OutcomeOf(|TemplatedPages(job, adhoc)|)]
         && (d'.pc == NextRemoval(job, 0) || d'.pc.Halted?)
       case Rejecting(outcome) =>
         && b' == b && d'.sent == d.sent + [outcome]
         && (d'.pc == NextQuarantine(job, 0) || d'.pc.Halted?)
       case Removing(k) =>
         && k < |job.attachments| && b' == b.DropFromScan(job.attachments[k])
         && GoesTo(d, d', NextRemoval(job, k + 1))
       case Quarantining(k, false) =>
         && k < |job.attachments| && job.attachments[k] in b.scan
         && b' == b.Put(Invalid, job.attachments[k], b.scan[job.attachments[k]])
         && GoesTo(d, d', Quarantining(k, true))
       case Quarantining(k, true) =>
         && k < |job.attachments| && b' == b.DropFromScan(job.attachments[k])
         && GoesTo(d, d', NextQuarantine(job, k + 1))
       case _ => false
  }

  /** The history of one delivery by itself. */
  ghost predicate IsChain(job: Job, run: seq<Config<Delivery>>) {
    forall t :: 0 <= t < |run| - 1 ==>
      Step(job, run[t].delivery, run[t].buckets, run[t + 1].delivery, run[t + 1].buckets)
  }

  datatype System = System(buckets: Buckets, deliveries: seq<Delivery>)

  ghost predicate DeliveryStep(job: Job, s: System, s': System, i: int) {
    && 0 <= i < |s.deliveries| == |s'.deliveries|
    && Step(job, s.deliveries[i], s.buckets, s'.deliveries[i], s'.buckets)
    && s'.deliveries == s.deliveries[i := s'.deliveries[i]]
  }

  ghost predicate SystemStep(job: Job, s: System, s': System) {
    || s' == System(s.buckets, s.deliveries + [Start(job)])
    || exists i :: DeliveryStep(job, s, s', i)
  }

  ghost predicate IsRun(job: Job, run: seq<System>) {
    && run != [] && run[0].deliveries == []
    && forall t :: 0 <= t < |run| - 1 ==> SystemStep(job, run[t], run[t + 1])
  }

  // ---------- What holds in every reachable state ----------

  ghost predicate AdmittedAttachment(job: Job, orig: Objects, k: nat, document: seq<Page>)
    requires k < |job.attachments|
  {
    && job.attachments[k] in orig
    && exists v :: job.admits(orig[job.attachments[k]], v) && v.Passed? && v.document == document
  }

  ghost predicate AdmittedAttachments(job: Job, orig: Objects, documents: seq<seq<Page>>) {
    |documents| <= |job.attachments|
    && forall k :: 0 <= k < |documents| ==> AdmittedAttachment(job, orig, k, documents[k])
  }

  /** A finished letter with a sanitised version of every attachment is stored. */
  ghost predicate LetterStoredWith(job: Job, orig: Objects, b: Buckets, adhoc: seq<seq<Page>>) {
    var pages := TemplatedPages(job, adhoc);
    && |adhoc| == |job.attachments| && AdmittedAttachments(job, orig, adhoc)
    && b.Holds(Destination(job, |pages|).0, Destination(job, |pages|).1, Document(pages))
  }

  ghost predicate LetterStored(job: Job, orig: Objects, b: Buckets) {
    exists adhoc :: LetterStoredWith(job, orig, b, adhoc)
  }

  ghost predicate SetAside(orig: Objects, b: Buckets, key: string) {
    key in orig && b.Holds(Invalid, key, orig[key])
  }

  ghost predicate FirstGone(job: Job, b: Buckets) {
    job.attachments != [] && job.attachments[0] !in b.scan
  }

  ghost predicate DeliveryInvariant(job: Job, orig: Objects, b: Buckets, d: Delivery) {
    match d.pc
    case Downloading(done) => d.sent == [] && |done| < |job.attachments| && AdmittedAttachments(job, orig, done)
    case FetchingFixed(adhoc) =>
      d.sent == [] && |adhoc| == |job.attachments| && AdmittedAttachments(job, orig, adhoc)
    case Storing(adhoc) => d.sent == [] && |adhoc| == |job.attachments| && AdmittedAttachments(job, orig, adhoc)
    case Announcing(adhoc) => d.sent == [] && LetterStored(job, orig, b)
    case Rejecting(_) => d.sent == []
    case Removing(k) => |d.sent| == 1 && LetterStored(job, orig, b) && (k > 0 ==> FirstGone(job, b))
    case Quarantining(k, copied) =>
      && |d.sent| == 1 && k < |job.attachments| && (k > 0 ==> FirstGone(job, b))
      && (copied ==> SetAside(orig, b, job.attachments[k]))
    case Finished => |d.sent| == 1
    case Halted => |d.sent| <= 1
  }

  ghost predicate Conserved(job: Job, orig: Objects, b: Buckets) {
    && (forall key :: key in b.scan ==> key in orig && b.scan[key] == orig[key])
    && (forall key :: key in orig && key !in b.scan ==>
          && key in job.attachments && FirstGone(job, b)
          && (SetAside(orig, b, key) || LetterStored(job, orig, b)))
  }

  ghost predicate SomebodySent(s: System) {
    exists i :: 0 <= i < |s.deliveries| && s.deliveries[i].sent != []
  }

  ghost predicate Invariant(job: Job, orig: Objects, s: System) {
    && Conserved(job, orig, s.buckets)
    && (forall i :: 0 <= i < |s.deliveries| ==> DeliveryInvariant(job, orig, s.buckets, s.deliveries[i]))
    && ((exists key :: key in orig && key !in s.buckets.scan) ==> SomebodySent(s))
  }

  ghost predicate Progress(job: Job, orig: Objects, b: Buckets, b': Buckets) {
    && (forall key :: key in b'.scan ==> key in b.scan)
    && (forall key :: key in job.attachments && SetAside(orig, b, key) ==> SetAside(orig, b', key))
    && (LetterStored(job, orig, b) ==> LetterStored(job, orig, b'))
  }

  lemma PutLetterKeeps(job: Job, b: Buckets, pages: seq<Page>)
    ensures var b' := PutLetter(job, b, pages);
            && b'.scan == b.scan
            && b'.Holds(Destination(job, |pages|).0, Destination(job, |pages|).1, Document(pages))
            && forall key :: key in b.invalid && key != job.invalidName ==> b'.Holds(Invalid, key, b.invalid[key])
  {
    var file := Document(pages);
    if |pages| > LETTER_MAX_PAGE_COUNT {
      assert PutLetter(job, b, pages) == b.Put(Invalid, job.invalidName, file);
    } else if job.isTest {
      assert PutLetter(job, b, pages) == b.Put(TestLetters, job.letterFilename, file);
    } else {
      assert PutLetter(job, b, pages) == b.Put(LettersPdf, job.letterFilename, file);
    }
  }

  lemma StoreEffect(job: Job, orig: Objects, b: Buckets, adhoc: seq<seq<Page>>)
    requires job.Valid() && Conserved(job, orig, b)
    requires |adhoc| == |job.attachments| && AdmittedAttachments(job, orig, adhoc)
    ensures var b' := PutLetter(job, b, TemplatedPages(job, adhoc));
            Progress(job, orig, b, b') && Conserved(job, orig, b') && LetterStored(job, orig, b') && b'.scan == b.scan
  {
    var pages := TemplatedPages(job, adhoc);
    PutLetterKeeps(job, b, pages);
    assert LetterStoredWith(job, orig, PutLetter(job, b, pages), adhoc);
    StoredKeepsAll(job, orig, b, PutLetter(job, b, pages));
  }

  lemma StoredKeepsAll(job: Job, orig: Objects, b: Buckets, b': Buckets)
    requires job.Valid() && Conserved(job, orig, b) && b'.scan == b.scan && LetterStored(job, orig, b')
    requires forall key :: key in b.invalid && key != job.invalidName ==> b'.Holds(Invalid, key, b.invalid[key])
    ensures Progress(job, orig, b, b') && Conserved(job, orig, b')
  {
  }

  lemma LetterStaysStored(job: Job, orig: Objects, b: Buckets, b': Buckets)
    requires job.Valid() && LetterStored(job, orig, b)
    requires b'.lettersPdf == b.lettersPdf && b'.testLetters == b.testLetters
    requires forall key :: key in b.invalid && key !in job.attachments ==> b'.Holds(Invalid, key, b.invalid[key])
    ensures LetterStored(job, orig, b')
  {
    var adhoc :| LetterStoredWith(job, orig, b, adhoc);
    assert LetterStoredWith(job, orig, b', adhoc);
  }

  lemma QuarantineEffect(job: Job, orig: Objects, b: Buckets, k: nat)
    requires job.Valid() && Conserved(job, orig, b) && k < |job.attachments| && job.attachments[k] in b.scan
    ensures var b' := b.Put(Invalid, job.attachments[k], b.scan[job.attachments[k]]);
            Progress(job, orig, b, b') && Conserved(job, orig, b') && SetAside(orig, b', job.attachments[k])
  {
    var b' := b.Put(Invalid, job.attachments[k], b.scan[job.attachments[k]]);
    if LetterStored(job, orig, b) {
      LetterStaysStored(job, orig, b, b');
    }
    assert forall key :: key in job.attachments && SetAside(orig, b, key) ==> SetAside(orig, b', key);
    assert b'.scan == b.scan;
  }

  lemma DeleteEffect(job: Job, orig: Objects, b: Buckets, k: nat)
    requires job.Valid() && Conserved(job, orig, b) && k < |job.attachments|
    requires LetterStored(job, orig, b) || SetAside(orig, b, job.attachments[k])
    requires k > 0 ==> FirstGone(job, b)
    ensures var b' := b.DropFromScan(job.attachments[k]);
            Progress(job, orig, b, b') && Conserved(job, orig, b') && FirstGone(job, b')
  {
    var b' := b.DropFromScan(job.attachments[k]);
    if LetterStored(job, orig, b) {
      LetterStaysStored(job, orig, b, b');
    }
    assert forall key :: SetAside(orig, b, key) ==> SetAside(orig, b', key);
  }

  lemma VerdictStep(job: Job, orig: Objects, d: Delivery, b: Buckets, v: Verdict)
    requires d.pc.Downloading? && Conserved(job, orig, b) && DeliveryInvariant(job, orig, b, d)
    requires job.attachments[|d.pc.done|] in b.scan && job.admits(b.scan[job.attachments[|d.pc.done|]], v)
    ensures DeliveryInvariant(job, orig, b, Delivery(AfterVerdict(job, d.pc.done, v), d.sent))
  {
    if v.Passed? {
      assert AdmittedAttachment(job, orig, |d.pc.done|, v.document);
    }
  }

  lemma RemoveOne(job: Job, orig: Objects, d: Delivery, b: Buckets)
    requires job.Valid() && Conserved(job, orig, b) && DeliveryInvariant(job, orig, b, d)
    requires d.pc.Removing? && d.pc.next < |job.attachments|
    ensures var b' := b.DropFromScan(job.attachments[d.pc.next]);
            && Progress(job, orig, b, b') && Conserved(job, orig, b')
            && DeliveryInvariant(job, orig, b', Delivery(NextRemoval(job, d.pc.next + 1), d.sent))
  {
    DeleteEffect(job, orig, b, d.pc.next);
  }

  lemma DeleteQuarantined(job: Job, orig: Objects, d: Delivery, b: Buckets)
    requires job.Valid() && Conserved(job, orig, b) && DeliveryInvariant(job, orig, b, d)
    requires d.pc.Quarantining? && d.pc.copied
    ensures var b' := b.DropFromScan(job.attachments[d.pc.next]);
            && Progress(job, orig, b, b') && Conserved(job, orig, b')
            && DeliveryInvariant(job, orig, b', Delivery(NextQuarantine(job, d.pc.next + 1), d.sent))
  {
    DeleteEffect(job, orig, b, d.pc.next);
  }

  lemma CopyToInvalid(job: Job, orig: Objects, d: Delivery, b: Buckets)
    requires job.Valid() && Conserved(job, orig, b) && DeliveryInvariant(job, orig, b, d)
    requires d.pc.Quarantining? && job.attachments[d.pc.next] in b.scan
    ensures var b' := b.Put(Invalid, job.attachments[d.pc.next], b.scan[job.attachments[d.pc.next]]);
            && Progress(job, orig, b, b') && Conserved(job, orig, b') && b'.scan == b.scan
            && DeliveryInvariant(job, orig, b', Delivery(Quarantining(d.pc.next, true), d.sent))
  {
    QuarantineEffect(job, orig, b, d.pc.next);
  }

  lemma MovingStep(job: Job, orig: Objects, d: Delivery, b: Buckets, d': Delivery, b': Buckets)
    requires job.Valid() && Conserved(job, orig, b) && DeliveryInvariant(job, orig, b, d) && Step(job, d, b, d', b')
    requires (d.pc.Removing? || d.pc.Quarantining?) && !(d' == Delivery(Halted, d.sent) && b' == b)
    ensures Progress(job, orig, b, b') && Conserved(job, orig, b') && DeliveryInvariant(job, orig, b', d')
    ensures b'.scan != b.scan ==> d.sent != [] && d'.sent == d.sent
  {
    if d.pc.Removing? {
      RemoveOne(job, orig, d, b);
    } else if d.pc.copied {
      DeleteQuarantined(job, orig, d, b);
    } else {
      CopyToInvalid(job, orig, d, b);
    }
  }

  lemma QuietStep(job: Job, orig: Objects, d: Delivery, b: Buckets, d': Delivery, b': Buckets)
    requires job.Valid() && Conserved(job, orig, b) && DeliveryInvariant(job, orig, b, d) && Step(job, d, b, d', b')
    requires b' == b
    ensures DeliveryInvariant(job, orig, b', d')
  {
    if d' != Delivery(Halted, d.sent) {
      if d.pc.Downloading? {
        var done := d.pc.done;
        var v :| job.admits(b.scan[job.attachments[|done|]], v) && d' == Delivery(AfterVerdict(job, done, v), d.sent);
        VerdictStep(job, orig, d, b, v);
      } else if d.pc.Storing? {
        StoreEffect(job, orig, b, d.pc.adhoc);
      } else if d.pc.Removing? || d.pc.Quarantining? {
        MovingStep(job, orig, d, b, d', b');
      }
    }
  }

  lemma StepKeepsInvariant(job: Job, orig: Objects, d: Delivery, b: Buckets, d': Delivery, b': Buckets)
    requires job.Valid() && Conserved(job, orig, b) && DeliveryInvariant(job, orig, b, d) && Step(job, d, b, d', b')
    ensures Progress(job, orig, b, b') && Conserved(job, orig, b') && DeliveryInvariant(job, orig, b', d')
    ensures b'.scan != b.scan ==> d.sent != [] && d'.sent == d.sent
  {
    if b' == b {
      QuietStep(job, orig, d, b, d', b');
    } else if d.pc.Storing? {
      StoreEffect(job, orig, b, d.pc.adhoc);
    } else {
      MovingStep(job, orig, d, b, d', b');
    }
  }

  lemma ProgressKeepsDelivery(job: Job, orig: Objects, b: Buckets, b': Buckets, d: Delivery)
    requires Progress(job, orig, b, b') && DeliveryInvariant(job, orig, b, d)
    ensures DeliveryInvariant(job, orig, b', d)
  {
  }

  lemma SystemStepKeepsInvariant(job: Job, orig: Objects, s: System, s': System)
    requires job.Valid() && Invariant(job, orig, s) && SystemStep(job, s, s')
    ensures Invariant(job, orig, s')
  {
    if s' == System(s.buckets, s.deliveries + [Start(job)]) {
      if SomebodySent(s) {
        var i :| 0 <= i < |s.deliveries| && s.deliveries[i].sent != [];
        assert s'.deliveries[i].sent != [];
      }
    } else {
      var i :| DeliveryStep(job, s, s', i);
      StepKeepsInvariant(job, orig, s.deliveries[i], s.buckets, s'.deliveries[i], s'.buckets);
      forall k | 0 <= k < |s'.deliveries|
        ensures DeliveryInvariant(job, orig, s'.buckets, s'.deliveries[k])
      {
        if k != i {
          ProgressKeepsDelivery(job, orig, s.buckets, s'.buckets, s.deliveries[k]);
        }
      }
      if s'.buckets.scan != s.buckets.scan {
        assert s'.deliveries[i].sent != [];
      } else if SomebodySent(s) {
        var j :| 0 <= j < |s.deliveries| && s.deliveries[j].sent != [];
        assert s'.deliveries[j].sent != [];
      }
    }
  }

  lemma {:induction false} InvariantHolds(job: Job, run: seq<System>, t: nat)
    requires job.Valid() && IsRun(job, run) && t < |run|
    ensures Invariant(job, run[0].buckets.scan, run[t])
  {
    if t > 0 {
      InvariantHolds(job, run, t - 1);
      SystemStepKeepsInvariant(job, run[0].buckets.scan, run[t - 1], run[t]);
    }
  }

  // ---------- Main results ----------

  /** The letter in one of the destination buckets contains the pages of a sanitised version of this attachment. */
  ghost predicate InStoredLetter(job: Job, orig: Objects, b: Buckets, k: nat)
    requires k < |job.attachments|
  {
    exists pages: seq<Page>, document ::
      && b.Holds(Destination(job, |pages|).0, Destination(job, |pages|).1, Document(pages))
      && AdmittedAttachment(job, orig, k, document) && Occurs(document, pages)
  }

  /** Templated letters never drop a raw attachment. In every state of every run, with any overlap of deliveries, any
      failing call and any verdicts, each raw attachment is still in the scan bucket, or among the invalid files, or
      a stored letter contains its sanitised pages; nothing else ever leaves the scan bucket. */
  lemma NoAttachmentIsDropped(job: Job, run: seq<System>, t: nat, k: nat)
    requires job.Valid() && IsRun(job, run) && t < |run| && k < |job.attachments|
    requires job.attachments[k] in run[0].buckets.scan
    ensures var orig, b, key := run[0].buckets.scan, run[t].buckets, job.attachments[k];
            || b.Holds(Scan, key, orig[key])
            || b.Holds(Invalid, key, orig[key])
            || InStoredLetter(job, orig, b, k)
    ensures forall key :: key in run[0].buckets.scan && key !in job.attachments ==>
                            run[t].buckets.Holds(Scan, key, run[0].buckets.scan[key])
  {
    InvariantHolds(job, run, t);
    var orig, b := run[0].buckets.scan, run[t].buckets;
    if LetterStored(job, orig, b) {
      var adhoc :| LetterStoredWith(job, orig, b, adhoc);
      AttachmentOccurs(job, adhoc, k);
      assert AdmittedAttachment(job, orig, k, adhoc[k]);
    }
  }

  /** Each delivery sends at most one outcome, and no raw attachment leaves the scan bucket before some delivery has
      sent its outcome. */
  lemma OneOutcomeBeforeRemoval(job: Job, run: seq<System>, t: nat)
    requires job.Valid() && IsRun(job, run) && t < |run|
    ensures forall i :: 0 <= i < |run[t].deliveries| ==> |run[t].deliveries[i].sent| <= 1
    ensures (exists key :: key in run[0].buckets.scan && key !in run[t].buckets.scan) ==> SomebodySent(run[t])
  {
    InvariantHolds(job, run, t);
    forall i | 0 <= i < |run[t].deliveries|
      ensures |run[t].deliveries[i].sent| <= 1
    {
      assert DeliveryInvariant(job, run[0].buckets.scan, run[t].buckets, run[t].deliveries[i]);
    }
  }

  /** Only a delivery that has already sent its one outcome ever removes a raw attachment. */
  lemma RemovalFollowsOwnOutcome(job: Job, run: seq<System>, t: nat, i: nat)
    requires job.Valid() && IsRun(job, run) && t + 1 < |run| && DeliveryStep(job, run[t], run[t + 1], i)
    requires run[t + 1].buckets.scan != run[t].buckets.scan
    ensures |run[t].deliveries[i].sent| == 1 && run[t + 1].deliveries[i].sent == run[t].deliveries[i].sent
  {
    InvariantHolds(job, run, t);
    OneOutcomeBeforeRemoval(job, run, t);
    var s, s' := run[t], run[t + 1];
    StepKeepsInvariant(job, run[0].buckets.scan, s.deliveries[i], s.buckets, s'.deliveries[i], s'.buckets);
  }

  ghost predicate Silent(d: Delivery) {
    d.sent == [] && (d.pc == Downloading([]) || d.pc.Halted?)
  }

  ghost predicate LateOnesSilent(s: System, from: nat) {
    forall i :: from <= i < |s.deliveries| ==> Silent(s.deliveries[i])
  }

  lemma SilentStaysSilent(job: Job, d: Delivery, b: Buckets, d': Delivery, b': Buckets)
    requires Step(job, d, b, d', b') && FirstGone(job, b) && Silent(d)
    ensures Silent(d')
  {
  }

  lemma StepShrinksScan(job: Job, d: Delivery, b: Buckets, d': Delivery, b': Buckets)
    requires Step(job, d, b, d', b')
    ensures forall key :: key in b'.scan ==> key in b.scan
  {
    if d.pc.Storing? {
      PutLetterKeeps(job, b, TemplatedPages(job, d.pc.adhoc));
    }
  }

  lemma SystemStepKeepsSilence(job: Job, s: System, s': System, from: nat)
    requires SystemStep(job, s, s') && FirstGone(job, s.buckets)
    requires LateOnesSilent(s, from) && from <= |s.deliveries|
    ensures FirstGone(job, s'.buckets) && LateOnesSilent(s', from) && from <= |s'.deliveries|
  {
    if s' != System(s.buckets, s.deliveries + [Start(job)]) {
      var i :| DeliveryStep(job, s, s', i);
      StepShrinksScan(job, s.deliveries[i], s.buckets, s'.deliveries[i], s'.buckets);
      if from <= i {
        SilentStaysSilent(job, s.deliveries[i], s.buckets, s'.deliveries[i], s'.buckets);
      }
    }
  }

  lemma {:induction false} LateOnesStaySilent(job: Job, run: seq<System>, t: nat, u: nat)
    requires IsRun(job, run) && t <= u < |run| && FirstGone(job, run[t].buckets)
    ensures FirstGone(job, run[u].buckets) && LateOnesSilent(run[u], |run[t].deliveries|)
    ensures |run[t].deliveries| <= |run[u].deliveries|
  {
    if u > t {
      LateOnesStaySilent(job, run, t, u - 1);
      SystemStepKeepsSilence(job, run[u - 1], run[u], |run[t].deliveries|);
    }
  }

  /** Once any raw attachment has been removed, a delivery that starts later finds the first one gone and sends
      nothing, whatever the sanitiser would say. */
  lemma RedeliveryAfterRemovalIsSilent(job: Job, run: seq<System>, t: nat, u: nat, i: nat, key: string)
    requires job.Valid() && IsRun(job, run) && t <= u < |run|
    requires key in run[0].buckets.scan && key !in run[t].buckets.scan
    requires |run[t].deliveries| <= i < |run[u].deliveries|
    ensures run[u].deliveries[i].sent == []
  {
    InvariantHolds(job, run, t);
    LateOnesStaySilent(job, run, t, u);
    assert Silent(run[u].deliveries[i]);
  }
}

/**
  The task sanitise_and_upload_letter of app/celery/tasks.py, for a letter sent as one PDF file, and how the
  multi-part task on a single filename relates to it.
 */
module SingleLetter {
  import opened Options
  import opened PdfStitching
  import opened Sequences
  import opened Storage
  import opened Verdicts
  import opened CallHistory
  import opened LetterPartsProtocol

  /** How far a delivery of the single-file task has come. */
  datatype Single =
    | Downloading
    | UploadingOne(document: seq<Page>, payload: Payload)
    | BackingUpOne(document: seq<Page>, payload: Payload)
    | SendingOne(parts: seq<seq<Page>>, payload: Payload)
    | SentOne(parts: seq<seq<Page>>, payload: Payload)
    | StoppedOne

  /** The page count announced is the one the sanitiser reports, not one counted afterwards. */
  function AfterVerdictOne(l: Letter, v: Verdict): Single
    requires l.filenames != []
  {
    if v.Failed? then SendingOne([], FailurePayload(l, v, None))
    else UploadingOne(v.document, Payload(Some(v.pageCount), None, None, true, l.filenames[0], l.id, v.address))
  }

  ghost predicate SingleStep(l: Letter, d: Single, b: Buckets, d': Single, b': Buckets)
    requires l.filenames != []
  {
    var filename := l.filenames[0];
    || (!d.SentOne? && !d.StoppedOne? && d'.StoppedOne? && b' == b)
    || match d
       case Downloading =>
         filename in b.scan && b' == b
         && exists v :: l.admits(b.scan[filename], false, v) && d' == AfterVerdictOne(l, v)
       case UploadingOne(document, p) =>
         b' == b.Put(Sanitised, filename, Document(document)) && (d' == BackingUpOne(document, p) || d'.StoppedOne?)
       case BackingUpOne(document, p) =>
         && filename in b.scan && b' == b.Put(Backup, l.backupKey(0), b.scan[filename])
         && (d' == SendingOne([document], p) || d'.StoppedOne?)
       case SendingOne(parts, p) => b' == b && d' == SentOne(parts, p)
       case _ => false
  }

  // ---------- The code ----------

  ghost predicate IsSingleChain(l: Letter, run: seq<Config<Single>>)
    requires l.filenames != []
  {
    forall t :: 0 <= t < |run| - 1 ==>
      SingleStep(l, run[t].delivery, run[t].buckets, run[t + 1].delivery, run[t + 1].buckets)
  }

  /** The run explains everything that aws has seen since its history was before: one step for every call. */
  ghost predicate Explains(l: Letter, run: seq<Config<Single>>, aws: Aws<Payload>, before: seq<Buckets>)
    requires l.filenames != []
    reads aws
  {
    IsSingleChain(l, run) && Accounts(run, aws, before)
  }

  ghost function Extend(l: Letter, run: seq<Config<Single>>, d: Single, b: Buckets): (longer: seq<Config<Single>>)
    requires l.filenames != [] && run != [] && IsSingleChain(l, run)
    requires SingleStep(l, At(run), run[|run| - 1].buckets, d, b)
    ensures run <= longer && IsSingleChain(l, longer) && longer[|longer| - 1] == Config(d, b)
    ensures BucketsOf(longer)[1..] == BucketsOf(run)[1..] + [b]
  {
    Grow(run, d, b)
  }

  /** The upload of the sanitised letter and the backup of the original. */
  method StoreAndBackUpOne(aws: Aws<Payload>, l: Letter, document: seq<Page>, payload: Payload,
                           ghost soFar: seq<Config<Single>>, ghost before: seq<Buckets>)
    returns (ok: bool, ghost run: seq<Config<Single>>)
    requires l.filenames != [] && l.backupKey(0) == l.id + ".pdf"
    requires Explains(l, soFar, aws, before) && At(soFar) == UploadingOne(document, payload)
    modifies aws
    ensures aws.sent == old(aws.sent) && soFar <= run && Explains(l, run, aws, before)
    ensures At(run) == if ok then SendingOne([document], payload) else StoppedOne
    ensures aws.failures == old(aws.failures) + (if ok then 0 else 1) && aws.failedSends == old(aws.failedSends)
    ensures !ok ==> aws.lastRaised
  {
    ok := aws.UploadTo(Sanitised, l.filenames[0], Document(document));
    run := Extend(l, soFar, if ok then BackingUpOne(document, payload) else StoppedOne, aws.buckets);
    if !ok {
      return;
    }
    ok := aws.CopyFromScan(l.filenames[0], Backup, l.id + ".pdf");
    run := Extend(l, run, if ok then SendingOne([document], payload) else StoppedOne, aws.buckets);
  }

  /** One delivery of the single-file task, as a run with one step for every call. Its message is on the
      queue unless one call failed, which is then its last; no S3 call fails before a message. */
  method SanitiseAndUploadLetter(aws: Aws<Payload>, l: Letter, sanitise: (File, bool) -> Verdict)
    returns (ghost run: seq<Config<Single>>)
    requires l.filenames != [] && l.backupKey(0) == l.id + ".pdf"
    requires forall file, attachment :: l.admits(file, attachment, sanitise(file, attachment))
    modifies aws
    ensures Explains(l, run, aws, old(aws.history)) && run[0] == Config(Downloading, old(aws.buckets))
    ensures At(run).SentOne? || At(run).StoppedOne?
    ensures aws.sent == old(aws.sent) + if At(run).SentOne? then [At(run).payload] else []
    ensures At(run).SentOne? ==> aws.failures == old(aws.failures)
    ensures aws.Raised() == old(aws.Raised()) + if aws.lastRaised then 1 else 0
    ensures At(run).StoppedOne? ==> aws.lastRaised
  {
    var filename := l.filenames[0];
    run := [Config(Downloading, aws.buckets)];
    var content := aws.Download(filename);
    if content.None? {
      run := Extend(l, run, StoppedOne, aws.buckets);
      return;
    }
    var details := sanitise(content.value, false);
    assert l.admits(content.value, false, details);
    run := Extend(l, run, AfterVerdictOne(l, details), aws.buckets);
    var payload: Payload;
    if details.Failed? {
      payload := FailurePayload(l, details, None);
    } else {
      payload := Payload(Some(details.pageCount), None, None, true, filename, l.id, details.address);
      var ok;
      ok, run := StoreAndBackUpOne(aws, l, details.document, payload, run, old(aws.history));
      if !ok {
        return;
      }
    }
    var ok := aws.Send(payload);
    run := Extend(l, run, if |aws.sent| > |old(aws.sent)| then SentOne(At(run).parts, payload) else StoppedOne,
                  aws.buckets);
  }

  // ---------- What a message means ----------

  /** The message for a file that was refused says what the sanitiser said. */
  ghost predicate TellsRefusalOne(l: Letter, scan: Objects, message: string, pageCount: Option<nat>,
                                  invalidPages: Option<seq<nat>>, p: Payload)
    requires l.filenames != []
  {
    && l.filenames[0] in scan && l.admits(scan[l.filenames[0]], false, Failed(message, pageCount, invalidPages))
    && !p.passed && p.message == Some(message) && p.pageCount == pageCount && p.invalidPages == invalidPages
    && p.address.None? && p.filename == l.filenames[0] && p.id == l.id
  }

  /** The message for a file that passed has the sanitiser's page count and address. */
  ghost predicate TellsPassed(l: Letter, scan: Objects, document: seq<Page>, pageCount: nat, p: Payload)
    requires l.filenames != []
  {
    && l.filenames[0] in scan && l.admits(scan[l.filenames[0]], false, Passed(document, pageCount, p.address))
    && p.passed && p.message.None? && p.pageCount == Some(pageCount) && p.invalidPages.None?
    && p.filename == l.filenames[0] && p.id == l.id
  }

  ghost predicate IsStored(l: Letter, b: Buckets, document: seq<Page>)
    requires l.filenames != []
  {
    b.Holds(Sanitised, l.filenames[0], Document(document))
  }

  /** Either message, the second only with the sanitised file stored and the original backed up. */
  ghost predicate MessageIsTrue(l: Letter, b: Buckets, p: Payload)
    requires l.filenames != []
  {
    || (exists message, pageCount, invalidPages :: TellsRefusalOne(l, b.scan, message, pageCount, invalidPages, p))
    || (exists document, pageCount ::
          && TellsPassed(l, b.scan, document, pageCount, p) && IsStored(l, b, document)
          && b.Holds(Backup, l.backupKey(0), b.scan[l.filenames[0]]))
  }

  ghost predicate SingleInvariant(l: Letter, b: Buckets, d: Single)
    requires l.filenames != []
  {
    match d
    case Downloading => true
    case UploadingOne(document, p) => exists pageCount :: TellsPassed(l, b.scan, document, pageCount, p)
    case BackingUpOne(document, p) =>
      IsStored(l, b, document) && exists pageCount :: TellsPassed(l, b.scan, document, pageCount, p)
    case SendingOne(_, p) => MessageIsTrue(l, b, p)
    case SentOne(_, p) => MessageIsTrue(l, b, p)
    case StoppedOne => true
  }

  lemma VerdictIsTold(l: Letter, b: Buckets, v: Verdict)
    requires l.filenames != [] && l.filenames[0] in b.scan && l.admits(b.scan[l.filenames[0]], false, v)
    ensures SingleInvariant(l, b, AfterVerdictOne(l, v))
  {
    if v.Failed? {
      assert v == Failed(v.message, v.failedPageCount, v.invalidPages);
      assert TellsRefusalOne(l, b.scan, v.message, v.failedPageCount, v.invalidPages, AfterVerdictOne(l, v).payload);
    } else {
      assert v == Passed(v.document, v.pageCount, v.address);
      assert TellsPassed(l, b.scan, v.document, v.pageCount, AfterVerdictOne(l, v).payload);
    }
  }

  lemma SingleStepKeepsInvariant(l: Letter, d: Single, b: Buckets, d': Single, b': Buckets)
    requires l.filenames != [] && SingleStep(l, d, b, d', b') && SingleInvariant(l, b, d)
    ensures b'.scan == b.scan && SingleInvariant(l, b', d')
  {
    if !d'.StoppedOne? {
      match d
      case Downloading =>
        var v :| l.admits(b.scan[l.filenames[0]], false, v) && d' == AfterVerdictOne(l, v);
        VerdictIsTold(l, b, v);
      case UploadingOne(document, p) => assert IsStored(l, b', document);
      case BackingUpOne(document, p) =>
        var pageCount :| TellsPassed(l, b.scan, document, pageCount, p);
        assert TellsPassed(l, b'.scan, document, pageCount, p) && IsStored(l, b', document);
      case _ =>
    }
  }

  lemma {:induction false} SingleInvariantHolds(l: Letter, run: seq<Config<Single>>, t: nat)
    requires l.filenames != [] && IsSingleChain(l, run) && t < |run| && run[0].delivery == Downloading
    ensures run[t].buckets.scan == run[0].buckets.scan && SingleInvariant(l, run[t].buckets, run[t].delivery)
  {
    if t > 0 {
      SingleInvariantHolds(l, run, t - 1);
      SingleStepKeepsInvariant(l, run[t - 1].delivery, run[t - 1].buckets, run[t].delivery, run[t].buckets);
    }
  }

  /** When a delivery has sent its message, that message says what the sanitiser said of the file that is in the scan
      bucket; and if it says "passed", the sanitised file is stored under the file's name and the original is backed up.
      The scan bucket is never touched. */
  lemma SingleMessageIsTrue(l: Letter, run: seq<Config<Single>>)
    requires l.filenames != [] && run != [] && IsSingleChain(l, run) && run[0].delivery == Downloading
    requires At(run).SentOne?
    ensures var b, p := run[|run| - 1].buckets, At(run).payload;
            && b.scan == run[0].buckets.scan
            && (|| (exists message, pageCount, invalidPages ::
                      TellsRefusalOne(l, b.scan, message, pageCount, invalidPages, p))
                || (exists document, pageCount ::
                      && TellsPassed(l, b.scan, document, pageCount, p)
                      && b.Holds(Sanitised, l.filenames[0], Document(document))
                      && b.Holds(Backup, l.backupKey(0), b.scan[l.filenames[0]])))
  {
    SingleInvariantHolds(l, run, |run| - 1);
    var b, p := run[|run| - 1].buckets, At(run).payload;
    if document, pageCount :| TellsPassed(l, b.scan, document, pageCount, p) && IsStored(l, b, document)
                              && b.Holds(Backup, l.backupKey(0), b.scan[l.filenames[0]]) {
      assert b.Holds(Sanitised, l.filenames[0], Document(document));
    }
  }

  // ---------- The multi-part task on one filename ----------

  function AsMulti(d: Single): Delivery {
    match d
    case Downloading => START
    case UploadingOne(document, p) => Uploading([document], p)
    case BackingUpOne(document, p) => BackingUpFirst([document], p)
    case SendingOne(parts, p) => Sending(parts, p)
    case SentOne(parts, p) => Sent(parts, p)
    case StoppedOne => Stopped
  }

  /** Successful sanitising keeps the page count, within the limit. */
  ghost predicate KeepsPageCount(l: Letter) {
    forall file, v :: l.admits(file, false, v) && v.Passed? ==>
                        |v.document| == v.pageCount && v.pageCount <= LETTER_MAX_PAGE_COUNT
  }

  lemma FlattenOne(document: seq<Page>)
    ensures Flatten([document]) == document
  {
    assert [document][1..] == [];
  }

  lemma VerdictsAgree(l: Letter, v: Verdict)
    requires |l.filenames| == 1 && (v.Passed? ==> |v.document| == v.pageCount <= LETTER_MAX_PAGE_COUNT)
    ensures AsMulti(AfterVerdictOne(l, v)) == AfterVerdict(l, [], None, v)
  {
    if v.Passed? {
      FlattenOne(v.document);
      assert [] + [v.document] == [v.document];
    }
  }

  lemma AsMultiIsInjective(d: Single, e: Single)
    requires AsMulti(d) == AsMulti(e)
    ensures d == e
  {
    if d.UploadingOne? || d.BackingUpOne? {
      assert [d.document][0] == [e.document][0];
    }
  }

  lemma SameSteps(l: Letter, d: Single, b: Buckets, d': Single, b': Buckets)
    requires |l.filenames| == 1 && KeepsPageCount(l)
    ensures SingleStep(l, d, b, d', b') <==> Step(l, AsMulti(d), b, AsMulti(d'), b')
  {
    match d
    case Downloading =>
      if SingleStep(l, d, b, d', b') && !d'.StoppedOne? {
        var v :| l.admits(b.scan[l.filenames[0]], false, v) && d' == AfterVerdictOne(l, v);
        VerdictsAgree(l, v);
      }
      if Step(l, START, b, AsMulti(d'), b') && !d'.StoppedOne? {
        var v :| l.admits(b.scan[l.filenames[0]], false, v) && AsMulti(d') == AfterVerdict(l, [], None, v);
        VerdictsAgree(l, v);
        AsMultiIsInjective(d', AfterVerdictOne(l, v));
      }
    case UploadingOne(document, p) =>
      FlattenOne(document);
      if AsMulti(d') == BackingUpFirst([document], p) {
        AsMultiIsInjective(d', BackingUpOne(document, p));
      }
    case _ =>
  }

  /** From a state that the single-file task can be in, the multi-part task goes nowhere else. */
  lemma NoOtherSteps(l: Letter, d: Single, b: Buckets, m: Delivery, b': Buckets)
    requires |l.filenames| == 1 && KeepsPageCount(l) && Step(l, AsMulti(d), b, m, b')
    ensures exists d' :: m == AsMulti(d')
  {
    if m.Stopped? {
      assert m == AsMulti(StoppedOne);
    } else {
      match d
      case Downloading =>
        var v :| l.admits(b.scan[l.filenames[0]], false, v) && m == AfterVerdict(l, [], None, v);
        VerdictsAgree(l, v);
      case UploadingOne(document, p) => assert m == AsMulti(BackingUpOne(document, p));
      case BackingUpOne(document, p) => assert m == AsMulti(SendingOne([document], p));
      case SendingOne(parts, p) => assert m == AsMulti(SentOne(parts, p));
      case _ =>
    }
  }

  /** The two tasks make the same steps on the same buckets, fail in the same ways and send the same payload. */
  ghost predicate Bisimilar(l: Letter)
    requires l.filenames != []
  {
    && (forall d, b, d', b' :: SingleStep(l, d, b, d', b') <==> Step(l, AsMulti(d), b, AsMulti(d'), b'))
    && (forall d, b, m, b' :: Step(l, AsMulti(d), b, m, b') ==> exists d' :: m == AsMulti(d'))
  }

  /** On a single filename the multi-part task is the single-file task, step by step, if and only if successful
      sanitising keeps the page count. */
  lemma OnePartRefinesSingleLetterIff(l: Letter)
    requires |l.filenames| == 1
    ensures Bisimilar(l) <==> KeepsPageCount(l)
  {
    if KeepsPageCount(l) {
      forall d, b, d', b'
        ensures SingleStep(l, d, b, d', b') <==> Step(l, AsMulti(d), b, AsMulti(d'), b')
      {
        SameSteps(l, d, b, d', b');
      }
      forall d, b, m, b' | Step(l, AsMulti(d), b, m, b')
        ensures exists d' :: m == AsMulti(d')
      {
        NoOtherSteps(l, d, b, m, b');
      }
    } else {
      var file, v :| l.admits(file, false, v) && v.Passed?
                     && !(|v.document| == v.pageCount && v.pageCount <= LETTER_MAX_PAGE_COUNT);
      var b := Buckets(map[l.filenames[0] := file], map[], map[], map[], map[], map[]);
      DifferentPageCountShows(l, b, file, v);
      assert SingleStep(l, Downloading, b, AfterVerdictOne(l, v), b);
    }
  }

  lemma DifferentPageCountShows(l: Letter, b: Buckets, file: File, v: Verdict)
    requires |l.filenames| == 1 && b.Holds(Scan, l.filenames[0], file) && v.Passed?
    requires !(|v.document| == v.pageCount && v.pageCount <= LETTER_MAX_PAGE_COUNT)
    ensures !Step(l, AsMulti(Downloading), b, AsMulti(AfterVerdictOne(l, v)), b)
  {
    forall w: Verdict | w.Passed?
      ensures AfterVerdict(l, [], None, w) != AsMulti(AfterVerdictOne(l, v))
    {
      FlattenOne(w.document);
      assert [] + [w.document] == [w.document];
    }
  }
}

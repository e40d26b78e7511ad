/**
  The task create_pdf_for_templated_letter of app/celery/tasks.py with generate_templated_pdf (app/templated.py) and
  the attachment helpers (app/letter_attachments.py), call by call. Each delivery returns its own history as a run of
  the protocol's steps.
 */
module TemplatedLetter {
  import opened Options
  import opened PdfStitching
  import opened Sequences
  import opened Storage
  import opened Verdicts
  import opened CallHistory
  import opened TemplatedLetterProtocol

  function IndexOf(s: string, c: char): (i: nat)
    ensures i <= |s| && c !in s[..i] && (i < |s| ==> s[i] == c)
  {
    if s == "" || s[0] == c then 0 else 1 + IndexOf(s[1..], c)
  }

  /** The second of the pieces that slashes cut the name into, or the whole name if there is no slash. */
  function RemoveFolder(filename: string): string {
    var i := IndexOf(filename, '/');
    if i == |filename| then filename else var rest := filename[i + 1..]; rest[..IndexOf(rest, '/')]
  }

  /** What is left of a name is what stands between the first slash and the next one, if any. */
  lemma RemoveFolderIs(folder: string, name: string, rest: string)
    requires '/' !in folder && '/' !in name && (rest == "" || rest[0] == '/')
    ensures RemoveFolder(name) == name
    ensures RemoveFolder(folder + "/" + name + rest) == name
  {
    IndexOfFirst(name, "", '/');
    assert name + "" == name;
    var filename, tail := folder + "/" + name + rest, "/" + name + rest;
    assert filename == folder + tail;
    IndexOfFirst(folder, tail, '/');
    assert filename[|folder| + 1..] == name + rest;
    IndexOfFirst(name, rest, '/');
  }

  lemma {:induction false} IndexOfFirst(front: string, tail: string, c: char)
    requires c !in front && (tail == "" || tail[0] == c)
    ensures IndexOf(front + tail, c) == |front|
  {
    if front == "" {
      assert front + tail == tail;
    } else {
      assert (front + tail)[1..] == front[1..] + tail;
      IndexOfFirst(front[1..], tail, c);
    }
  }

  /** The run explains everything that aws has seen since before: one step for every call, and the messages sent. */
  ghost predicate Explains(job: Job, run: seq<Config<Delivery>>, aws: Aws<Outcome>, before: seq<Buckets>,
                           sentBefore: seq<Outcome>)
    reads aws
  {
    IsChain(job, run) && Accounts(run, aws, before) && sentBefore + At(run).sent == aws.sent
  }

  ghost function Extend(job: Job, run: seq<Config<Delivery>>, d: Delivery, b: Buckets): (longer: seq<Config<Delivery>>)
    requires run != [] && IsChain(job, run) && Step(job, At(run), run[|run| - 1].buckets, d, b)
    ensures run <= longer && IsChain(job, longer) && longer[|longer| - 1] == Config(d, b)
    ensures BucketsOf(longer)[1..] == BucketsOf(run)[1..] + [b]
  {
    Grow(run, d, b)
  }

  /** How preparing the PDF ends: with a document, with a ValidationFailed exception, or with any other exception. */
  datatype Prepared = Pdf(pages: seq<Page>) | Refused(outcome: Outcome) | Aborted

  /** Downloads and sanitises the ad-hoc attachments in the order of their keys. The first refusal, or the first
      failed download, ends it: nothing after that key is downloaded. */
  method GetAdhocAttachmentPdfs(aws: Aws<Outcome>, job: Job, sanitise: File -> Verdict,
                                ghost soFar: seq<Config<Delivery>>, ghost before: seq<Buckets>,
                                ghost sentBefore: seq<Outcome>)
    returns (pdfs: seq<seq<Page>>, problem: Option<Prepared>, ghost run: seq<Config<Delivery>>)
    requires Explains(job, soFar, aws, before, sentBefore) && At(soFar) == Start(job)
    requires forall file :: job.admits(file, sanitise(file))
    modifies aws
    ensures soFar <= run && Explains(job, run, aws, before, sentBefore)
    ensures aws.buckets == old(aws.buckets) && |pdfs| <= |job.attachments|
    ensures |aws.history| == |old(aws.history)| + |pdfs| + (if problem.Some? then 1 else 0)
    ensures forall k :: 0 <= k < |pdfs| ==>
              job.attachments[k] in aws.buckets.scan
              && sanitise(aws.buckets.scan[job.attachments[k]]).Passed?
              && pdfs[k] == sanitise(aws.buckets.scan[job.attachments[k]]).document
    ensures match problem
            case None => |pdfs| == |job.attachments| && At(run) == Delivery(AfterDownloads(job, pdfs), [])
            case Some(Refused(outcome)) =>
              && |pdfs| < |job.attachments| && At(run) == Delivery(Rejecting(outcome), [])
              && job.attachments[|pdfs|] in aws.buckets.scan
              && sanitise(aws.buckets.scan[job.attachments[|pdfs|]]).Failed?
            case Some(Aborted) => At(run) == Delivery(Halted, [])
            case _ => false
    ensures aws.Raised() == old(aws.Raised()) + if problem == Some(Aborted) then 1 else 0
    ensures problem == Some(Aborted) ==> aws.lastRaised
  {
    run, pdfs := soFar, [];
    for k := 0 to |job.attachments|
      invariant soFar <= run && Explains(job, run, aws, before, sentBefore)
      invariant |pdfs| == k && At(run) == Delivery(NextDownload(job, pdfs), [])
      invariant aws.buckets == old(aws.buckets) && |aws.history| == |old(aws.history)| + k
      invariant aws.Raised() == old(aws.Raised())
      invariant forall j :: 0 <= j < k ==>
                  job.attachments[j] in aws.buckets.scan
                  && sanitise(aws.buckets.scan[job.attachments[j]]).Passed?
                  && pdfs[j] == sanitise(aws.buckets.scan[job.attachments[j]]).document
    {
      var raw := aws.Download(job.attachments[k]);
      if raw.None? {
        run := Extend(job, run, Delivery(Halted, []), aws.buckets);
        problem := Some(Aborted);
        return;
      }
      var details := sanitise(raw.value);
      assert job.admits(raw.value, details);
      run := Extend(job, run, Delivery(AfterVerdict(job, pdfs, details), []), aws.buckets);
      if details.Failed? {
        problem := Some(Refused(ValidationFailed(details.failedPageCount)));
        return;
      }
      pdfs := pdfs + [details.document];
    }
    problem := None;
  }

  method AddAttachmentsToLetter(letter: seq<Page>, fixedAttachment: Option<seq<Page>>, adhoc: seq<seq<Page>>)
    returns (merged: seq<Page>)
    ensures merged == Flatten([letter] + (if fixedAttachment.Some? then [fixedAttachment.value] else []) + adhoc)
  {
    var pdfs := [letter];
    if fixedAttachment.Some? {
      pdfs := pdfs + [fixedAttachment.value];
    }
    pdfs := pdfs + adhoc;
    merged := MergeLetterParts(pdfs);
  }

  method RenderLetter(job: Job) returns (pdf: seq<Page>)
    ensures pdf == Base(job)
  {
    if job.welshThenEnglish {
      var welsh, english := job.render("welsh", true), job.render("english", false);
      pdf := StitchPdfs(welsh, english);
    } else {
      pdf := job.render("english", true);
    }
    pdf := job.cmyk(pdf);
  }

  /** Renders the letter, converts it to CMYK and appends the attachments. */
  method GenerateTemplatedPdf(aws: Aws<Outcome>, job: Job, sanitise: File -> Verdict,
                              ghost soFar: seq<Config<Delivery>>, ghost before: seq<Buckets>,
                              ghost sentBefore: seq<Outcome>)
    returns (prepared: Prepared, ghost run: seq<Config<Delivery>>, ghost adhoc: seq<seq<Page>>)
    requires Explains(job, soFar, aws, before, sentBefore) && At(soFar) == Start(job)
    requires forall file :: job.admits(file, sanitise(file))
    modifies aws
    ensures soFar <= run && Explains(job, run, aws, before, sentBefore)
    ensures match prepared
            case Pdf(pages) => pages == TemplatedPages(job, adhoc) && At(run) == Delivery(Storing(adhoc), [])
            case Refused(outcome) => At(run) == Delivery(Rejecting(outcome), [])
            case Aborted => At(run) == Delivery(Halted, [])
    ensures aws.Raised() == old(aws.Raised()) + if prepared.Aborted? then 1 else 0
    ensures prepared.Aborted? ==> aws.lastRaised
  {
    run, adhoc := soFar, [];
    var pdf := RenderLetter(job);
    if job.fixedAttachment.None? && job.attachments == [] {
      assert Pieces(job, []) == [pdf] && [pdf][1..] == [];
      assert Flatten([pdf]) == pdf;
      return Pdf(pdf), run, adhoc;
    }
    var pdfs, problem;
    pdfs, problem, run := GetAdhocAttachmentPdfs(aws, job, sanitise, run, before, sentBefore);
    adhoc := pdfs;
    if problem.Some? {
      return problem.value, run, adhoc;
    }
    if job.fixedAttachment.Some? {
      var ok := aws.ReadElsewhere();
      run := Extend(job, run, Delivery(if ok then Storing(pdfs) else Halted, []), aws.buckets);
      if !ok {
        return Aborted, run, adhoc;
      }
    }
    pdf := AddAttachmentsToLetter(pdf, job.fixedAttachment, pdfs);
    prepared := Pdf(pdf);
  }

  /** Deletes the raw attachments, in order, stopping at the first failed call. */
  method CleanupLetterAttachmentScanObjects(aws: Aws<Outcome>, job: Job, ghost sent: seq<Outcome>,
                                            ghost soFar: seq<Config<Delivery>>, ghost before: seq<Buckets>,
                                            ghost sentBefore: seq<Outcome>)
    returns (ghost run: seq<Config<Delivery>>)
    requires Explains(job, soFar, aws, before, sentBefore) && At(soFar) == Delivery(NextRemoval(job, 0), sent)
    modifies aws
    ensures soFar <= run && Explains(job, run, aws, before, sentBefore)
    ensures At(run) == Delivery(Finished, sent) || At(run) == Delivery(Halted, sent)
    ensures aws.Raised() == old(aws.Raised()) + if At(run).pc.Finished? then 0 else 1
    ensures At(run).pc.Halted? ==> aws.lastRaised
  {
    run := soFar;
    for k := 0 to |job.attachments|
      invariant soFar <= run && Explains(job, run, aws, before, sentBefore)
      invariant At(run) == Delivery(NextRemoval(job, k), sent) && aws.Raised() == old(aws.Raised())
    {
      var ok := aws.DeleteFromScan(job.attachments[k]);
      run := Extend(job, run, Delivery(if ok then NextRemoval(job, k + 1) else Halted, sent), aws.buckets);
      if !ok {
        return;
      }
    }
  }

  /** Copies one raw attachment to the invalid bucket and then deletes it. */
  method QuarantineOne(aws: Aws<Outcome>, job: Job, k: nat, ghost sent: seq<Outcome>,
                       ghost soFar: seq<Config<Delivery>>, ghost before: seq<Buckets>, ghost sentBefore: seq<Outcome>)
    returns (ok: bool, ghost run: seq<Config<Delivery>>)
    requires k < |job.attachments|
    requires Explains(job, soFar, aws, before, sentBefore) && At(soFar) == Delivery(Quarantining(k, false), sent)
    modifies aws
    ensures soFar <= run && Explains(job, run, aws, before, sentBefore)
    ensures At(run) == Delivery(if ok then NextQuarantine(job, k + 1) else Halted, sent)
    ensures aws.Raised() == old(aws.Raised()) + if ok then 0 else 1
    ensures !ok ==> aws.lastRaised
  {
    ok := aws.CopyFromScan(job.attachments[k], Invalid, job.attachments[k]);
    run := Extend(job, soFar, Delivery(if ok then Quarantining(k, true) else Halted, sent), aws.buckets);
    if ok {
      ok := aws.DeleteFromScan(job.attachments[k]);
      run := Extend(job, run, Delivery(if ok then NextQuarantine(job, k + 1) else Halted, sent), aws.buckets);
    }
  }

  /** Sets aside every raw attachment, in order, stopping at the first failed call. */
  method QuarantineLetterAttachmentScanObjects(aws: Aws<Outcome>, job: Job, ghost sent: seq<Outcome>,
                                               ghost soFar: seq<Config<Delivery>>, ghost before: seq<Buckets>,
                                               ghost sentBefore: seq<Outcome>)
    returns (ghost run: seq<Config<Delivery>>)
    requires Explains(job, soFar, aws, before, sentBefore) && At(soFar) == Delivery(NextQuarantine(job, 0), sent)
    modifies aws
    ensures soFar <= run && Explains(job, run, aws, before, sentBefore)
    ensures At(run) == Delivery(Finished, sent) || At(run) == Delivery(Halted, sent)
    ensures aws.Raised() == old(aws.Raised()) + if At(run).pc.Finished? then 0 else 1
    ensures At(run).pc.Halted? ==> aws.lastRaised
  {
    run := soFar;
    for k := 0 to |job.attachments|
      invariant soFar <= run && Explains(job, run, aws, before, sentBefore)
      invariant At(run) == Delivery(NextQuarantine(job, k), sent) && aws.Raised() == old(aws.Raised())
    {
      var ok;
      ok, run := QuarantineOne(aws, job, k, sent, run, before, sentBefore);
      if !ok {
        return;
      }
    }
  }

  /** Announces an outcome; the next state is given. */
  method DispatchLetterPdfOutcome(aws: Aws<Outcome>, job: Job, outcome: Outcome, ghost next: Pc,
                                  ghost soFar: seq<Config<Delivery>>, ghost before: seq<Buckets>,
                                  ghost sentBefore: seq<Outcome>)
    returns (ok: bool, ghost run: seq<Config<Delivery>>)
    requires Explains(job, soFar, aws, before, sentBefore) && At(soFar).sent == []
    requires Announces(job, At(soFar), next, outcome)
    modifies aws
    ensures soFar <= run && Explains(job, run, aws, before, sentBefore)
    ensures if ok then At(run) == Delivery(next, [outcome])
            else At(run) == Delivery(Halted, []) || At(run) == Delivery(Halted, [outcome])
    ensures aws.Raised() == old(aws.Raised()) + if ok then 0 else 1
    ensures !ok ==> aws.lastRaised
  {
    ok := aws.Send(outcome);
    ghost var sent := if |aws.sent| > |old(aws.sent)| then [outcome] else [];
    run := Extend(job, soFar, Delivery(if ok then next else Halted, sent), aws.buckets);
  }

  /** One delivery of the Celery task. sanitise is what the sanitiser answers during this delivery. It runs to its end
      unless a call fails, and the first failed call is its last. */
  method CreatePdfForTemplatedLetter(aws: Aws<Outcome>, job: Job, sanitise: File -> Verdict)
    returns (ghost run: seq<Config<Delivery>>)
    requires job.invalidName == RemoveFolder(job.letterFilename)
    requires forall file :: job.admits(file, sanitise(file))
    modifies aws
    ensures Explains(job, run, aws, old(aws.history), old(aws.sent))
    ensures run[0] == Config(Start(job), old(aws.buckets))
    ensures At(run).pc.Finished? || At(run).pc.Halted?
    ensures aws.Raised() == old(aws.Raised()) + if At(run).pc.Finished? then 0 else 1
    ensures At(run).pc.Halted? ==> aws.lastRaised
  {
    ghost var before, sentBefore := aws.history, aws.sent;
    run := [Config(Start(job), aws.buckets)];
    var prepared;
    ghost var adhoc;
    prepared, run, adhoc := GenerateTemplatedPdf(aws, job, sanitise, run, before, sentBefore);
    match prepared
    case Aborted =>
    case Refused(outcome) =>
      var ok;
      ok, run := DispatchLetterPdfOutcome(aws, job, outcome, NextQuarantine(job, 0), run, before, sentBefore);
      if ok && job.attachments != [] {
        run := QuarantineLetterAttachmentScanObjects(aws, job, [outcome], run, before, sentBefore);
      }
    case Pdf(pages) =>
      run := StoreAndAnnounce(aws, job, pages, adhoc, run, before, sentBefore);
  }

  /** Stores the finished letter where its length and kind say, announces it and removes the raw attachments. */
  method StoreAndAnnounce(aws: Aws<Outcome>, job: Job, pages: seq<Page>, ghost adhoc: seq<seq<Page>>,
                          ghost soFar: seq<Config<Delivery>>, ghost before: seq<Buckets>,
                          ghost sentBefore: seq<Outcome>)
    returns (ghost run: seq<Config<Delivery>>)
    requires job.invalidName == RemoveFolder(job.letterFilename) && pages == TemplatedPages(job, adhoc)
    requires Explains(job, soFar, aws, before, sentBefore) && At(soFar) == Delivery(Storing(adhoc), [])
    modifies aws
    ensures soFar <= run && Explains(job, run, aws, before, sentBefore)
    ensures At(run).pc.Finished? || At(run).pc.Halted?
    ensures aws.Raised() == old(aws.Raised()) + if At(run).pc.Finished? then 0 else 1
    ensures At(run).pc.Halted? ==> aws.lastRaised
  {
    var pageCount := |pages|;
    var outcome := UpdateBillableUnits(pageCount);
    var filename := job.letterFilename;
    var bucket;
    if pageCount > LETTER_MAX_PAGE_COUNT {
      bucket := Invalid;
      outcome := ValidationFailed(Some(pageCount));
      filename := RemoveFolder(job.letterFilename);
    } else if job.isTest {
      bucket := TestLetters;
    } else {
      bucket := LettersPdf;
    }
    assert (bucket, filename) == Destination(job, pageCount) && outcome == OutcomeOf(pageCount);
    var ok := aws.UploadTo(bucket, filename, Document(pages));
    run := Extend(job, soFar, Delivery(if ok then Announcing(adhoc) else Halted, []), aws.buckets);
    if !ok {
      return;
    }
    ok, run := DispatchLetterPdfOutcome(aws, job, outcome, NextRemoval(job, 0), run, before, sentBefore);
    if ok && job.attachments != [] {
      run := CleanupLetterAttachmentScanObjects(aws, job, [outcome], run, before, sentBefore);
    }
  }

  // ---------- Deliveries one after another ----------

  lemma {:induction false} DeliveryKeepsInvariant(job: Job, orig: Objects, chain: seq<Config<Delivery>>, prior: System,
                                                  t: nat)
    requires job.Valid() && chain != [] && IsChain(job, chain) && t < |chain|
    requires chain[0] == Config(Start(job), prior.buckets) && Invariant(job, orig, prior)
    ensures Invariant(job, orig, System(chain[t].buckets, prior.deliveries + [chain[t].delivery]))
  {
    var s' := System(chain[t].buckets, prior.deliveries + [chain[t].delivery]);
    if t == 0 {
      SystemStepKeepsInvariant(job, orig, prior, s');
    } else {
      DeliveryKeepsInvariant(job, orig, chain, prior, t - 1);
      var s := System(chain[t - 1].buckets, prior.deliveries + [chain[t - 1].delivery]);
      var i := |prior.deliveries|;
      assert s.deliveries[i := s'.deliveries[i]] == s'.deliveries;
      assert DeliveryStep(job, s, s', i);
      SystemStepKeepsInvariant(job, orig, s, s');
    }
  }

  /** Every state of one delivery conserves the attachments, and the delivery sends at most one message. */
  lemma DeliveryConserves(job: Job, orig: Objects, chain: seq<Config<Delivery>>, prior: System, history: seq<Buckets>)
    requires job.Valid() && chain != [] && IsChain(job, chain)
    requires chain[0] == Config(Start(job), prior.buckets) && Invariant(job, orig, prior)
    ensures var all := history + BucketsOf(chain)[1..];
            forall h :: |history| <= h < |all| ==> Conserved(job, orig, all[h])
    ensures Invariant(job, orig, System(chain[|chain| - 1].buckets, prior.deliveries + [At(chain)]))
    ensures |At(chain).sent| <= 1
  {
    forall t | 0 <= t < |chain|
      ensures Invariant(job, orig, System(chain[t].buckets, prior.deliveries + [chain[t].delivery]))
    {
      DeliveryKeepsInvariant(job, orig, chain, prior, t);
    }
    var all := history + BucketsOf(chain)[1..];
    forall h | |history| <= h < |all|
      ensures Conserved(job, orig, all[h])
    {
      assert all[h] == chain[h - |history| + 1].buckets;
    }
    var last := System(chain[|chain| - 1].buckets, prior.deliveries + [At(chain)]);
    assert last.deliveries[|prior.deliveries|] == At(chain);
  }

  /** Any number of deliveries of the Celery task, one after another, drop no raw attachment: at every state that S3
      goes through, each one that has left the scan bucket is set aside or is inside a stored letter. */
  method DeliverRepeatedly(aws: Aws<Outcome>, job: Job, answers: seq<File -> Verdict>)
    requires job.Valid() && job.invalidName == RemoveFolder(job.letterFilename)
    requires forall d :: 0 <= d < |answers| ==> forall file :: job.admits(file, answers[d](file))
    modifies aws
    ensures |aws.history| >= |old(aws.history)|
    ensures forall h :: |old(aws.history)| <= h < |aws.history| ==>
              Conserved(job, old(aws.buckets.scan), aws.history[h])
    ensures |aws.sent| <= |old(aws.sent)| + |answers|
  {
    ghost var orig := aws.buckets.scan;
    ghost var s := System(aws.buckets, []);
    for d := 0 to |answers|
      invariant s.buckets == aws.buckets && Invariant(job, orig, s)
      invariant |aws.history| >= |old(aws.history)|
      invariant forall h :: |old(aws.history)| <= h < |aws.history| ==> Conserved(job, orig, aws.history[h])
      invariant |aws.sent| <= |old(aws.sent)| + d
    {
      ghost var priorHistory := aws.history;
      ghost var chain := CreatePdfForTemplatedLetter(aws, job, answers[d]);
      DeliveryConserves(job, orig, chain, s, priorHistory);
      s := System(aws.buckets, s.deliveries + [At(chain)]);
    }
  }
}

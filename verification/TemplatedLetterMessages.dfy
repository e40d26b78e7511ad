/** What the outcomes of a templated letter say, and what has been done when a delivery has come to its end. */
module TemplatedLetterMessages {
  import opened Options
  import opened PdfStitching
  import opened Storage
  import opened Verdicts
  import opened CallHistory
  import opened TemplatedLetterProtocol
  import opened TemplatedLetterOutcomes

  /** Passing sanitised versions of all attachments. */
  ghost predicate AllAdmitted(job: Job, orig: Objects, adhoc: seq<seq<Page>>) {
    |adhoc| == |job.attachments| && AdmittedAttachments(job, orig, adhoc)
  }

  /** So many pages, ten at most, has a letter with all attachments. */
  ghost predicate TellsPageCount(job: Job, orig: Objects, adhoc: seq<seq<Page>>, n: nat) {
    AllAdmitted(job, orig, adhoc) && n == |TemplatedPages(job, adhoc)| <= 10
  }

  /** So many pages, more than ten, has a letter with all attachments. */
  ghost predicate TellsTooLong(job: Job, orig: Objects, adhoc: seq<seq<Page>>, count: Option<nat>) {
    AllAdmitted(job, orig, adhoc) && |TemplatedPages(job, adhoc)| > 10 && count == Some(|TemplatedPages(job, adhoc)|)
  }

  /** The attachment after those done was refused, with this page count. */
  ghost predicate TellsRefusal(job: Job, orig: Objects, done: seq<seq<Page>>, message: string,
                               invalidPages: Option<seq<nat>>, count: Option<nat>) {
    && |done| < |job.attachments| && AdmittedAttachments(job, orig, done) && job.attachments[|done|] in orig
    && job.admits(orig[job.attachments[|done|]], Failed(message, count, invalidPages))
  }

  /** A letter with all attachments, within the limit, is where letters of its kind are kept. */
  ghost predicate KeptAsLetter(job: Job, orig: Objects, b: Buckets) {
    exists adhoc :: IsKeptAsLetter(job, orig, b, adhoc)
  }

  ghost predicate IsKeptAsLetter(job: Job, orig: Objects, b: Buckets, adhoc: seq<seq<Page>>) {
    var pages := TemplatedPages(job, adhoc);
    && AllAdmitted(job, orig, adhoc) && |pages| <= 10
    && b.Holds(if job.isTest then TestLetters else LettersPdf, job.letterFilename, Document(pages))
  }

  /** A letter with all attachments, over the limit, is among the invalid files. */
  ghost predicate KeptAsInvalid(job: Job, orig: Objects, b: Buckets) {
    exists adhoc :: IsKeptAsInvalid(job, orig, b, adhoc)
  }

  ghost predicate IsKeptAsInvalid(job: Job, orig: Objects, b: Buckets, adhoc: seq<seq<Page>>) {
    var pages := TemplatedPages(job, adhoc);
    AllAdmitted(job, orig, adhoc) && |pages| > 10 && b.Holds(Invalid, job.invalidName, Document(pages))
  }

  ghost predicate OutcomeIsTrue(job: Job, orig: Objects, b: Buckets, outcome: Outcome) {
    match outcome
    case UpdateBillableUnits(n) => KeptAsLetter(job, orig, b) && exists adhoc :: TellsPageCount(job, orig, adhoc, n)
    case ValidationFailed(count) =>
      || (exists done, message, invalidPages :: TellsRefusal(job, orig, done, message, invalidPages, count))
      || (KeptAsInvalid(job, orig, b) && exists adhoc :: TellsTooLong(job, orig, adhoc, count))
  }

  ghost predicate GoneUpTo(job: Job, b: Buckets, k: nat) {
    forall j :: 0 <= j < k && j < |job.attachments| ==> job.attachments[j] !in b.scan
  }

  ghost predicate SetAsideUpTo(job: Job, orig: Objects, b: Buckets, k: nat) {
    forall j :: 0 <= j < k && j < |job.attachments| ==> SetAside(orig, b, job.attachments[j])
  }

  ghost predicate PcInvariant(job: Job, orig: Objects, b: Buckets, pc: Pc) {
    match pc
    case Announcing(adhoc) =>
      && AllAdmitted(job, orig, adhoc)
      && (if |TemplatedPages(job, adhoc)| <= 10 then KeptAsLetter(job, orig, b) else KeptAsInvalid(job, orig, b))
    case Rejecting(outcome) => OutcomeIsTrue(job, orig, b, outcome)
    case Removing(k) => GoneUpTo(job, b, k)
    case Quarantining(k, _) => GoneUpTo(job, b, k) && SetAsideUpTo(job, orig, b, k)
    case Finished => GoneUpTo(job, b, |job.attachments|)
    case _ => true
  }

  ghost predicate MessageInvariant(job: Job, orig: Objects, b: Buckets, d: Delivery) {
    && PcInvariant(job, orig, b, d.pc)
    && forall k :: 0 <= k < |d.sent| ==> OutcomeIsTrue(job, orig, b, d.sent[k])
  }

  // ---------- Every step keeps it ----------

  /** What a step keeps for every delivery. */
  ghost predicate Keeps(job: Job, orig: Objects, b: Buckets, b': Buckets) {
    && Progress(job, orig, b, b')
    && (KeptAsLetter(job, orig, b) ==> KeptAsLetter(job, orig, b'))
    && (KeptAsInvalid(job, orig, b) ==> KeptAsInvalid(job, orig, b'))
  }

  lemma KeepsDelivery(job: Job, orig: Objects, b: Buckets, b': Buckets, d: Delivery)
    requires Keeps(job, orig, b, b') && MessageInvariant(job, orig, b, d)
    ensures MessageInvariant(job, orig, b', d)
  {
    assert forall o :: OutcomeIsTrue(job, orig, b, o) ==> OutcomeIsTrue(job, orig, b', o);
  }

  lemma LettersStay(job: Job, orig: Objects, b: Buckets, b': Buckets)
    requires b'.lettersPdf == b.lettersPdf && b'.testLetters == b.testLetters
    requires job.invalidName in b.invalid ==> b'.Holds(Invalid, job.invalidName, b.invalid[job.invalidName])
    ensures KeptAsLetter(job, orig, b) ==> KeptAsLetter(job, orig, b')
    ensures KeptAsInvalid(job, orig, b) ==> KeptAsInvalid(job, orig, b')
  {
    if adhoc :| IsKeptAsLetter(job, orig, b, adhoc) {
      assert IsKeptAsLetter(job, orig, b', adhoc);
    }
    if adhoc :| IsKeptAsInvalid(job, orig, b, adhoc) {
      assert IsKeptAsInvalid(job, orig, b', adhoc);
    }
  }

  lemma StoringKeeps(job: Job, orig: Objects, b: Buckets, adhoc: seq<seq<Page>>)
    requires AllAdmitted(job, orig, adhoc)
    ensures var b' := PutLetter(job, b, TemplatedPages(job, adhoc));
            && (KeptAsLetter(job, orig, b) ==> KeptAsLetter(job, orig, b'))
            && (KeptAsInvalid(job, orig, b) ==> KeptAsInvalid(job, orig, b'))
            && PcInvariant(job, orig, b', Announcing(adhoc))
  {
    var b' := PutLetter(job, b, TemplatedPages(job, adhoc));
    if |TemplatedPages(job, adhoc)| <= 10 {
      assert IsKeptAsLetter(job, orig, b', adhoc);
      assert b'.invalid == b.invalid;
      if other :| IsKeptAsInvalid(job, orig, b, other) {
        assert IsKeptAsInvalid(job, orig, b', other);
      }
    } else {
      assert IsKeptAsInvalid(job, orig, b', adhoc);
      assert b'.lettersPdf == b.lettersPdf && b'.testLetters == b.testLetters;
      if other :| IsKeptAsLetter(job, orig, b, other) {
        assert IsKeptAsLetter(job, orig, b', other);
      }
    }
  }

  lemma OtherStepsLeaveLetters(job: Job, d: Delivery, b: Buckets, d': Delivery, b': Buckets)
    requires job.Valid() && Step(job, d, b, d', b') && !d.pc.Storing?
    ensures b'.lettersPdf == b.lettersPdf && b'.testLetters == b.testLetters
    ensures job.invalidName in b.invalid ==> b'.Holds(Invalid, job.invalidName, b.invalid[job.invalidName])
  {
    if d.pc.Quarantining? && !d.pc.copied && b' != b {
      assert job.attachments[d.pc.next] in job.attachments;
    }
  }

  lemma StepKeepsLetters(job: Job, orig: Objects, d: Delivery, b: Buckets, d': Delivery, b': Buckets)
    requires job.Valid() && DeliveryInvariant(job, orig, b, d) && Step(job, d, b, d', b')
    ensures KeptAsLetter(job, orig, b) ==> KeptAsLetter(job, orig, b')
    ensures KeptAsInvalid(job, orig, b) ==> KeptAsInvalid(job, orig, b')
  {
    if d.pc.Storing? {
      if b' != b {
        StoringKeeps(job, orig, b, d.pc.adhoc);
      }
    } else {
      OtherStepsLeaveLetters(job, d, b, d', b');
      LettersStay(job, orig, b, b');
    }
  }

  lemma RefusalIsTrue(job: Job, orig: Objects, b: Buckets, done: seq<seq<Page>>, v: Verdict)
    requires |done| < |job.attachments| && AdmittedAttachments(job, orig, done) && job.attachments[|done|] in orig
    requires job.admits(orig[job.attachments[|done|]], v)
    ensures PcInvariant(job, orig, b, AfterVerdict(job, done, v))
  {
    if v.Failed? {
      assert v == Failed(v.message, v.failedPageCount, v.invalidPages);
      assert TellsRefusal(job, orig, done, v.message, v.invalidPages, v.failedPageCount);
    }
  }

  lemma AnnouncementIsTrue(job: Job, orig: Objects, b: Buckets, adhoc: seq<seq<Page>>)
    requires PcInvariant(job, orig, b, Announcing(adhoc))
    ensures OutcomeIsTrue(job, orig, b, OutcomeOf(|TemplatedPages(job, adhoc)|))
  {
    var n := |TemplatedPages(job, adhoc)|;
    if n <= 10 {
      assert TellsPageCount(job, orig, adhoc, n);
    } else {
      assert TellsTooLong(job, orig, adhoc, Some(n));
    }
  }

  lemma RemovingStep(job: Job, orig: Objects, d: Delivery, b: Buckets, d': Delivery, b': Buckets)
    requires Step(job, d, b, d', b') && d.pc.Removing? && GoneUpTo(job, b', d.pc.next)
    ensures PcInvariant(job, orig, b', d'.pc) && d'.sent == d.sent
  {
  }

  lemma QuarantiningStep(job: Job, orig: Objects, d: Delivery, b: Buckets, d': Delivery, b': Buckets)
    requires Step(job, d, b, d', b') && d.pc.Quarantining? && PcInvariant(job, orig, b', d.pc)
    requires d.pc.copied ==> d.pc.next < |job.attachments| && SetAside(orig, b', job.attachments[d.pc.next])
    ensures PcInvariant(job, orig, b', d'.pc) && d'.sent == d.sent
  {
  }

  lemma StoringStep(job: Job, orig: Objects, d: Delivery, b: Buckets, d': Delivery, b': Buckets)
    requires DeliveryInvariant(job, orig, b, d) && Step(job, d, b, d', b') && d.pc.Storing?
    ensures PcInvariant(job, orig, b', d'.pc) && d'.sent == d.sent
  {
    StoringKeeps(job, orig, b, d.pc.adhoc);
  }

  lemma DownloadingStep(job: Job, orig: Objects, d: Delivery, b: Buckets, d': Delivery, b': Buckets)
    requires Conserved(job, orig, b) && DeliveryInvariant(job, orig, b, d) && Step(job, d, b, d', b')
    requires d.pc.Downloading?
    ensures PcInvariant(job, orig, b', d'.pc) && d'.sent == d.sent
  {
    if !d'.pc.Halted? {
      var done := d.pc.done;
      var v :| job.admits(b.scan[job.attachments[|done|]], v) && d' == Delivery(AfterVerdict(job, done, v), d.sent);
      RefusalIsTrue(job, orig, b, done, v);
    }
  }

  lemma SendingStep(job: Job, orig: Objects, d: Delivery, b: Buckets, d': Delivery, b': Buckets)
    requires Step(job, d, b, d', b') && (d.pc.Announcing? || d.pc.Rejecting?) && MessageInvariant(job, orig, b, d)
    ensures MessageInvariant(job, orig, b', d')
  {
    if d.pc.Announcing? {
      AnnouncementIsTrue(job, orig, b, d.pc.adhoc);
    }
  }

  /** The delivery that makes the step keeps the invariant itself. */
  lemma OwnStep(job: Job, orig: Objects, d: Delivery, b: Buckets, d': Delivery, b': Buckets)
    requires job.Valid() && Conserved(job, orig, b) && DeliveryInvariant(job, orig, b, d) && Step(job, d, b, d', b')
    requires Keeps(job, orig, b, b') && MessageInvariant(job, orig, b, d)
    ensures MessageInvariant(job, orig, b', d')
  {
    KeepsDelivery(job, orig, b, b', d);
    if d.pc.Announcing? || d.pc.Rejecting? {
      SendingStep(job, orig, d, b, d', b');
    } else if d.pc.Downloading? {
      DownloadingStep(job, orig, d, b, d', b');
    } else if d.pc.Storing? {
      StoringStep(job, orig, d, b, d', b');
    } else if d.pc.Removing? {
      RemovingStep(job, orig, d, b, d', b');
    } else if d.pc.Quarantining? {
      QuarantiningStep(job, orig, d, b, d', b');
    }
  }

  ghost predicate AllTrue(job: Job, orig: Objects, s: System) {
    forall i :: 0 <= i < |s.deliveries| ==> MessageInvariant(job, orig, s.buckets, s.deliveries[i])
  }

  lemma SystemStepKeepsMessages(job: Job, orig: Objects, s: System, s': System)
    requires job.Valid() && Invariant(job, orig, s) && AllTrue(job, orig, s) && SystemStep(job, s, s')
    ensures AllTrue(job, orig, s')
  {
    if s' != System(s.buckets, s.deliveries + [Start(job)]) {
      var i :| DeliveryStep(job, s, s', i);
      StepKeepsInvariant(job, orig, s.deliveries[i], s.buckets, s'.deliveries[i], s'.buckets);
      StepKeepsLetters(job, orig, s.deliveries[i], s.buckets, s'.deliveries[i], s'.buckets);
      forall k | 0 <= k < |s'.deliveries|
        ensures MessageInvariant(job, orig, s'.buckets, s'.deliveries[k])
      {
        if k == i {
          OwnStep(job, orig, s.deliveries[i], s.buckets, s'.deliveries[i], s'.buckets);
        } else {
          KeepsDelivery(job, orig, s.buckets, s'.buckets, s.deliveries[k]);
        }
      }
    }
  }

  lemma NextMessagesHold(job: Job, orig: Objects, run: seq<System>, t: nat)
    requires job.Valid() && IsRun(job, run) && t + 1 < |run| && orig == run[0].buckets.scan
    requires AllTrue(job, orig, run[t])
    ensures AllTrue(job, orig, run[t + 1])
  {
    InvariantHolds(job, run, t);
    assert SystemStep(job, run[t], run[t + 1]);
    SystemStepKeepsMessages(job, orig, run[t], run[t + 1]);
  }

  lemma {:induction false} MessagesHold(job: Job, run: seq<System>, t: nat)
    requires job.Valid() && IsRun(job, run) && t < |run|
    ensures AllTrue(job, run[0].buckets.scan, run[t])
  {
    if t == 0 {
      assert run[0].deliveries == [];
    } else {
      MessagesHold(job, run, t - 1);
      NextMessagesHold(job, run[0].buckets.scan, run, t - 1);
    }
  }

  // ---------- Main results ----------

  /** Every outcome that is sent is true, from then on. Billable units are announced only with the page count of a
      letter with all its attachments that has ten pages at most, and such a letter is stored where letters of its kind
      are kept. A failed validation is announced only with the page count of the first attachment that was refused, or
      with that of a letter of more than ten pages, and then such a letter is among the invalid files. */
  lemma SentOutcomeIsTrue(job: Job, run: seq<System>, t: nat, i: nat)
    requires job.Valid() && IsRun(job, run) && t < |run| && i < |run[t].deliveries|
    requires run[t].deliveries[i].sent != []
    ensures var orig, b, sent := run[0].buckets.scan, run[t].buckets, run[t].deliveries[i].sent;
            && |sent| == 1
            && match sent[0]
               case UpdateBillableUnits(n) =>
                 (exists adhoc :: TellsPageCount(job, orig, adhoc, n)) && KeptAsLetter(job, orig, b)
               case ValidationFailed(count) =>
                 || (exists done, message, invalidPages :: TellsRefusal(job, orig, done, message, invalidPages, count))
                 || ((exists adhoc :: TellsTooLong(job, orig, adhoc, count)) && KeptAsInvalid(job, orig, b))
  {
    MessagesHold(job, run, t);
    OneOutcomeBeforeRemoval(job, run, t);
    assert OutcomeIsTrue(job, run[0].buckets.scan, run[t].buckets, run[t].deliveries[i].sent[0]);
  }

  /** When a delivery has come to its end, no raw attachment is left in the scan bucket. */
  lemma FinishedHasCleanedUp(job: Job, run: seq<System>, t: nat, i: nat)
    requires job.Valid() && IsRun(job, run) && t < |run| && i < |run[t].deliveries|
    requires run[t].deliveries[i].pc.Finished?
    ensures |run[t].deliveries[i].sent| == 1
    ensures forall k :: 0 <= k < |job.attachments| ==> job.attachments[k] !in run[t].buckets.scan
  {
    MessagesHold(job, run, t);
    InvariantHolds(job, run, t);
    assert MessageInvariant(job, run[0].buckets.scan, run[t].buckets, run[t].deliveries[i]);
    assert DeliveryInvariant(job, run[0].buckets.scan, run[t].buckets, run[t].deliveries[i]);
  }

  // ---------- When the announced page count is that of the stored letter ----------

  /** The letter that is stored for this job has n pages. */
  ghost predicate StoredWithPages(job: Job, b: Buckets, n: nat) {
    var store := b.In(if job.isTest then TestLetters else LettersPdf);
    job.letterFilename in store && store[job.letterFilename].Document? && |store[job.letterFilename].pages| == n
  }

  ghost predicate HasAnnounced(job: Job, run: seq<System>, t: nat, i: nat, n: nat) {
    && IsRun(job, run) && t < |run| && i < |run[t].deliveries|
    && run[t].deliveries[i].sent == [UpdateBillableUnits(n)]
  }

  ghost predicate AnnouncedIsStored(job: Job) {
    forall run: seq<System>, t: nat, i: nat, n: nat ::
      HasAnnounced(job, run, t, i, n) ==> StoredWithPages(job, run[t].buckets, n)
  }

  /** Whatever the sanitiser answers in different deliveries, a letter within the limit comes out with as many pages. */
  ghost predicate PageCountsAgree(job: Job) {
    forall orig, a, b, m, n :: TellsPageCount(job, orig, a, m) && TellsPageCount(job, orig, b, n) ==> m == n
  }

  /** A delivery can get to announcing any admitted version of the letter. */
  lemma {:induction false} ReachAnnouncing(job: Job, orig: Objects, adhoc: seq<seq<Page>>, k: nat, b: Buckets)
    returns (chain: seq<Config<Delivery>>)
    requires AllAdmitted(job, orig, adhoc) && b.scan == orig && k <= |adhoc|
    ensures chain != [] && IsChain(job, chain) && chain[0] == Config(Delivery(NextDownload(job, adhoc[..k]), []), b)
    ensures chain[|chain| - 1]
            == Config(Delivery(Announcing(adhoc), []), PutLetter(job, b, TemplatedPages(job, adhoc)))
    decreases |adhoc| - k
  {
    var here := Delivery(NextDownload(job, adhoc[..k]), []);
    if k < |adhoc| {
      assert AdmittedAttachment(job, orig, k, adhoc[k]);
      var v :| job.admits(orig[job.attachments[k]], v) && v.Passed? && v.document == adhoc[k];
      assert adhoc[..k] + [adhoc[k]] == adhoc[..k + 1];
      chain := ReachAnnouncing(job, orig, adhoc, k + 1, b);
      assert AfterVerdict(job, adhoc[..k], v) == NextDownload(job, adhoc[..k + 1]);
      chain := AddStep(job, here, b, chain);
    } else {
      assert adhoc[..k] == adhoc;
      var stored := PutLetter(job, b, TemplatedPages(job, adhoc));
      chain := [Config(Delivery(Announcing(adhoc), []), stored)];
      chain := AddStep(job, Delivery(Storing(adhoc), []), b, chain);
      if job.fixedAttachment.Some? {
        chain := AddStep(job, here, b, chain);
      }
    }
  }

  lemma AddStep(job: Job, d: Delivery, b: Buckets, rest: seq<Config<Delivery>>) returns (chain: seq<Config<Delivery>>)
    requires rest != [] && IsChain(job, rest) && Step(job, d, b, rest[0].delivery, rest[0].buckets)
    ensures IsChain(job, chain) && |chain| == |rest| + 1 && chain[0] == Config(d, b)
    ensures chain[|chain| - 1] == rest[|rest| - 1]
  {
    chain := [Config(d, b)] + rest;
    assert forall t :: 1 <= t < |chain| ==> chain[t] == rest[t - 1];
  }

  /** Two overlapping deliveries: the second stores its version over the first one's, and then the first announces. */
  lemma StoredOverBeforeAnnounced(job: Job, orig: Objects, a: seq<seq<Page>>, b: seq<seq<Page>>, m: nat, n: nat)
    returns (run: seq<System>)
    requires TellsPageCount(job, orig, a, m) && TellsPageCount(job, orig, b, n)
    ensures run != [] && HasAnnounced(job, run, |run| - 1, 0, m)
    ensures StoredWithPages(job, run[|run| - 1].buckets, n)
  {
    var b0 := Buckets(orig, map[], map[], map[], map[], map[]);
    assert a[..0] == [] && b[..0] == [];
    var first := ReachAnnouncing(job, orig, a, 0, b0);
    run := RunOn(job, [System(b0, [])], first);
    var second := ReachAnnouncing(job, orig, b, 0, run[|run| - 1].buckets);
    run := RunOn(job, run, second);
    var s := run[|run| - 1];
    var d := Delivery(NextRemoval(job, 0), [UpdateBillableUnits(m)]);
    var s' := System(s.buckets, s.deliveries[0 := d]);
    assert s.deliveries[0] == Delivery(Announcing(a), []);
    assert DeliveryStep(job, s, s', 0);
    run := run + [s'];
  }

  /** In every run the announced page count is that of the stored letter, if and only if the page count of a letter
      within the limit does not depend on which answers of the sanitiser went into it. */
  lemma AnnouncedIsStoredIff(job: Job)
    requires job.Valid()
    ensures AnnouncedIsStored(job) <==> PageCountsAgree(job)
  {
    if PageCountsAgree(job) {
      forall run: seq<System>, t: nat, i: nat, n: nat | HasAnnounced(job, run, t, i, n)
        ensures StoredWithPages(job, run[t].buckets, n)
      {
        SentOutcomeIsTrue(job, run, t, i);
        var orig := run[0].buckets.scan;
        var adhoc :| TellsPageCount(job, orig, adhoc, n);
        var other :| IsKeptAsLetter(job, orig, run[t].buckets, other);
        assert TellsPageCount(job, orig, other, |TemplatedPages(job, other)|);
      }
    } else {
      var orig, a, b, m, n :| TellsPageCount(job, orig, a, m) && TellsPageCount(job, orig, b, n) && m != n;
      var run := StoredOverBeforeAnnounced(job, orig, a, b, m, n);
    }
  }
}

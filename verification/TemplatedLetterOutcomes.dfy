/**
  A templated letter whose attachments were all there never ends without an outcome, because no attachment is removed
  before one is sent.
 */
module TemplatedLetterOutcomes {
  import opened Options
  import opened PdfStitching
  import opened Storage
  import opened Verdicts
  import opened CallHistory
  import opened TemplatedLetterProtocol

  ghost predicate Answers(job: Job, file: File) {
    exists v :: job.admits(file, v)
  }

  /** The sanitiser always answers, one way or the other. */
  ghost predicate AnswersEveryFile(job: Job) {
    forall file :: Answers(job, file)
  }

  predicate AllPresent(job: Job, b: Buckets) {
    forall k :: 0 <= k < |job.attachments| ==> job.attachments[k] in b.scan
  }

  /** A history that takes a delivery from d to a state in which it has sent an outcome. */
  ghost predicate ReachesOutcome(job: Job, d: Delivery, b: Buckets, chain: seq<Config<Delivery>>) {
    chain != [] && IsChain(job, chain) && chain[0] == Config(d, b) && At(chain).sent != []
  }

  lemma Prepend(job: Job, d: Delivery, b: Buckets, rest: seq<Config<Delivery>>) returns (chain: seq<Config<Delivery>>)
    requires rest != [] && ReachesOutcome(job, rest[0].delivery, rest[0].buckets, rest)
    requires Step(job, d, b, rest[0].delivery, rest[0].buckets)
    ensures ReachesOutcome(job, d, b, chain)
  {
    chain := [Config(d, b)] + rest;
    assert forall t :: 1 <= t < |chain| ==> chain[t] == rest[t - 1];
  }

  lemma FinishStoring(job: Job, adhoc: seq<seq<Page>>, b: Buckets) returns (chain: seq<Config<Delivery>>)
    ensures ReachesOutcome(job, Delivery(Storing(adhoc), []), b, chain)
  {
    var pages := TemplatedPages(job, adhoc);
    var stored := PutLetter(job, b, pages);
    var announced := Delivery(NextRemoval(job, 0), [OutcomeOf(|pages|)]);
    chain := [Config(announced, stored)];
    chain := Prepend(job, Delivery(Announcing(adhoc), []), stored, chain);
    chain := Prepend(job, Delivery(Storing(adhoc), []), b, chain);
  }

  /** With every attachment present a delivery can get to an outcome, whatever it is that the sanitiser answers. */
  lemma {:induction false} FinishDownloads(job: Job, done: seq<seq<Page>>, b: Buckets)
    returns (chain: seq<Config<Delivery>>)
    requires AnswersEveryFile(job) && AllPresent(job, b) && |done| <= |job.attachments|
    ensures ReachesOutcome(job, Delivery(NextDownload(job, done), []), b, chain)
    decreases |job.attachments| - |done|
  {
    var n, here := |done|, Delivery(NextDownload(job, done), []);
    if n < |job.attachments| {
      assert Answers(job, b.scan[job.attachments[n]]);
      var v :| job.admits(b.scan[job.attachments[n]], v);
      if v.Failed? {
        var refusal := ValidationFailed(v.failedPageCount);
        chain := [Config(Delivery(NextQuarantine(job, 0), [refusal]), b)];
        chain := Prepend(job, Delivery(Rejecting(refusal), []), b, chain);
      } else {
        chain := FinishDownloads(job, done + [v.document], b);
      }
      chain := Prepend(job, here, b, chain);
    } else {
      chain := FinishStoring(job, done, b);
      if job.fixedAttachment.Some? {
        chain := Prepend(job, here, b, chain);
      }
    }
  }

  /** One more delivery arrives and makes the steps of the chain by itself. */
  lemma {:induction false} RunOn(job: Job, run: seq<System>, chain: seq<Config<Delivery>>)
    returns (longer: seq<System>)
    requires IsRun(job, run) && chain != [] && IsChain(job, chain)
    requires chain[0] == Config(Start(job), run[|run| - 1].buckets)
    ensures IsRun(job, longer) && |longer| == |run| + |chain| && run <= longer
    ensures longer[|longer| - 1]
            == System(chain[|chain| - 1].buckets, run[|run| - 1].deliveries + [chain[|chain| - 1].delivery])
    decreases |chain|
  {
    var prior, n := run[|run| - 1], |chain|;
    var last := System(chain[n - 1].buckets, prior.deliveries + [chain[n - 1].delivery]);
    if n == 1 {
      longer := run + [last];
      assert SystemStep(job, prior, last);
    } else {
      var shorter := RunOn(job, run, chain[..n - 1]);
      longer := shorter + [last];
      var s := shorter[|shorter| - 1];
      assert s.deliveries[|prior.deliveries| := chain[n - 1].delivery] == last.deliveries;
      assert DeliveryStep(job, s, last, |prior.deliveries|);
    }
  }

  ghost predicate SendsIn(job: Job, run: seq<System>, longer: seq<System>, u: nat, i: nat)
    requires run != []
  {
    && IsRun(job, longer) && run <= longer && |run| <= u < |longer|
    && |run[|run| - 1].deliveries| <= i < |longer[u].deliveries| && longer[u].deliveries[i].sent != []
  }

  /** In some continuation of the run, a delivery that starts later sends an outcome. */
  ghost predicate LaterOutcomeIsPossible(job: Job, run: seq<System>)
    requires run != []
  {
    exists longer, u, i :: SendsIn(job, run, longer, u, i)
  }

  /** After every run of a letter whose attachments were all there: a later delivery can send an outcome if and only if
      no attachment has been removed. */
  lemma LaterDeliveryCanSendIff(job: Job, run: seq<System>)
    requires job.Valid() && AnswersEveryFile(job) && IsRun(job, run) && AllPresent(job, run[0].buckets)
    ensures LaterOutcomeIsPossible(job, run) <==> AllPresent(job, run[|run| - 1].buckets)
  {
    var t := |run| - 1;
    if AllPresent(job, run[t].buckets) {
      var chain := FinishDownloads(job, [], run[t].buckets);
      var longer := RunOn(job, run, chain);
      assert SendsIn(job, run, longer, |longer| - 1, |run[t].deliveries|);
    } else {
      var k :| 0 <= k < |job.attachments| && job.attachments[k] !in run[t].buckets.scan;
      forall longer, u, i
        ensures !SendsIn(job, run, longer, u, i)
      {
        if SendsIn(job, run, longer, u, i) {
          assert longer[0] == run[0] && longer[t] == run[t];
          RedeliveryAfterRemovalIsSilent(job, longer, t, u, i, job.attachments[k]);
        }
      }
    }
  }

  /** So a templated letter is never stranded: after every run some outcome has been sent, or a later delivery can still
      send one. */
  lemma TemplatedLetterIsNeverStranded(job: Job, run: seq<System>)
    requires job.Valid() && AnswersEveryFile(job) && IsRun(job, run) && AllPresent(job, run[0].buckets)
    ensures SomebodySent(run[|run| - 1]) || LaterOutcomeIsPossible(job, run)
  {
    OneOutcomeBeforeRemoval(job, run, |run| - 1);
    LaterDeliveryCanSendIff(job, run);
    if !AllPresent(job, run[|run| - 1].buckets) {
      var k :| 0 <= k < |job.attachments| && job.attachments[k] !in run[|run| - 1].buckets.scan;
      assert job.attachments[k] in run[0].buckets.scan;
    }
  }
}

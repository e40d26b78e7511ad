/**
  When a letter of several parts can get its outcome message. Nothing here asks for distinct names: what a repeated name
  does is part of the answer.
 */
module LetterPartsReporting {
  import opened Options
  import opened PdfStitching
  import opened Sequences
  import opened Storage
  import opened Verdicts
  import opened CallHistory
  import opened LetterPartsProtocol

  ghost predicate Answers(l: Letter, file: File, attachment: bool) {
    exists v :: l.admits(file, attachment, v)
  }

  /** The sanitiser always answers, one way or the other. */
  ghost predicate AnswersEveryFile(l: Letter) {
    forall file, attachment :: Answers(l, file, attachment)
  }

  ghost predicate AllPresent(l: Letter, b: Buckets, from: nat) {
    forall k :: from <= k < |l.filenames| ==> l.filenames[k] in b.scan
  }

  ghost predicate SiblingsDiffer(l: Letter) {
    forall i, k :: 1 <= i < k < |l.filenames| ==> l.filenames[i] != l.filenames[k]
  }

  // ---------- A repeated sibling name stalls every delivery ----------

  /** Two siblings with one name. */
  predicate Repeated(l: Letter, i: nat, k: nat) {
    1 <= i < k < |l.filenames| && l.filenames[i] == l.filenames[k]
  }

  /** The delivery has not got past the second of the two: it would have to copy what it has deleted as the first. */
  ghost predicate Stalled(l: Letter, i: nat, k: nat, b: Buckets, d: Delivery)
    requires Repeated(l, i, k)
  {
    match d
    case Quarantining(next, copied, _) => StalledAt(l, i, k, b, next, copied)
    case BackingUp(next, copied, _, _) => StalledAt(l, i, k, b, next, copied)
    case Sending(_, _) => false
    case Sent(_, _) => false
    case _ => true
  }

  ghost predicate StalledAt(l: Letter, i: nat, k: nat, b: Buckets, next: nat, copied: bool)
    requires Repeated(l, i, k)
  {
    1 <= next <= k && (next == k ==> !copied) && (next > i ==> l.filenames[i] !in b.scan)
  }

  ghost predicate AllStalled(l: Letter, i: nat, k: nat, s: System)
    requires Repeated(l, i, k)
  {
    forall n :: 0 <= n < |s.deliveries| ==> Stalled(l, i, k, s.buckets, s.deliveries[n])
  }

  lemma StalledStaysStalled(l: Letter, i: nat, k: nat, d: Delivery, b: Buckets, d': Delivery, b': Buckets)
    requires Repeated(l, i, k) && Stalled(l, i, k, b, d) && Step(l, d, b, d', b')
    ensures Stalled(l, i, k, b', d')
  {
  }

  lemma SystemStepKeepsStalled(l: Letter, i: nat, k: nat, s: System, s': System)
    requires Repeated(l, i, k) && AllStalled(l, i, k, s) && SystemStep(l, s, s')
    ensures AllStalled(l, i, k, s')
  {
    if s' != System(s.buckets, s.deliveries + [START]) {
      var n :| DeliveryStep(l, s, s', n);
      StalledStaysStalled(l, i, k, s.deliveries[n], s.buckets, s'.deliveries[n], s'.buckets);
      ScanOnlyShrinks(l, s.deliveries[n], s.buckets, s'.deliveries[n], s'.buckets);
    }
  }

  /** With a name repeated among the siblings no delivery ever gets past the second of the two, whatever else
      happens. */
  lemma {:induction false} RepeatedSiblingStalls(l: Letter, i: nat, k: nat, run: seq<System>, t: nat)
    requires Repeated(l, i, k) && IsRun(l, run) && t < |run|
    ensures AllStalled(l, i, k, run[t])
  {
    if t > 0 {
      RepeatedSiblingStalls(l, i, k, run, t - 1);
      SystemStepKeepsStalled(l, i, k, run[t - 1], run[t]);
    }
  }

  // ---------- With distinct siblings a delivery can finish ----------

  /** A history that takes a delivery from d to the point where its message is sent. */
  ghost predicate ReachesSending(l: Letter, d: Delivery, b: Buckets, chain: seq<Config<Delivery>>)
    requires l.filenames != []
  {
    chain != [] && IsChain(l, chain) && chain[0] == Config(d, b) && At(chain).Sending?
  }

  ghost function Prepend(l: Letter, d: Delivery, b: Buckets, rest: seq<Config<Delivery>>):
    (chain: seq<Config<Delivery>>)
    requires l.filenames != [] && rest != [] && IsChain(l, rest) && Step(l, d, b, rest[0].delivery, rest[0].buckets)
    ensures |chain| == |rest| + 1 && IsChain(l, chain) && chain[0] == Config(d, b) && chain[1..] == rest
    ensures chain[|chain| - 1] == rest[|rest| - 1]
  {
    var chain := [Config(d, b)] + rest;
    assert forall t :: 1 <= t < |chain| ==> chain[t] == rest[t - 1];
    chain
  }

  lemma StillPresent(l: Letter, b: Buckets, b': Buckets, k: nat)
    requires SiblingsDiffer(l) && 1 <= k < |l.filenames| && AllPresent(l, b, k + 1)
    requires b'.scan == b.scan - {l.filenames[k]}
    ensures AllPresent(l, b', k + 1)
  {
  }

  lemma {:induction false} FinishQuarantine(l: Letter, k: nat, p: Payload, b: Buckets)
    returns (chain: seq<Config<Delivery>>)
    requires SiblingsDiffer(l) && 1 <= k <= |l.filenames| && AllPresent(l, b, k)
    ensures ReachesSending(l, NextQuarantine(l, k, p), b, chain)
    decreases |l.filenames| - k
  {
    if k == |l.filenames| {
      chain := [Config(Sending([], p), b)];
    } else {
      var copied := b.Put(Invalid, l.filenames[k], b.scan[l.filenames[k]]);
      var dropped := copied.DropFromScan(l.filenames[k]);
      StillPresent(l, b, dropped, k);
      chain := FinishQuarantine(l, k + 1, p, dropped);
      chain := Prepend(l, Quarantining(k, true, p), copied, chain);
      chain := Prepend(l, Quarantining(k, false, p), b, chain);
    }
  }

  lemma {:induction false} FinishBackup(l: Letter, k: nat, parts: seq<seq<Page>>, p: Payload, b: Buckets)
    returns (chain: seq<Config<Delivery>>)
    requires SiblingsDiffer(l) && 1 <= k <= |l.filenames| && AllPresent(l, b, k)
    ensures ReachesSending(l, NextBackup(l, k, parts, p), b, chain)
    decreases |l.filenames| - k
  {
    if k == |l.filenames| {
      chain := [Config(Sending(parts, p), b)];
    } else {
      var copied := b.Put(Backup, l.backupKey(k), b.scan[l.filenames[k]]);
      var dropped := copied.DropFromScan(l.filenames[k]);
      StillPresent(l, b, dropped, k);
      chain := FinishBackup(l, k + 1, parts, p, dropped);
      chain := Prepend(l, BackingUp(k, true, parts, p), copied, chain);
      chain := Prepend(l, BackingUp(k, false, parts, p), b, chain);
    }
  }

  lemma FinishUpload(l: Letter, parts: seq<seq<Page>>, p: Payload, b: Buckets) returns (chain: seq<Config<Delivery>>)
    requires l.filenames != [] && SiblingsDiffer(l) && AllPresent(l, b, 0)
    ensures ReachesSending(l, Uploading(parts, p), b, chain)
  {
    var stored := b.Put(Sanitised, l.filenames[0], Document(Flatten(parts)));
    var backed := stored.Put(Backup, l.backupKey(0), stored.scan[l.filenames[0]]);
    chain := FinishBackup(l, 1, parts, p, backed);
    chain := Prepend(l, BackingUpFirst(parts, p), stored, chain);
    chain := Prepend(l, Uploading(parts, p), b, chain);
  }

  /** With every part present a delivery can get to the end, whatever it is that the sanitiser answers. */
  lemma {:induction false} FinishSanitising(l: Letter, parts: seq<seq<Page>>, address: Option<string>, b: Buckets)
    returns (chain: seq<Config<Delivery>>)
    requires SiblingsDiffer(l) && AnswersEveryFile(l) && |parts| < |l.filenames| && AllPresent(l, b, 0)
    ensures ReachesSending(l, Sanitising(parts, address), b, chain)
    decreases |l.filenames| - |parts|
  {
    var n := |parts|;
    assert Answers(l, b.scan[l.filenames[n]], n > 0);
    var v :| l.admits(b.scan[l.filenames[n]], n > 0, v);
    var next := AfterVerdict(l, parts, address, v);
    match next {
      case Sanitising(parts', address') => chain := FinishSanitising(l, parts', address', b);
      case Uploading(parts', p) => chain := FinishUpload(l, parts', p, b);
      case Quarantining(_, _, p) => chain := FinishQuarantine(l, 1, p, b);
      case Sending(_, p) => chain := FinishQuarantine(l, 1, p, b);
    }
    chain := Prepend(l, Sanitising(parts, address), b, chain);
  }

  /** Delivery i goes on by itself and makes the steps of the chain. */
  lemma {:induction false} GoOn(l: Letter, run: seq<System>, i: nat, chain: seq<Config<Delivery>>)
    returns (longer: seq<System>)
    requires l.filenames != [] && IsRun(l, run) && chain != [] && IsChain(l, chain)
    requires i < |run[|run| - 1].deliveries|
    requires chain[0] == Config(run[|run| - 1].deliveries[i], run[|run| - 1].buckets)
    ensures IsRun(l, longer) && run <= longer && |longer| == |run| + |chain| - 1
    ensures longer[|longer| - 1]
            == System(chain[|chain| - 1].buckets, run[|run| - 1].deliveries[i := chain[|chain| - 1].delivery])
    decreases |chain|
  {
    var prior, n := run[|run| - 1], |chain|;
    longer := run;
    if n == 1 {
      assert prior.deliveries[i := prior.deliveries[i]] == prior.deliveries;
    } else {
      var shorter := GoOn(l, run, i, chain[..n - 1]);
      var s := shorter[|shorter| - 1];
      var last := System(chain[n - 1].buckets, prior.deliveries[i := chain[n - 1].delivery]);
      assert s.deliveries[i := chain[n - 1].delivery] == last.deliveries;
      assert DeliveryStep(l, s, last, i);
      longer := shorter + [last];
    }
  }

  /** One more delivery arrives and makes the steps of the chain by itself. */
  lemma RunOn(l: Letter, run: seq<System>, chain: seq<Config<Delivery>>) returns (longer: seq<System>)
    requires l.filenames != [] && IsRun(l, run) && chain != [] && IsChain(l, chain)
    requires chain[0] == Config(START, run[|run| - 1].buckets)
    ensures IsRun(l, longer) && |longer| == |run| + |chain| && run <= longer
    ensures longer[|longer| - 1]
            == System(chain[|chain| - 1].buckets, run[|run| - 1].deliveries + [chain[|chain| - 1].delivery])
  {
    var prior := run[|run| - 1];
    var arrived := System(prior.buckets, prior.deliveries + [START]);
    assert SystemStep(l, prior, arrived);
    longer := GoOn(l, run + [arrived], |prior.deliveries|, chain);
    var d := chain[|chain| - 1].delivery;
    assert (prior.deliveries + [START])[|prior.deliveries| := d] == prior.deliveries + [d];
  }

  /** In some continuation of the run from state t, a delivery that starts after t sends a message. */
  ghost predicate ReportsLater(l: Letter, run: seq<System>, t: nat, longer: seq<System>, u: nat, i: nat)
    requires l.filenames != [] && t < |run|
  {
    && IsRun(l, longer) && t <= u < |longer| && longer[..t + 1] == run[..t + 1]
    && |run[t].deliveries| <= i < |longer[u].deliveries| && longer[u].deliveries[i].Sent?
  }

  /** From a state of a run, some later delivery can still send the letter's message if and only if every part is in the
      scan bucket and no two siblings have the same name, provided that the sanitiser answers for every file. */
  lemma LaterDeliveryCanReportIff(l: Letter, run: seq<System>, t: nat)
    requires l.filenames != [] && AnswersEveryFile(l) && IsRun(l, run) && t < |run|
    ensures (exists longer, u, i :: ReportsLater(l, run, t, longer, u, i)) <==>
              SiblingsDiffer(l) && AllPresent(l, run[t].buckets, 0)
  {
    if SiblingsDiffer(l) && AllPresent(l, run[t].buckets, 0) {
      var longer := SomeLaterReport(l, run, t);
    } else {
      forall longer, u, i
        ensures !ReportsLater(l, run, t, longer, u, i)
      {
        if ReportsLater(l, run, t, longer, u, i) {
          NoLaterReport(l, run, t, longer, u, i);
        }
      }
    }
  }

  lemma SomeLaterReport(l: Letter, run: seq<System>, t: nat) returns (longer: seq<System>)
    requires l.filenames != [] && AnswersEveryFile(l) && IsRun(l, run) && t < |run|
    requires SiblingsDiffer(l) && AllPresent(l, run[t].buckets, 0)
    ensures |longer| > 0 && ReportsLater(l, run, t, longer, |longer| - 1, |run[t].deliveries|)
  {
    var chain := FinishSanitising(l, [], None, run[t].buckets);
    var last := chain[|chain| - 1];
    var sent := Config(Sent(last.delivery.parts, last.delivery.payload), last.buckets);
    longer := RunOn(l, run[..t + 1], chain + [sent]);
  }

  lemma NoLaterReport(l: Letter, run: seq<System>, t: nat, longer: seq<System>, u: nat, i: nat)
    requires l.filenames != [] && t < |run| && ReportsLater(l, run, t, longer, u, i)
    ensures SiblingsDiffer(l) && AllPresent(l, run[t].buckets, 0)
  {
    if !SiblingsDiffer(l) {
      var j, k :| 1 <= j < k < |l.filenames| && l.filenames[j] == l.filenames[k];
      RepeatedSiblingStalls(l, j, k, longer, u);
    }
    assert longer[..t + 1][t] == run[..t + 1][t];
    if k :| 0 <= k < |l.filenames| && l.filenames[k] !in run[t].buckets.scan {
      assert MissingFrom(l, longer[t].buckets, 0, k);
      LateDeliveriesAreSilent(l, longer, t, u, i);
    }
  }
}

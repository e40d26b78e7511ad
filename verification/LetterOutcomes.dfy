/**
  Exactly when a letter of several parts can still get its outcome message, from any delivery: one that is under way or
  one that is still to come.
 */
module LetterOutcomes {
  import opened Options
  import opened PdfStitching
  import opened Sequences
  import opened Storage
  import opened CallHistory
  import opened LetterPartsProtocol
  import opened LetterPartsReporting
  import opened RepeatedNames

  ghost predicate SendsIn(l: Letter, run: seq<System>, longer: seq<System>, u: nat, i: nat)
    requires l.filenames != []
  {
    && IsRun(l, longer) && run <= longer && u < |longer|
    && i < |longer[u].deliveries| && longer[u].deliveries[i].Sent?
  }

  /** Some delivery has sent a message, or does so in some continuation of the run. */
  ghost predicate MessageIsPossible(l: Letter, run: seq<System>)
    requires l.filenames != []
  {
    exists longer, u, i :: SendsIn(l, run, longer, u, i)
  }

  /** Everything that the delivery still has to read is there. */
  ghost predicate CanFinish(l: Letter, b: Buckets, d: Delivery) {
    match d
    case Quarantining(k, copied, _) => AllPresent(l, b, if copied then k + 1 else k)
    case BackingUp(k, copied, _, _) => AllPresent(l, b, if copied then k + 1 else k)
    case Sending(_, _) => true
    case Sent(_, _) => true
    case Stopped => false
    case _ => AllPresent(l, b, 0)
  }

  ghost predicate SomeCanFinish(l: Letter, s: System) {
    exists i :: 0 <= i < |s.deliveries| && CanFinish(l, s.buckets, s.deliveries[i])
  }

  // ---------- What every reachable delivery looks like ----------

  ghost predicate WellShaped(l: Letter, d: Delivery) {
    match d
    case Sanitising(parts, _) => |parts| < |l.filenames|
    case Quarantining(k, _, _) => 1 <= k < |l.filenames|
    case BackingUp(k, _, _, _) => 1 <= k < |l.filenames|
    case _ => true
  }

  lemma {:induction false} AllWellShaped(l: Letter, run: seq<System>, t: nat)
    requires l.filenames != [] && IsRun(l, run) && t < |run|
    ensures forall i :: 0 <= i < |run[t].deliveries| ==> WellShaped(l, run[t].deliveries[i])
  {
    if t > 0 {
      AllWellShaped(l, run, t - 1);
      assert SystemStep(l, run[t - 1], run[t]);
    }
  }

  ghost predicate NoneGotPastStart(s: System) {
    forall i :: 0 <= i < |s.deliveries| ==> s.deliveries[i] == START || s.deliveries[i].Stopped?
  }

  lemma {:induction false} WithoutPartZeroNoneStarts(l: Letter, run: seq<System>, t: nat)
    requires l.filenames != [] && IsRun(l, run) && t < |run| && l.filenames[0] !in run[0].buckets.scan
    ensures NoneGotPastStart(run[t]) && l.filenames[0] !in run[t].buckets.scan
  {
    if t > 0 {
      WithoutPartZeroNoneStarts(l, run, t - 1);
      assert SystemStep(l, run[t - 1], run[t]);
    }
  }

  /** If it is only part 0 that is missing, it was never there. */
  lemma OnlyPartZeroMissing(l: Letter, run: seq<System>, t: nat)
    requires l.filenames != [] && IsRun(l, run) && t < |run|
    requires AllPresent(l, run[t].buckets, 1) && l.filenames[0] !in run[t].buckets.scan
    ensures NoneGotPastStart(run[t])
  {
    if l.filenames[0] in run[0].buckets.scan {
      StaysIfNeverNamed(l, run, t);
    } else {
      WithoutPartZeroNoneStarts(l, run, t);
    }
  }

  // ---------- No delivery can send ----------

  lemma UnfinishedIsDoomed(l: Letter, run: seq<System>, i: nat)
    requires l.filenames != [] && IsRun(l, run) && i < |run[|run| - 1].deliveries|
    requires !AllPresent(l, run[|run| - 1].buckets, 0)
    requires !CanFinish(l, run[|run| - 1].buckets, run[|run| - 1].deliveries[i])
    ensures Doomed(l, run[|run| - 1].buckets, run[|run| - 1].deliveries[i])
  {
    var b, d := run[|run| - 1].buckets, run[|run| - 1].deliveries[i];
    if !d.Stopped? {
      if AllPresent(l, b, 1) && (d.Sanitising? && d.parts != []) {
        OnlyPartZeroMissing(l, run, |run| - 1);
      } else {
        assert NextRead(d).Some? && !AllPresent(l, b, NextRead(d).value);
        var k :| NextRead(d).value <= k < |l.filenames| && l.filenames[k] !in b.scan;
        assert MissingFrom(l, b, NextRead(d).value, k);
      }
    }
  }

  lemma {:induction false} SentStaysSent(l: Letter, run: seq<System>, t: nat, u: nat, i: nat)
    requires l.filenames != [] && IsRun(l, run) && t <= u < |run| && i < |run[t].deliveries|
    requires run[t].deliveries[i].Sent?
    ensures i < |run[u].deliveries| && run[u].deliveries[i].Sent?
  {
    if u > t {
      SentStaysSent(l, run, t, u - 1, i);
      assert SystemStep(l, run[u - 1], run[u]);
    }
  }

  lemma AllDoomedMeansNone(l: Letter, run: seq<System>, longer: seq<System>, u: nat, i: nat)
    requires l.filenames != [] && IsRun(l, run) && SendsIn(l, run, longer, u, i)
    ensures !(PartMissing(l, run[|run| - 1].buckets) && LateOnesDoomed(l, run[|run| - 1], 0))
  {
    var t := |run| - 1;
    assert longer[t] == run[t];
    if u <= t {
      SentStaysSent(l, longer, u, t, i);
    } else if PartMissing(l, run[t].buckets) && LateOnesDoomed(l, run[t], 0) {
      LateOnesStayDoomed(l, longer, t, u, 0);
    }
  }

  lemma MessageNeedsFiles(l: Letter, run: seq<System>)
    requires l.filenames != [] && IsRun(l, run) && MessageIsPossible(l, run)
    ensures SiblingsDiffer(l)
    ensures AllPresent(l, run[|run| - 1].buckets, 0) || SomeCanFinish(l, run[|run| - 1])
  {
    var s := run[|run| - 1];
    var longer, u, i :| SendsIn(l, run, longer, u, i);
    if !SiblingsDiffer(l) {
      var j, k :| 1 <= j < k < |l.filenames| && l.filenames[j] == l.filenames[k];
      RepeatedSiblingStalls(l, j, k, longer, u);
    }
    if !AllPresent(l, s.buckets, 0) && !SomeCanFinish(l, s) {
      forall n | 0 <= n < |s.deliveries|
        ensures Doomed(l, s.buckets, s.deliveries[n])
      {
        UnfinishedIsDoomed(l, run, n);
      }
      var k :| 0 <= k < |l.filenames| && l.filenames[k] !in s.buckets.scan;
      assert MissingFrom(l, s.buckets, 0, k);
      AllDoomedMeansNone(l, run, longer, u, i);
    }
  }

  // ---------- Some delivery can send ----------

  lemma Finish(l: Letter, d: Delivery, b: Buckets) returns (chain: seq<Config<Delivery>>)
    requires l.filenames != [] && SiblingsDiffer(l) && AnswersEveryFile(l)
    requires WellShaped(l, d) && CanFinish(l, b, d) && !d.Sent?
    ensures ReachesSending(l, d, b, chain)
  {
    match d
    case Sanitising(parts, address) => chain := FinishSanitising(l, parts, address, b);
    case Quarantining(k, false, p) => chain := FinishQuarantine(l, k, p, b);
    case Quarantining(k, true, p) =>
      var dropped := b.DropFromScan(l.filenames[k]);
      StillPresent(l, b, dropped, k);
      chain := FinishQuarantine(l, k + 1, p, dropped);
      chain := Prepend(l, d, b, chain);
    case Uploading(parts, p) => chain := FinishUpload(l, parts, p, b);
    case BackingUpFirst(parts, p) =>
      chain := FinishBackup(l, 1, parts, p, b.Put(Backup, l.backupKey(0), b.scan[l.filenames[0]]));
      chain := Prepend(l, d, b, chain);
    case BackingUp(k, false, parts, p) => chain := FinishBackup(l, k, parts, p, b);
    case BackingUp(k, true, parts, p) =>
      var dropped := b.DropFromScan(l.filenames[k]);
      StillPresent(l, b, dropped, k);
      chain := FinishBackup(l, k + 1, parts, p, dropped);
      chain := Prepend(l, d, b, chain);
    case Sending(_, _) => chain := [Config(d, b)];
  }

  lemma FinishingSends(l: Letter, run: seq<System>, i: nat)
    requires l.filenames != [] && SiblingsDiffer(l) && AnswersEveryFile(l) && IsRun(l, run)
    requires i < |run[|run| - 1].deliveries|
    requires CanFinish(l, run[|run| - 1].buckets, run[|run| - 1].deliveries[i])
    ensures MessageIsPossible(l, run)
  {
    var s := run[|run| - 1];
    if s.deliveries[i].Sent? {
      assert SendsIn(l, run, run, |run| - 1, i);
    } else {
      AllWellShaped(l, run, |run| - 1);
      var chain := Finish(l, s.deliveries[i], s.buckets);
      var last := chain[|chain| - 1];
      var sent := Config(Sent(last.delivery.parts, last.delivery.payload), last.buckets);
      var longer := GoOn(l, run, i, chain + [sent]);
      assert SendsIn(l, run, longer, |longer| - 1, i);
    }
  }

  /** For every run, and so from every reachable state: a message has been sent or some delivery can still send one, if
      and only if no two siblings have one name and either every part is in the scan bucket or some delivery under way
      finds there all that it still has to read. The sanitiser is taken to answer for every file. */
  lemma MessageIsPossibleIff(l: Letter, run: seq<System>)
    requires l.filenames != [] && AnswersEveryFile(l) && IsRun(l, run)
    ensures MessageIsPossible(l, run) <==>
              && SiblingsDiffer(l)
              && (AllPresent(l, run[|run| - 1].buckets, 0) || SomeCanFinish(l, run[|run| - 1]))
  {
    var s := run[|run| - 1];
    if MessageIsPossible(l, run) {
      MessageNeedsFiles(l, run);
    }
    if SiblingsDiffer(l) && AllPresent(l, s.buckets, 0) {
      var longer := SomeLaterReport(l, run, |run| - 1);
      assert run[..|run|] == run && longer[..|run|] == run;
      assert SendsIn(l, run, longer, |longer| - 1, |s.deliveries|);
    } else if SiblingsDiffer(l) && SomeCanFinish(l, s) {
      var i :| 0 <= i < |s.deliveries| && CanFinish(l, s.buckets, s.deliveries[i]);
      FinishingSends(l, run, i);
    }
  }

  /** Every letter of two or more parts with distinct names can be left without an outcome for good: a delivery moves
      the siblings away and stops before it sends its message. */
  lemma LetterCanBeStranded(l: Letter, b: Buckets) returns (run: seq<System>)
    requires l.Valid() && |l.filenames| >= 2 && AnswersEveryFile(l) && AllPresent(l, b, 0)
    ensures IsRun(l, run) && run[0] == System(b, []) && !MessageIsPossible(l, run)
  {
    NamesDiffer(l);
    var chain := FinishSanitising(l, [], None, b);
    var last := chain[|chain| - 1];
    var ready := RunOn(l, [System(b, [])], chain);
    InvariantHolds(l, ready, |ready| - 1);
    assert ready[|ready| - 1].deliveries[0] == last.delivery;
    assert l.filenames[1] !in last.buckets.scan;
    run := RunOn(l, [System(b, [])], chain + [Config(Stopped, last.buckets)]);
    MessageIsPossibleIff(l, run);
  }

  lemma NamesDiffer(l: Letter)
    requires l.Valid()
    ensures SiblingsDiffer(l)
  {
    forall i, k | 1 <= i < k < |l.filenames|
      ensures l.filenames[i] != l.filenames[k]
    {
      assert l.Differ(i, k);
    }
  }
}

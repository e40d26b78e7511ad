/**
  What happens to a letter whose list of filenames names a file twice. The task does not check for this; nothing here
  asks for distinct names.
 */
module RepeatedNames {
  import opened Options
  import opened Storage
  import opened Verdicts
  import opened CallHistory
  import opened LetterPartsProtocol
  import opened LetterPartsReporting

  ghost predicate KeysDiffer(l: Letter) {
    forall j, k :: 0 <= j < k < |l.filenames| ==> l.backupKey(j) != l.backupKey(k)
  }

  // ---------- No bytes are lost ----------

  /** The original bytes of the sibling are under its own backup key, or in the invalid bucket under its name. */
  ghost predicate Kept(l: Letter, orig: Objects, b: Buckets, k: nat)
    requires k < |l.filenames|
  {
    Backed(l, orig, b, k) || SetAside(l, orig, b, k)
  }

  ghost predicate NameKept(l: Letter, orig: Objects, b: Buckets, name: string) {
    exists k :: 1 <= k < |l.filenames| && l.filenames[k] == name && Kept(l, orig, b, k)
  }

  ghost predicate ScanIsOriginal(orig: Objects, b: Buckets) {
    forall name :: name in b.scan ==> name in orig && b.scan[name] == orig[name]
  }

  ghost predicate BytesKept(l: Letter, orig: Objects, b: Buckets) {
    ScanIsOriginal(orig, b) && forall name :: name in orig && name !in b.scan ==> NameKept(l, orig, b, name)
  }

  /** A delivery about to delete a sibling has copied it. */
  ghost predicate HasCopied(l: Letter, orig: Objects, b: Buckets, d: Delivery) {
    match d
    case Quarantining(k, copied, _) => 1 <= k && (copied ==> k < |l.filenames| && SetAside(l, orig, b, k))
    case BackingUp(k, copied, _, _) => 1 <= k && (copied ==> k < |l.filenames| && Backed(l, orig, b, k))
    case _ => true
  }

  ghost predicate BytesInvariant(l: Letter, orig: Objects, s: System) {
    && BytesKept(l, orig, s.buckets)
    && forall i :: 0 <= i < |s.deliveries| ==> HasCopied(l, orig, s.buckets, s.deliveries[i])
  }

  ghost predicate KeepsCopies(l: Letter, orig: Objects, b: Buckets, b': Buckets) {
    forall k :: 0 <= k < |l.filenames| ==>
      && (Backed(l, orig, b, k) ==> Backed(l, orig, b', k)) && (SetAside(l, orig, b, k) ==> SetAside(l, orig, b', k))
  }

  /** Only siblings are ever deleted, and only when they are next. */
  lemma StepDeletesNext(l: Letter, d: Delivery, b: Buckets, d': Delivery, b': Buckets, name: string)
    requires l.filenames != [] && Step(l, d, b, d', b') && name in b.scan && name !in b'.scan
    ensures (d.Quarantining? || d.BackingUp?) && d.copied && d.next < |l.filenames| && l.filenames[d.next] == name
  {
  }

  lemma StepKeepsBacked(l: Letter, orig: Objects, d: Delivery, b: Buckets, d': Delivery, b': Buckets, k: nat)
    requires l.filenames != [] && KeysDiffer(l) && ScanIsOriginal(orig, b) && Step(l, d, b, d', b')
    requires k < |l.filenames| && Backed(l, orig, b, k)
    ensures Backed(l, orig, b', k)
  {
  }

  lemma StepKeepsSetAside(l: Letter, orig: Objects, d: Delivery, b: Buckets, d': Delivery, b': Buckets, k: nat)
    requires l.filenames != [] && ScanIsOriginal(orig, b) && Step(l, d, b, d', b')
    requires k < |l.filenames| && SetAside(l, orig, b, k)
    ensures SetAside(l, orig, b', k)
  {
  }

  /** No step overwrites a copy with anything else. */
  lemma StepKeepsCopies(l: Letter, orig: Objects, d: Delivery, b: Buckets, d': Delivery, b': Buckets)
    requires l.filenames != [] && KeysDiffer(l) && ScanIsOriginal(orig, b) && Step(l, d, b, d', b')
    ensures KeepsCopies(l, orig, b, b')
  {
    forall k | 0 <= k < |l.filenames|
      ensures Backed(l, orig, b, k) ==> Backed(l, orig, b', k)
      ensures SetAside(l, orig, b, k) ==> SetAside(l, orig, b', k)
    {
      if Backed(l, orig, b, k) {
        StepKeepsBacked(l, orig, d, b, d', b', k);
      }
      if SetAside(l, orig, b, k) {
        StepKeepsSetAside(l, orig, d, b, d', b', k);
      }
    }
  }

  lemma StepHasCopied(l: Letter, orig: Objects, d: Delivery, b: Buckets, d': Delivery, b': Buckets)
    requires l.filenames != [] && ScanIsOriginal(orig, b) && HasCopied(l, orig, b, d) && Step(l, d, b, d', b')
    ensures HasCopied(l, orig, b', d')
  {
  }

  lemma StepKeepsScanOriginal(l: Letter, orig: Objects, d: Delivery, b: Buckets, d': Delivery, b': Buckets)
    requires l.filenames != [] && ScanIsOriginal(orig, b) && Step(l, d, b, d', b')
    ensures ScanIsOriginal(orig, b')
  {
  }

  lemma StepKeepsBytes(l: Letter, orig: Objects, d: Delivery, b: Buckets, d': Delivery, b': Buckets)
    requires l.filenames != [] && KeysDiffer(l) && BytesKept(l, orig, b) && Step(l, d, b, d', b')
    requires HasCopied(l, orig, b, d)
    ensures KeepsCopies(l, orig, b, b') && BytesKept(l, orig, b') && HasCopied(l, orig, b', d')
  {
    StepKeepsCopies(l, orig, d, b, d', b');
    StepHasCopied(l, orig, d, b, d', b');
    StepKeepsScanOriginal(l, orig, d, b, d', b');
    forall name | name in orig && name !in b'.scan
      ensures NameKept(l, orig, b', name)
    {
      var k: nat;
      if name in b.scan {
        StepDeletesNext(l, d, b, d', b', name);
        k := d.next;
      } else {
        k :| 1 <= k < |l.filenames| && l.filenames[k] == name && Kept(l, orig, b, k);
      }
      assert Kept(l, orig, b', k);
    }
  }

  lemma SystemStepKeepsBytes(l: Letter, orig: Objects, s: System, s': System)
    requires l.filenames != [] && KeysDiffer(l) && BytesInvariant(l, orig, s) && SystemStep(l, s, s')
    ensures BytesInvariant(l, orig, s')
  {
    if s' != System(s.buckets, s.deliveries + [START]) {
      var i :| DeliveryStep(l, s, s', i);
      StepKeepsBytes(l, orig, s.deliveries[i], s.buckets, s'.deliveries[i], s'.buckets);
    }
  }

  lemma {:induction false} BytesInvariantHolds(l: Letter, run: seq<System>, t: nat)
    requires l.filenames != [] && KeysDiffer(l) && IsRun(l, run) && t < |run|
    ensures BytesInvariant(l, run[0].buckets.scan, run[t])
  {
    if t > 0 {
      BytesInvariantHolds(l, run, t - 1);
      SystemStepKeepsBytes(l, run[0].buckets.scan, run[t - 1], run[t]);
    }
  }

  /** Whatever the names are, no bytes are lost: in every state of every run each object that was there is still in the
      scan bucket, or is a sibling's and is under that sibling's backup key or in the invalid bucket under its name. */
  lemma NoBytesAreLost(l: Letter, run: seq<System>, t: nat, name: string)
    requires l.filenames != [] && KeysDiffer(l) && IsRun(l, run) && t < |run| && name in run[0].buckets.scan
    ensures var orig, b := run[0].buckets.scan, run[t].buckets;
            || b.Holds(Scan, name, orig[name])
            || exists k :: 1 <= k < |l.filenames| && l.filenames[k] == name
                           && (b.Holds(Backup, l.backupKey(k), orig[name]) || b.Holds(Invalid, name, orig[name]))
  {
    BytesInvariantHolds(l, run, t);
    if name !in run[t].buckets.scan {
      assert NameKept(l, run[0].buckets.scan, run[t].buckets, name);
    }
  }

  // ---------- A sibling named twice ----------

  /** The two maps agree on the key. */
  ghost predicate SameAt(a: Objects, b: Objects, key: string) {
    (key in a <==> key in b) && (key in a ==> a[key] == b[key])
  }

  /** With one name for two siblings the letter never gets a message, from any delivery, and the second of the two is
      never backed up under its own key. */
  lemma {:induction false} RepeatedSiblingIsNeverReported(l: Letter, i: nat, k: nat, run: seq<System>, t: nat)
    requires Repeated(l, i, k) && KeysDiffer(l) && IsRun(l, run) && t < |run|
    ensures forall n :: 0 <= n < |run[t].deliveries| ==> !run[t].deliveries[n].Sent?
    ensures SameAt(run[0].buckets.backup, run[t].buckets.backup, l.backupKey(k))
  {
    RepeatedSiblingStalls(l, i, k, run, t);
    if t > 0 {
      RepeatedSiblingIsNeverReported(l, i, k, run, t - 1);
      RepeatedSiblingStalls(l, i, k, run, t - 1);
      var s, s' := run[t - 1], run[t];
      if s' != System(s.buckets, s.deliveries + [START]) {
        var n :| DeliveryStep(l, s, s', n);
        StalledLeavesKeyAlone(l, i, k, s.deliveries[n], s.buckets, s'.deliveries[n], s'.buckets);
      }
    }
  }

  lemma StalledLeavesKeyAlone(l: Letter, i: nat, k: nat, d: Delivery, b: Buckets, d': Delivery, b': Buckets)
    requires Repeated(l, i, k) && KeysDiffer(l) && Stalled(l, i, k, b, d) && Step(l, d, b, d', b')
    ensures SameAt(b.backup, b'.backup, l.backupKey(k))
  {
  }

  // ---------- Part 0 named again as a sibling ----------

  ghost predicate DifferUpTo(l: Letter, j: nat)
    requires j < |l.filenames|
  {
    forall i, k :: 1 <= i < k <= j ==> l.filenames[i] != l.filenames[k]
  }

  /** Some sibling has part 0's name, and no two siblings up to there have the same. */
  ghost predicate FirstNameComesUp(l: Letter)
    requires l.filenames != []
  {
    exists j: nat :: 1 <= j < |l.filenames| && l.filenames[j] == l.filenames[0] && DifferUpTo(l, j)
  }

  /** A run in which part 0 is there to begin with, and a point of it. */
  ghost predicate IsRunOf(l: Letter, run: seq<System>, t: nat) {
    l.filenames != [] && IsRun(l, run) && t < |run| && l.filenames[0] in run[0].buckets.scan
  }

  ghost predicate PartZeroStays(l: Letter)
    requires l.filenames != []
  {
    forall run: seq<System>, t: nat :: IsRunOf(l, run, t) ==> l.filenames[0] in run[t].buckets.scan
  }

  ghost predicate Numbered(d: Delivery) { d.Quarantining? || d.BackingUp? ==> d.next >= 1 }

  lemma {:induction false} StaysIfNeverNamed(l: Letter, run: seq<System>, t: nat)
    requires IsRunOf(l, run, t) && forall j :: 1 <= j < |l.filenames| ==> l.filenames[j] != l.filenames[0]
    ensures forall n :: 0 <= n < |run[t].deliveries| ==> Numbered(run[t].deliveries[n])
    ensures l.filenames[0] in run[t].buckets.scan
  {
    if t > 0 {
      StaysIfNeverNamed(l, run, t - 1);
      var s, s' := run[t - 1], run[t];
      assert SystemStep(l, s, s');
      if s' != System(s.buckets, s.deliveries + [START]) {
        var n :| DeliveryStep(l, s, s', n);
        if l.filenames[0] !in s'.buckets.scan {
          StepDeletesNext(l, s.deliveries[n], s.buckets, s'.deliveries[n], s'.buckets, l.filenames[0]);
        }
      }
    }
  }

  lemma {:induction false} StaysBehindRepeat(l: Letter, i: nat, k: nat, run: seq<System>, t: nat)
    requires Repeated(l, i, k) && IsRunOf(l, run, t)
    requires forall j :: 1 <= j < k ==> l.filenames[j] != l.filenames[0]
    ensures l.filenames[0] in run[t].buckets.scan
  {
    if t > 0 {
      StaysBehindRepeat(l, i, k, run, t - 1);
      RepeatedSiblingStalls(l, i, k, run, t - 1);
      var s, s' := run[t - 1], run[t];
      assert SystemStep(l, s, s');
      if l.filenames[0] !in s'.buckets.scan {
        var n :| DeliveryStep(l, s, s', n);
        StepDeletesNext(l, s.deliveries[n], s.buckets, s'.deliveries[n], s'.buckets, l.filenames[0]);
      }
    }
  }

  lemma {:induction false} FirstOccurrence(l: Letter, j: nat) returns (first: nat)
    requires 1 <= j < |l.filenames| && l.filenames[j] == l.filenames[0]
    ensures 1 <= first <= j && l.filenames[first] == l.filenames[0]
    ensures forall x :: 1 <= x < first ==> l.filenames[x] != l.filenames[0]
  {
    if x :| 1 <= x < j && l.filenames[x] == l.filenames[0] {
      first := FirstOccurrence(l, x);
    } else {
      first := j;
    }
  }

  lemma StaysUnlessItComesUp(l: Letter, run: seq<System>, t: nat)
    requires IsRunOf(l, run, t) && !FirstNameComesUp(l)
    ensures l.filenames[0] in run[t].buckets.scan
  {
    if j: nat :| 1 <= j < |l.filenames| && l.filenames[j] == l.filenames[0] {
      var first := FirstOccurrence(l, j);
      assert !DifferUpTo(l, first);
      var i, k :| 1 <= i < k <= first && l.filenames[i] == l.filenames[k];
      StaysBehindRepeat(l, i, k, run, t);
    } else {
      StaysIfNeverNamed(l, run, t);
    }
  }

  /** Quarantining goes on as long as the names differ. */
  lemma {:induction false} QuarantineThrough(l: Letter, k: nat, j: nat, p: Payload, b: Buckets)
    returns (chain: seq<Config<Delivery>>)
    requires 1 <= k <= j < |l.filenames| && DifferUpTo(l, j)
    requires forall x :: k <= x <= j ==> l.filenames[x] in b.scan
    ensures chain != [] && IsChain(l, chain) && chain[0] == Config(Quarantining(k, false, p), b)
    ensures l.filenames[j] !in chain[|chain| - 1].buckets.scan
    decreases j - k
  {
    var copied := b.Put(Invalid, l.filenames[k], b.scan[l.filenames[k]]);
    var dropped := copied.DropFromScan(l.filenames[k]);
    chain := [Config(NextQuarantine(l, k + 1, p), dropped)];
    if k < j {
      chain := QuarantineThrough(l, k + 1, j, p, dropped);
    }
    chain := Prepend(l, Quarantining(k, true, p), copied, chain);
    chain := Prepend(l, Quarantining(k, false, p), b, chain);
  }

  /** A run in which part 0 is refused and then taken away as a sibling. */
  lemma RunThatTakesPartZero(l: Letter, j: nat, b: Buckets, refusal: Verdict) returns (run: seq<System>)
    requires 1 <= j < |l.filenames| && l.filenames[j] == l.filenames[0] && DifferUpTo(l, j) && AllPresent(l, b, 0)
    requires refusal.Failed? && l.admits(b.scan[l.filenames[0]], false, refusal)
    ensures IsRun(l, run) && run[0] == System(b, []) && l.filenames[0] !in run[|run| - 1].buckets.scan
  {
    var p := FailurePayload(l, refusal, None);
    var chain := QuarantineThrough(l, 1, j, p, b);
    assert AfterVerdict(l, [], None, refusal) == Quarantining(1, false, p);
    chain := Prepend(l, START, b, chain);
    run := RunOn(l, [System(b, [])], chain);
    assert run[..1][0] == run[0];
  }

  ghost predicate MayRefuseFirst(l: Letter) {
    exists file, v :: RefusesFirst(l, file, v)
  }

  ghost predicate RefusesFirst(l: Letter, file: File, v: Verdict) {
    v.Failed? && l.admits(file, false, v)
  }

  /** Part 0 stays in the scan bucket in every run, for whoever is told to deal with it there, if and only if its name
      does not come up again among the siblings before some other sibling's name is repeated, provided that some file
      may be refused as part 0. */
  lemma PartZeroStaysIff(l: Letter)
    requires l.filenames != [] && MayRefuseFirst(l)
    ensures PartZeroStays(l) <==> !FirstNameComesUp(l)
  {
    if FirstNameComesUp(l) {
      var j: nat :| 1 <= j < |l.filenames| && l.filenames[j] == l.filenames[0] && DifferUpTo(l, j);
      var file, refusal :| RefusesFirst(l, file, refusal);
      var b := Buckets(map name | name in l.filenames :: file, map[], map[], map[], map[], map[]);
      var run := RunThatTakesPartZero(l, j, b, refusal);
      assert IsRunOf(l, run, |run| - 1);
    } else {
      forall run: seq<System>, t: nat | IsRunOf(l, run, t)
        ensures l.filenames[0] in run[t].buckets.scan
      {
        StaysUnlessItComesUp(l, run, t);
      }
    }
  }

  /** For letters of up to three parts, as documented, the condition is that part 0's name is not repeated at all. */
  lemma UpToThreePartsIff(l: Letter)
    requires 1 <= |l.filenames| <= 3
    ensures FirstNameComesUp(l) <==> l.filenames[0] in l.filenames[1..]
  {
    if j: nat :| 1 <= j < |l.filenames| && l.filenames[j] == l.filenames[0] {
      var first := FirstOccurrence(l, j);
      assert DifferUpTo(l, first);
      assert l.filenames[1..][j - 1] == l.filenames[0];
    }
  }

  /** For longer ones it is not: a repeat among other siblings stops every delivery before it gets to part 0's name. */
  lemma EarlierRepeatShieldsPartZero(l: Letter, first: string, other: string)
    requires l.filenames == [first, other, other, first] && first != other
    ensures l.filenames[0] in l.filenames[1..] && PartZeroStays(l)
  {
    assert l.filenames[1..][2] == first;
    assert Repeated(l, 1, 2);
    forall run: seq<System>, t: nat | IsRunOf(l, run, t)
      ensures l.filenames[0] in run[t].buckets.scan
    {
      StaysBehindRepeat(l, 1, 2, run, t);
    }
  }
}

/**
  The task sanitise_and_merge_letter_parts of app/celery/tasks.py and its two helpers, call by call. Each delivery
  returns its own history as a run of the protocol's steps, so everything proved of the protocol holds of it.
 */
module LetterParts {
  import opened Options
  import opened PdfStitching
  import opened Sequences
  import opened Storage
  import opened Verdicts
  import opened BackupKeys
  import opened CallHistory
  import opened LetterPartsProtocol
  import opened RepeatedNames

  /** The task backs up part 0 as "id.pdf" and the siblings as "id.part2.pdf", "id.part3.pdf" and so on. */
  ghost predicate UsesBackupKeys(l: Letter) {
    forall k :: l.backupKey(k) == BackupKey(l.id, k)
  }

  ghost predicate DistinctNames(l: Letter) {
    l.filenames != [] && forall j, k :: 0 <= j < k < |l.filenames| ==> l.filenames[j] != l.filenames[k]
  }

  lemma TheseKeysDiffer(l: Letter)
    requires UsesBackupKeys(l)
    ensures KeysDiffer(l)
  {
    forall j, k | 0 <= j < k < |l.filenames|
      ensures l.backupKey(j) != l.backupKey(k)
    {
      if l.backupKey(j) == l.backupKey(k) {
        BackupKeysAreDistinct(l.id, j, k);
      }
    }
  }

  /** With these keys, distinct names are all that the protocol asks for. */
  lemma DistinctNamesSuffice(l: Letter)
    requires UsesBackupKeys(l) && DistinctNames(l)
    ensures l.Valid()
  {
    TheseKeysDiffer(l);
  }

  /** The run explains everything that aws has seen since its history was before: one step for every call. */
  ghost predicate Explains(l: Letter, run: seq<Config<Delivery>>, aws: Aws<Payload>, before: seq<Buckets>)
    requires l.filenames != []
    reads aws
  {
    IsChain(l, run) && Accounts(run, aws, before)
  }

  ghost function Extend(l: Letter, run: seq<Config<Delivery>>, d: Delivery, b: Buckets): (longer: seq<Config<Delivery>>)
    requires l.filenames != [] && run != [] && IsChain(l, run)
    requires Step(l, At(run), run[|run| - 1].buckets, d, b)
    ensures run <= longer && IsChain(l, longer) && longer[|longer| - 1] == Config(d, b)
    ensures BucketsOf(longer)[1..] == BucketsOf(run)[1..] + [b]
  {
    Grow(run, d, b)
  }

  /** Copies every sibling to the invalid bucket and deletes it from the scan bucket, in order. */
  method CleanupLetterPartScanObjects(aws: Aws<Payload>, l: Letter, p: Payload, ghost soFar: seq<Config<Delivery>>,
                                      ghost before: seq<Buckets>)
    returns (ok: bool, ghost run: seq<Config<Delivery>>)
    requires l.filenames != [] && Explains(l, soFar, aws, before) && At(soFar) == NextQuarantine(l, 1, p)
    modifies aws
    ensures aws.sent == old(aws.sent) && soFar <= run && Explains(l, run, aws, before)
    ensures At(run) == if ok then Sending([], p) else Stopped
    ensures aws.failures == old(aws.failures) + (if ok then 0 else 1) && aws.failedSends == old(aws.failedSends)
    ensures !ok ==> aws.lastRaised
  {
    run := soFar;
    for k := 1 to |l.filenames|
      invariant aws.sent == old(aws.sent) && soFar <= run && Explains(l, run, aws, before)
      invariant At(run) == NextQuarantine(l, k, p) && aws.failures == old(aws.failures)
      invariant aws.failedSends == old(aws.failedSends)
    {
      ok := aws.CopyFromScan(l.filenames[k], Invalid, l.filenames[k]);
      run := Extend(l, run, if ok then Quarantining(k, true, p) else Stopped, aws.buckets);
      if !ok {
        return;
      }
      ok := aws.DeleteFromScan(l.filenames[k]);
      run := Extend(l, run, if ok then NextQuarantine(l, k + 1, p) else Stopped, aws.buckets);
      if !ok {
        return;
      }
    }
    ok := true;
  }

  /** Copies one sibling to its own backup key and deletes it from the scan bucket. */
  method BackUpOne(aws: Aws<Payload>, l: Letter, k: nat, parts: seq<seq<Page>>, p: Payload,
                   ghost soFar: seq<Config<Delivery>>, ghost before: seq<Buckets>)
    returns (ok: bool, ghost run: seq<Config<Delivery>>)
    requires 1 <= k < |l.filenames| && l.backupKey(k) == BackupKey(l.id, k)
    requires Explains(l, soFar, aws, before) && At(soFar) == BackingUp(k, false, parts, p)
    modifies aws
    ensures aws.sent == old(aws.sent) && soFar <= run && Explains(l, run, aws, before)
    ensures At(run) == if ok then NextBackup(l, k + 1, parts, p) else Stopped
    ensures aws.failures == old(aws.failures) + (if ok then 0 else 1) && aws.failedSends == old(aws.failedSends)
    ensures !ok ==> aws.lastRaised
  {
    var partNumber := k + 1;
    ok := aws.CopyFromScan(l.filenames[k], Backup, l.id + ".part" + Decimal(partNumber) + ".pdf");
    run := Extend(l, soFar, if ok then BackingUp(k, true, parts, p) else Stopped, aws.buckets);
    if !ok {
      return;
    }
    ok := aws.DeleteFromScan(l.filenames[k]);
    run := Extend(l, run, if ok then NextBackup(l, k + 1, parts, p) else Stopped, aws.buckets);
  }

  /** Copies every sibling to its own backup key and deletes it from the scan bucket, in order. */
  method BackupLetterPartScanObjects(aws: Aws<Payload>, l: Letter, parts: seq<seq<Page>>, p: Payload,
                                     ghost soFar: seq<Config<Delivery>>, ghost before: seq<Buckets>)
    returns (ok: bool, ghost run: seq<Config<Delivery>>)
    requires l.filenames != [] && UsesBackupKeys(l)
    requires Explains(l, soFar, aws, before) && At(soFar) == NextBackup(l, 1, parts, p)
    modifies aws
    ensures aws.sent == old(aws.sent) && soFar <= run && Explains(l, run, aws, before)
    ensures At(run) == if ok then Sending(parts, p) else Stopped
    ensures aws.failures == old(aws.failures) + (if ok then 0 else 1) && aws.failedSends == old(aws.failedSends)
    ensures !ok ==> aws.lastRaised
  {
    run := soFar;
    for k := 1 to |l.filenames|
      invariant aws.sent == old(aws.sent) && soFar <= run && Explains(l, run, aws, before)
      invariant At(run) == NextBackup(l, k, parts, p) && aws.failures == old(aws.failures)
      invariant aws.failedSends == old(aws.failedSends)
    {
      ok, run := BackUpOne(aws, l, k, parts, p, run, before);
      if !ok {
        return;
      }
    }
    ok := true;
  }

  /** Downloads and sanitises the parts in order up to the first refusal. */
  method SanitiseParts(aws: Aws<Payload>, l: Letter, sanitise: (File, bool) -> Verdict, ghost before: seq<Buckets>)
    returns (ok: bool, parts: seq<seq<Page>>, address: Option<string>, refusal: Option<Verdict>,
             ghost run: seq<Config<Delivery>>)
    requires l.filenames != [] && before == aws.history
    requires forall file, attachment :: l.admits(file, attachment, sanitise(file, attachment))
    modifies aws
    ensures aws.sent == old(aws.sent) && Explains(l, run, aws, before) && run[0] == Config(START, old(aws.buckets))
    ensures !ok ==> At(run).Stopped?
    ensures ok && refusal.Some? ==>
              refusal.value.Failed? && At(run) == NextQuarantine(l, 1, FailurePayload(l, refusal.value, address))
    ensures ok && refusal.None? ==> parts != [] && At(run) == AfterAllPassed(l, parts, address)
    ensures aws.failures == old(aws.failures) + (if ok then 0 else 1) && aws.failedSends == old(aws.failedSends)
    ensures !ok ==> aws.lastRaised
  {
    run := [Config(START, aws.buckets)];
    parts, address, refusal := [], None, None;
    for n := 0 to |l.filenames|
      invariant aws.sent == old(aws.sent) && Explains(l, run, aws, before) && run[0] == Config(START, old(aws.buckets))
      invariant |parts| == n && refusal.None? && aws.failures == old(aws.failures)
      invariant aws.failedSends == old(aws.failedSends)
      invariant At(run) == if n < |l.filenames| then Sanitising(parts, address) else AfterAllPassed(l, parts, address)
    {
      var content := aws.Download(l.filenames[n]);
      if content.None? {
        run := Extend(l, run, Stopped, aws.buckets);
        ok := false;
        return;
      }
      var details := sanitise(content.value, n > 0);
      assert l.admits(content.value, n > 0, details);
      run := Extend(l, run, AfterVerdict(l, parts, address, details), aws.buckets);
      if details.Failed? {
        refusal := Some(details);
        ok := true;
        return;
      }
      parts := parts + [details.document];
      if n == 0 {
        address := details.address;
      }
    }
    ok := true;
  }

  /** The upload of the merged letter, then the backup of part 0, then that of the siblings. */
  method StoreAndBackUp(aws: Aws<Payload>, l: Letter, parts: seq<seq<Page>>, merged: seq<Page>, p: Payload,
                        ghost soFar: seq<Config<Delivery>>, ghost before: seq<Buckets>)
    returns (ok: bool, ghost run: seq<Config<Delivery>>)
    requires l.filenames != [] && UsesBackupKeys(l) && Explains(l, soFar, aws, before)
    requires At(soFar) == Uploading(parts, p) && merged == Flatten(parts)
    modifies aws
    ensures aws.sent == old(aws.sent) && soFar <= run && Explains(l, run, aws, before)
    ensures At(run) == if ok then Sending(parts, p) else Stopped
    ensures aws.failures == old(aws.failures) + (if ok then 0 else 1) && aws.failedSends == old(aws.failedSends)
    ensures !ok ==> aws.lastRaised
  {
    run := soFar;
    ok := aws.UploadTo(Sanitised, l.filenames[0], Document(merged));
    run := Extend(l, run, if ok then BackingUpFirst(parts, p) else Stopped, aws.buckets);
    if !ok {
      return;
    }
    assert l.backupKey(0) == BackupKey(l.id, 0);
    ok := aws.CopyFromScan(l.filenames[0], Backup, l.id + ".pdf");
    run := Extend(l, run, if ok then NextBackup(l, 1, parts, p) else Stopped, aws.buckets);
    if !ok {
      return;
    }
    ok, run := BackupLetterPartScanObjects(aws, l, parts, p, run, before);
  }

  /** One delivery of the Celery task. sanitise is what the sanitiser answers during this delivery. Its
      message is on the queue unless one call failed, which is then its last; no S3 call fails before a message. */
  method SanitiseAndMergeLetterParts(aws: Aws<Payload>, l: Letter, sanitise: (File, bool) -> Verdict)
    returns (ghost run: seq<Config<Delivery>>)
    requires l.filenames != [] && UsesBackupKeys(l)
    requires forall file, attachment :: l.admits(file, attachment, sanitise(file, attachment))
    modifies aws
    ensures Explains(l, run, aws, old(aws.history))
    ensures run[0] == Config(START, old(aws.buckets))
    ensures At(run).Sent? || At(run).Stopped?
    ensures aws.sent == old(aws.sent) + if At(run).Sent? then [At(run).payload] else []
    ensures At(run).Sent? ==> aws.failures == old(aws.failures)
    ensures aws.Raised() == old(aws.Raised()) + if aws.lastRaised then 1 else 0
    ensures At(run).Stopped? ==> aws.lastRaised
  {
    ghost var before := aws.history;
    var ok, parts, recipientAddress, refusal;
    ok, parts, recipientAddress, refusal, run := SanitiseParts(aws, l, sanitise, before);
    if !ok {
      return;
    }
    var payload: Payload;
    if refusal.Some? {
      payload := FailurePayload(l, refusal.value, recipientAddress);
      ok, run := CleanupLetterPartScanObjects(aws, l, payload, run, before);
    } else {
      var merged := MergeLetterParts(parts);
      var totalPageCount := |merged|;
      if totalPageCount > LETTER_MAX_PAGE_COUNT {
        payload := Payload(Some(totalPageCount), Some("letter-too-long"), None, false, l.filenames[0], l.id,
                           recipientAddress);
        ok, run := CleanupLetterPartScanObjects(aws, l, payload, run, before);
      } else {
        payload := Payload(Some(totalPageCount), None, None, true, l.filenames[0], l.id, recipientAddress);
        ok, run := StoreAndBackUp(aws, l, parts, merged, payload, run, before);
      }
    }
    if ok {
      run := SendOutcome(aws, l, payload, run, before);
    }
  }

  method SendOutcome(aws: Aws<Payload>, l: Letter, payload: Payload, ghost soFar: seq<Config<Delivery>>,
                     ghost before: seq<Buckets>)
    returns (ghost run: seq<Config<Delivery>>)
    requires l.filenames != [] && Explains(l, soFar, aws, before)
    requires At(soFar).Sending? && At(soFar).payload == payload
    modifies aws
    ensures soFar <= run && Explains(l, run, aws, before)
    ensures At(run) == Sent(At(soFar).parts, payload) || At(run).Stopped?
    ensures aws.sent == old(aws.sent) + if At(run).Sent? then [payload] else []
    ensures aws.failures == old(aws.failures) && (At(run).Stopped? ==> aws.lastRaised)
    ensures aws.failedSends == old(aws.failedSends) + if aws.lastRaised then 1 else 0
  {
    var ok := aws.Send(payload);
    run := Extend(l, soFar, if |aws.sent| > |old(aws.sent)| then Sent(At(soFar).parts, payload) else Stopped,
                  aws.buckets);
  }

  // ---------- Deliveries one after another ----------

  /** What one delivery does is a run of the system: it starts with the delivery's arrival, and every S3 call is one
      step of it. So the invariant carries over from before the delivery to after it. */
  lemma {:induction false} DeliveryKeepsInvariant(l: Letter, orig: Objects, chain: seq<Config<Delivery>>, prior: System,
                                                  t: nat)
    requires l.Valid() && chain != [] && IsChain(l, chain) && t < |chain|
    requires chain[0] == Config(START, prior.buckets) && Invariant(l, orig, prior)
    ensures Invariant(l, orig, System(chain[t].buckets, prior.deliveries + [chain[t].delivery]))
  {
    var s' := System(chain[t].buckets, prior.deliveries + [chain[t].delivery]);
    if t == 0 {
      SystemStepKeepsInvariant(l, orig, prior, s');
    } else {
      DeliveryKeepsInvariant(l, orig, chain, prior, t - 1);
      var s := System(chain[t - 1].buckets, prior.deliveries + [chain[t - 1].delivery]);
      var i := |prior.deliveries|;
      assert s.deliveries[i := s'.deliveries[i]] == s'.deliveries;
      assert DeliveryStep(l, s, s', i);
      SystemStepKeepsInvariant(l, orig, s, s');
    }
  }

  /** Any number of deliveries of the Celery task, one after another, never lose a part: at every state that S3 goes
      through every sibling's bytes are still there. */
  method DeliverRepeatedly(aws: Aws<Payload>, l: Letter, answers: seq<(File, bool) -> Verdict>)
    requires DistinctNames(l) && UsesBackupKeys(l)
    requires forall d :: 0 <= d < |answers| ==>
               forall file, attachment :: l.admits(file, attachment, answers[d](file, attachment))
    modifies aws
    ensures |aws.history| >= |old(aws.history)|
    ensures forall h :: |old(aws.history)| <= h < |aws.history| ==> Conserved(l, old(aws.buckets.scan), aws.history[h])
    ensures |l.filenames| >= 2 ==> |aws.sent| <= |old(aws.sent)| + 1
  {
    DistinctNamesSuffice(l);
    ghost var orig := aws.buckets.scan;
    ghost var s := System(aws.buckets, []);
    assert Invariant(l, orig, s);
    for d := 0 to |answers|
      invariant s.buckets == aws.buckets && Invariant(l, orig, s)
      invariant |aws.history| >= |old(aws.history)|
      invariant forall h :: |old(aws.history)| <= h < |aws.history| ==> Conserved(l, orig, aws.history[h])
      invariant |l.filenames| >= 2 ==>
                  |aws.sent| == |old(aws.sent)| || (|aws.sent| == |old(aws.sent)| + 1 && PartMissing(l, aws.buckets))
    {
      ghost var priorHistory := aws.history;
      ghost var missing := PartMissing(l, aws.buckets);
      ghost var chain := SanitiseAndMergeLetterParts(aws, l, answers[d]);
      assert aws.history == priorHistory + BucketsOf(chain)[1..];
      forall h | |priorHistory| <= h < |aws.history|
        ensures Conserved(l, orig, aws.history[h])
      {
        var t := h - |priorHistory| + 1;
        assert aws.history[h] == chain[t].buckets;
        DeliveryKeepsInvariant(l, orig, chain, s, t);
      }
      ghost var last := |chain| - 1;
      DeliveryKeepsInvariant(l, orig, chain, s, last);
      if |l.filenames| >= 2 {
        if missing {
          ChainStaysDoomed(l, chain, last);
        }
        if At(chain).Sent? {
          var final := System(chain[last].buckets, s.deliveries + [chain[last].delivery]);
          assert final.deliveries[|s.deliveries|] == At(chain);
          assert DeliveryInvariant(l, orig, final.buckets, At(chain));
          assert MissingFrom(l, aws.buckets, 0, 1);
        }
      }
      s := System(chain[last].buckets, s.deliveries + [chain[last].delivery]);
    }
  }

  lemma {:induction false} ChainStaysDoomed(l: Letter, chain: seq<Config<Delivery>>, t: nat)
    requires l.filenames != [] && chain != [] && IsChain(l, chain) && t < |chain|
    requires chain[0].delivery == START && PartMissing(l, chain[0].buckets)
    ensures Doomed(l, chain[t].buckets, chain[t].delivery) && PartMissing(l, chain[t].buckets)
  {
    if t == 0 {
      assert NextRead(START) == Some(0);
    } else {
      ChainStaysDoomed(l, chain, t - 1);
      var a, b := chain[t - 1], chain[t];
      DoomedStaysDoomed(l, a.delivery, a.buckets, b.delivery, b.buckets);
      ScanOnlyShrinks(l, a.delivery, a.buckets, b.delivery, b.buckets);
      var k :| MissingFrom(l, a.buckets, 0, k);
      assert MissingFrom(l, b.buckets, 0, k);
    }
  }
}

/**
  The protocol behind sanitise_and_merge_letter_parts of app/celery/tasks.py: a letter sent as several PDF files is
  sanitised part by part, merged, stored and backed up, or its parts are set aside. A delivery of the Celery task is a
  process that makes one S3 call per step; any number of deliveries may be under way at the same time, and each may
  stop at any step.
 */
module LetterPartsProtocol {
  import opened Options
  import opened PdfStitching
  import opened Sequences
  import opened Storage
  import opened Verdicts
  import opened CallHistory

  /** The arguments of the Celery task; the key under which the original of each part is backed up; and which verdicts
      the sanitiser may reach on a file, as a letter or as an attachment. It may reach different ones in different
      deliveries. */
  datatype Letter = Letter(id: string, filenames: seq<string>, backupKey: nat -> string,
                           admits: (File, bool, Verdict) -> bool) {
    ghost predicate Valid() {
      && filenames != []
      && forall j, k :: 0 <= j < k < |filenames| ==> Differ(j, k)
    }

    /** Different parts have different names and different backup keys. */
    predicate Differ(j: nat, k: nat)
      requires j < |filenames| && k < |filenames|
    {
      filenames[j] != filenames[k] && backupKey(j) != backupKey(k)
    }

    ghost predicate IsSibling(filename: string) {
      exists k :: 1 <= k < |filenames| && filenames[k] == filename
    }
  }

  datatype Payload = Payload(pageCount: Option<nat>, message: Option<string>, invalidPages: Option<seq<nat>>,
                             passed: bool, filename: string, id: string, address: Option<string>)

  /** How far a delivery has come. Indices count the parts from 0; copied says that the copy of the current
      sibling is made and its deletion is next. */
  datatype Delivery =
    | Sanitising(parts: seq<seq<Page>>, address: Option<string>)
    | Quarantining(next: nat, copied: bool, payload: Payload)
    | Uploading(parts: seq<seq<Page>>, payload: Payload)
    | BackingUpFirst(parts: seq<seq<Page>>, payload: Payload)
    | BackingUp(next: nat, copied: bool, parts: seq<seq<Page>>, payload: Payload)
    | Sending(parts: seq<seq<Page>>, payload: Payload)
    | Sent(parts: seq<seq<Page>>, payload: Payload)
    | Stopped

  const START := Sanitising([], None)

  // ---------- Steps ----------

  function NextQuarantine(l: Letter, k: nat, p: Payload): Delivery {
    if k < |l.filenames| then Quarantining(k, false, p) else Sending([], p)
  }

  function NextBackup(l: Letter, k: nat, parts: seq<seq<Page>>, p: Payload): Delivery {
    if k < |l.filenames| then BackingUp(k, false, parts, p) else Sending(parts, p)
  }

  function FailurePayload(l: Letter, v: Verdict, address: Option<string>): Payload
    requires l.filenames != [] && v.Failed?
  {
    Payload(v.failedPageCount, Some(v.message), v.invalidPages, false, l.filenames[0], l.id, address)
  }

  /** What follows once every part has passed. */
  function AfterAllPassed(l: Letter, parts: seq<seq<Page>>, address: Option<string>): Delivery
    requires l.filenames != []
  {
    var total := |Flatten(parts)|;
    if total > LETTER_MAX_PAGE_COUNT then
      NextQuarantine(l, 1, Payload(Some(total), Some("letter-too-long"), None, false, l.filenames[0], l.id, address))
    else
      Uploading(parts, Payload(Some(total), None, None, true, l.filenames[0], l.id, address))
  }

  function AfterVerdict(l: Letter, parts: seq<seq<Page>>, address: Option<string>, v: Verdict): Delivery
    requires l.filenames != []
  {
    if v.Failed? then NextQuarantine(l, 1, FailurePayload(l, v, address))
    else
      var address' := if parts == [] then v.address else address;
      var parts' := parts + [v.document];
      if |parts'| < |l.filenames| then Sanitising(parts', address') else AfterAllPassed(l, parts', address')
  }

  /** One S3 call of one delivery, or its end. */
  ghost predicate Step(l: Letter, d: Delivery, b: Buckets, d': Delivery, b': Buckets)
    requires l.filenames != []
  {
    // an exception, with no effect on the buckets
    || (!d.Sent? && !d.Stopped? && d'.Stopped? && b' == b)
    || match d
       case Sanitising(parts, address) =>
         && |parts| < |l.filenames| && l.filenames[|parts|] in b.scan && b' == b
         && exists v :: && l.admits(b.scan[l.filenames[|parts|]], |parts| > 0, v)
                        && d' == AfterVerdict(l, parts, address, v)
       case Quarantining(k, false, p) =>
         && k < |l.filenames| && l.filenames[k] in b.scan
         && b' == b.Put(Invalid, l.filenames[k], b.scan[l.filenames[k]])
         && (d' == Quarantining(k, true, p) || d'.Stopped?)
       case Quarantining(k, true, p) =>
         && k < |l.filenames| && b' == b.DropFromScan(l.filenames[k])
         && (d' == NextQuarantine(l, k + 1, p) || d'.Stopped?)
       case Uploading(parts, p) =>
         && b' == b.Put(Sanitised, l.filenames[0], Document(Flatten(parts)))
         && (d' == BackingUpFirst(parts, p) || d'.Stopped?)
       case BackingUpFirst(parts, p) =>
         && l.filenames[0] in b.scan
         && b' == b.Put(Backup, l.backupKey(0), b.scan[l.filenames[0]])
         && (d' == NextBackup(l, 1, parts, p) || d'.Stopped?)
       case BackingUp(k, false, parts, p) =>
         && k < |l.filenames| && l.filenames[k] in b.scan
         && b' == b.Put(Backup, l.backupKey(k), b.scan[l.filenames[k]])
         && (d' == BackingUp(k, true, parts, p) || d'.Stopped?)
       case BackingUp(k, true, parts, p) =>
         && k < |l.filenames| && b' == b.DropFromScan(l.filenames[k])
         && (d' == NextBackup(l, k + 1, parts, p) || d'.Stopped?)
       case Sending(parts, p) => b' == b && d' == Sent(parts, p)
       case _ => false
  }

  /** The history of one delivery by itself. */
  ghost predicate IsChain(l: Letter, run: seq<Config<Delivery>>)
    requires l.filenames != []
  {
    forall t :: 0 <= t < |run| - 1 ==>
      Step(l, run[t].delivery, run[t].buckets, run[t + 1].delivery, run[t + 1].buckets)
  }

  // ---------- Any number of overlapping deliveries ----------

  datatype System = System(buckets: Buckets, deliveries: seq<Delivery>)

  /** Delivery i makes its next step. */
  ghost predicate DeliveryStep(l: Letter, s: System, s': System, i: int)
    requires l.filenames != []
  {
    && 0 <= i < |s.deliveries| == |s'.deliveries|
    && Step(l, s.deliveries[i], s.buckets, s'.deliveries[i], s'.buckets)
    && s'.deliveries == s.deliveries[i := s'.deliveries[i]]
  }

  ghost predicate SystemStep(l: Letter, s: System, s': System)
    requires l.filenames != []
  {
    || s' == System(s.buckets, s.deliveries + [START])
    || exists i :: DeliveryStep(l, s, s', i)
  }

  ghost predicate IsRun(l: Letter, run: seq<System>)
    requires l.filenames != []
  {
    && run != [] && run[0].deliveries == []
    && forall t :: 0 <= t < |run| - 1 ==> SystemStep(l, run[t], run[t + 1])
  }

  // ---------- What holds in every reachable state ----------

  ghost predicate Backed(l: Letter, orig: Objects, b: Buckets, k: nat)
    requires k < |l.filenames|
  {
    l.filenames[k] in orig && b.Holds(Backup, l.backupKey(k), orig[l.filenames[k]])
  }

  ghost predicate SetAside(l: Letter, orig: Objects, b: Buckets, k: nat)
    requires k < |l.filenames|
  {
    l.filenames[k] in orig && b.Holds(Invalid, l.filenames[k], orig[l.filenames[k]])
  }

  ghost predicate SiblingsGone(l: Letter, b: Buckets, upTo: nat) {
    forall k :: 1 <= k < upTo && k < |l.filenames| ==> l.filenames[k] !in b.scan
  }

  ghost predicate AdmittedPart(l: Letter, orig: Objects, k: nat, document: seq<Page>)
    requires k < |l.filenames|
  {
    && l.filenames[k] in orig
    && exists v :: l.admits(orig[l.filenames[k]], k > 0, v) && v.Passed? && v.document == document
  }

  ghost predicate AdmittedParts(l: Letter, orig: Objects, parts: seq<seq<Page>>) {
    |parts| <= |l.filenames| && forall k :: 0 <= k < |parts| ==> AdmittedPart(l, orig, k, parts[k])
  }

  /** The in-order concatenation of a passing sanitised version of every part, within the page limit. */
  ghost predicate IsMerge(l: Letter, orig: Objects, parts: seq<seq<Page>>) {
    |parts| == |l.filenames| && AdmittedParts(l, orig, parts) && |Flatten(parts)| <= LETTER_MAX_PAGE_COUNT
  }

  ghost predicate Stored(l: Letter, orig: Objects, b: Buckets)
    requires l.filenames != []
  {
    exists parts :: IsMerge(l, orig, parts) && b.Holds(Sanitised, l.filenames[0], Document(Flatten(parts)))
  }

  ghost predicate AllBacked(l: Letter, orig: Objects, b: Buckets, upTo: nat) {
    forall k :: 0 <= k < upTo && k < |l.filenames| ==> Backed(l, orig, b, k)
  }

  ghost predicate FirstPartsAddress(l: Letter, orig: Objects, address: Option<string>)
    requires l.filenames != []
  {
    && l.filenames[0] in orig
    && exists v :: l.admits(orig[l.filenames[0]], false, v) && v.Passed? && v.address == address
  }

  ghost predicate SuccessPayload(l: Letter, orig: Objects, parts: seq<seq<Page>>, p: Payload)
    requires l.filenames != []
  {
    && FirstPartsAddress(l, orig, p.address)
    && p == Payload(Some(|Flatten(parts)|), None, None, true, l.filenames[0], l.id, p.address)
  }

  /** A failure is reported only for the first part that was refused, with that refusal, or if all passed and are too
      long together, with their total. */
  ghost predicate JustifiedFailure(l: Letter, orig: Objects, p: Payload)
    requires l.filenames != []
  {
    (exists parts, v :: RefusedWith(l, orig, parts, v, p)) || exists parts :: TooLongTogether(l, orig, parts, p)
  }

  /** The address goes with a failure too, once part 0 has passed. */
  ghost predicate AddressSoFar(l: Letter, orig: Objects, parts: seq<seq<Page>>, address: Option<string>)
    requires l.filenames != []
  {
    if parts == [] then address == None else FirstPartsAddress(l, orig, address)
  }

  ghost predicate RefusedWith(l: Letter, orig: Objects, parts: seq<seq<Page>>, v: Verdict, p: Payload)
    requires l.filenames != []
  {
    var k := |parts|;
    && AdmittedParts(l, orig, parts) && k < |l.filenames| && l.filenames[k] in orig
    && l.admits(orig[l.filenames[k]], k > 0, v) && v.Failed?
    && AddressSoFar(l, orig, parts, p.address)
    && p == Payload(v.failedPageCount, Some(v.message), v.invalidPages, false, l.filenames[0], l.id, p.address)
  }

  ghost predicate TooLongTogether(l: Letter, orig: Objects, parts: seq<seq<Page>>, p: Payload)
    requires l.filenames != []
  {
    && |parts| == |l.filenames| && AdmittedParts(l, orig, parts) && |Flatten(parts)| > LETTER_MAX_PAGE_COUNT
    && FirstPartsAddress(l, orig, p.address)
    && p == Payload(Some(|Flatten(parts)|), Some("letter-too-long"), None, false, l.filenames[0], l.id, p.address)
  }

  ghost predicate DeliveryInvariant(l: Letter, orig: Objects, b: Buckets, d: Delivery)
    requires l.filenames != []
  {
    var n := |l.filenames|;
    match d
    case Sanitising(parts, address) =>
      |parts| < n && AdmittedParts(l, orig, parts) && AddressSoFar(l, orig, parts, address)
    case Quarantining(k, copied, p) =>
      1 <= k < n && JustifiedFailure(l, orig, p) && SiblingsGone(l, b, k) && (copied ==> SetAside(l, orig, b, k))
    case Uploading(parts, p) => IsMerge(l, orig, parts) && SuccessPayload(l, orig, parts, p)
    case BackingUpFirst(parts, p) =>
      IsMerge(l, orig, parts) && SuccessPayload(l, orig, parts, p) && Stored(l, orig, b)
    case BackingUp(k, copied, parts, p) =>
      && 1 <= k < n && IsMerge(l, orig, parts) && SuccessPayload(l, orig, parts, p) && Stored(l, orig, b)
      && AllBacked(l, orig, b, k) && SiblingsGone(l, b, k) && (copied ==> Backed(l, orig, b, k))
    case Sending(parts, p) => Concluded(l, orig, b, parts, p)
    case Sent(parts, p) => Concluded(l, orig, b, parts, p)
    case Stopped => true
  }

  ghost predicate Concluded(l: Letter, orig: Objects, b: Buckets, parts: seq<seq<Page>>, p: Payload)
    requires l.filenames != []
  {
    && SiblingsGone(l, b, |l.filenames|)
    && (if p.passed
        then IsMerge(l, orig, parts) && SuccessPayload(l, orig, parts, p) && Stored(l, orig, b)
             && AllBacked(l, orig, b, |l.filenames|)
        else JustifiedFailure(l, orig, p))
  }

  /** The scan bucket only ever loses siblings, and a sibling that has left it is in the backup or set aside. */
  ghost predicate Conserved(l: Letter, orig: Objects, b: Buckets)
    requires l.filenames != []
  {
    && (forall key :: key in b.scan ==> key in orig && b.scan[key] == orig[key])
    && (forall key :: key in orig && key !in b.scan ==> l.IsSibling(key))
    && (forall k :: 1 <= k < |l.filenames| && l.filenames[k] in orig ==>
          l.filenames[k] in b.scan || Backed(l, orig, b, k) || SetAside(l, orig, b, k))
  }

  ghost predicate Invariant(l: Letter, orig: Objects, s: System)
    requires l.filenames != []
  {
    && Conserved(l, orig, s.buckets)
    && forall i :: 0 <= i < |s.deliveries| ==> DeliveryInvariant(l, orig, s.buckets, s.deliveries[i])
  }

  /** What a step of one delivery does to the others: nothing reached so far is undone. */
  ghost predicate Progress(l: Letter, orig: Objects, b: Buckets, b': Buckets)
    requires l.filenames != []
  {
    && (forall key :: key in b'.scan ==> key in b.scan)
    && (forall k :: 0 <= k < |l.filenames| && Backed(l, orig, b, k) ==> Backed(l, orig, b', k))
    && (forall k :: 0 <= k < |l.filenames| && SetAside(l, orig, b, k) ==> SetAside(l, orig, b', k))
    && (Stored(l, orig, b) ==> Stored(l, orig, b'))
  }

  lemma BackupEffect(l: Letter, orig: Objects, b: Buckets, j: nat)
    requires l.Valid() && Conserved(l, orig, b) && j < |l.filenames| && l.filenames[j] in b.scan
    ensures var b' := b.Put(Backup, l.backupKey(j), b.scan[l.filenames[j]]);
            Progress(l, orig, b, b') && Conserved(l, orig, b') && Backed(l, orig, b', j)
  {
    var b' := b.Put(Backup, l.backupKey(j), b.scan[l.filenames[j]]);
    assert Backed(l, orig, b', j);
    forall k | 0 <= k < |l.filenames| && Backed(l, orig, b, k)
      ensures Backed(l, orig, b', k)
    {
      assert k < j ==> l.Differ(k, j);
      assert j < k ==> l.Differ(j, k);
    }
    if Stored(l, orig, b) {
      SanitisedUnchanged(l, orig, b, b');
    }
  }

  lemma SanitisedUnchanged(l: Letter, orig: Objects, b: Buckets, b': Buckets)
    requires l.filenames != [] && Stored(l, orig, b) && b'.sanitised == b.sanitised
    ensures Stored(l, orig, b')
  {
    var parts :| IsMerge(l, orig, parts) && b.Holds(Sanitised, l.filenames[0], Document(Flatten(parts)));
    assert b'.Holds(Sanitised, l.filenames[0], Document(Flatten(parts)));
  }

  lemma BackupUnchanged(l: Letter, orig: Objects, b: Buckets, b': Buckets, k: nat)
    requires b'.backup == b.backup && k < |l.filenames|
    ensures Backed(l, orig, b, k) <==> Backed(l, orig, b', k)
  {
  }

  lemma InvalidUnchanged(l: Letter, orig: Objects, b: Buckets, b': Buckets, k: nat)
    requires b'.invalid == b.invalid && k < |l.filenames|
    ensures SetAside(l, orig, b, k) <==> SetAside(l, orig, b', k)
  {
  }

  lemma QuarantineEffect(l: Letter, orig: Objects, b: Buckets, j: nat)
    requires l.Valid() && Conserved(l, orig, b) && j < |l.filenames| && l.filenames[j] in b.scan
    ensures var b' := b.Put(Invalid, l.filenames[j], b.scan[l.filenames[j]]);
            Progress(l, orig, b, b') && Conserved(l, orig, b') && SetAside(l, orig, b', j)
  {
    var b' := b.Put(Invalid, l.filenames[j], b.scan[l.filenames[j]]);
    assert SetAside(l, orig, b', j);
    forall k | 0 <= k < |l.filenames|
      ensures Backed(l, orig, b, k) <==> Backed(l, orig, b', k)
      ensures SetAside(l, orig, b, k) ==> SetAside(l, orig, b', k)
    {
      BackupUnchanged(l, orig, b, b', k);
    }
    if Stored(l, orig, b) {
      SanitisedUnchanged(l, orig, b, b');
    }
  }

  lemma UploadEffect(l: Letter, orig: Objects, b: Buckets, parts: seq<seq<Page>>)
    requires l.Valid() && Conserved(l, orig, b) && IsMerge(l, orig, parts)
    ensures var b' := b.Put(Sanitised, l.filenames[0], Document(Flatten(parts)));
            Progress(l, orig, b, b') && Conserved(l, orig, b') && Stored(l, orig, b')
  {
    var b' := b.Put(Sanitised, l.filenames[0], Document(Flatten(parts)));
    assert b'.Holds(Sanitised, l.filenames[0], Document(Flatten(parts)));
  }

  lemma DeleteEffect(l: Letter, orig: Objects, b: Buckets, j: nat)
    requires l.Valid() && Conserved(l, orig, b) && 1 <= j < |l.filenames|
    requires Backed(l, orig, b, j) || SetAside(l, orig, b, j)
    ensures var b' := b.DropFromScan(l.filenames[j]);
            Progress(l, orig, b, b') && Conserved(l, orig, b') && l.filenames[j] !in b'.scan
  {
    var b' := b.DropFromScan(l.filenames[j]);
    if Stored(l, orig, b) {
      SanitisedUnchanged(l, orig, b, b');
    }
    forall k | 0 <= k < |l.filenames|
      ensures Backed(l, orig, b, k) <==> Backed(l, orig, b', k)
      ensures SetAside(l, orig, b, k) <==> SetAside(l, orig, b', k)
    {
      BackupUnchanged(l, orig, b, b', k);
      InvalidUnchanged(l, orig, b, b', k);
    }
    forall k | 1 <= k < |l.filenames| && l.filenames[k] in orig
      ensures l.filenames[k] in b'.scan || Backed(l, orig, b', k) || SetAside(l, orig, b', k)
    {
      assert k < j ==> l.Differ(k, j);
      assert j < k ==> l.Differ(j, k);
    }
  }

  lemma ProgressKeepsDelivery(l: Letter, orig: Objects, b: Buckets, b': Buckets, d: Delivery)
    requires l.filenames != [] && Progress(l, orig, b, b') && DeliveryInvariant(l, orig, b, d)
    ensures DeliveryInvariant(l, orig, b', d)
  {
  }

  lemma AdmittedSnoc(l: Letter, orig: Objects, parts: seq<seq<Page>>, v: Verdict)
    requires AdmittedParts(l, orig, parts) && |parts| < |l.filenames| && l.filenames[|parts|] in orig
    requires v.Passed? && l.admits(orig[l.filenames[|parts|]], |parts| > 0, v)
    ensures AdmittedParts(l, orig, parts + [v.document])
  {
    assert AdmittedPart(l, orig, |parts|, v.document);
  }

  lemma SanitisingStep(l: Letter, orig: Objects, d: Delivery, b: Buckets, v: Verdict)
    requires l.Valid() && d.Sanitising? && Conserved(l, orig, b) && DeliveryInvariant(l, orig, b, d)
    requires l.filenames[|d.parts|] in b.scan && l.admits(b.scan[l.filenames[|d.parts|]], |d.parts| > 0, v)
    ensures DeliveryInvariant(l, orig, b, AfterVerdict(l, d.parts, d.address, v))
  {
    if v.Failed? {
      assert RefusedWith(l, orig, d.parts, v, FailurePayload(l, v, d.address));
    } else {
      var parts := d.parts + [v.document];
      AdmittedSnoc(l, orig, d.parts, v);
      var address := if d.parts == [] then v.address else d.address;
      assert FirstPartsAddress(l, orig, address);
      var next := AfterVerdict(l, d.parts, d.address, v);
      if |parts| == |l.filenames| && |Flatten(parts)| > LETTER_MAX_PAGE_COUNT {
        assert TooLongTogether(l, orig, parts, next.payload);
      }
    }
  }

  lemma AllBackedProgress(l: Letter, orig: Objects, b: Buckets, b': Buckets, upTo: nat)
    requires l.filenames != [] && Progress(l, orig, b, b') && AllBacked(l, orig, b, upTo)
    ensures AllBacked(l, orig, b', upTo)
  {
  }

  lemma GoneStaysGone(l: Letter, b: Buckets, b': Buckets, upTo: nat)
    requires SiblingsGone(l, b, upTo) && forall key :: key in b'.scan ==> key in b.scan
    ensures SiblingsGone(l, b', upTo)
  {
  }

  lemma AfterQuarantine(l: Letter, orig: Objects, b: Buckets, k: nat, p: Payload)
    requires 1 <= k <= |l.filenames| && JustifiedFailure(l, orig, p) && SiblingsGone(l, b, k)
    ensures DeliveryInvariant(l, orig, b, NextQuarantine(l, k, p))
  {
  }

  lemma AfterBackup(l: Letter, orig: Objects, b: Buckets, k: nat, parts: seq<seq<Page>>, p: Payload)
    requires 1 <= k <= |l.filenames| && IsMerge(l, orig, parts) && SuccessPayload(l, orig, parts, p)
    requires Stored(l, orig, b) && AllBacked(l, orig, b, k) && SiblingsGone(l, b, k)
    ensures DeliveryInvariant(l, orig, b, NextBackup(l, k, parts, p))
  {
  }

  lemma DeleteQuarantined(l: Letter, orig: Objects, b: Buckets, k: nat, p: Payload)
    requires l.Valid() && Conserved(l, orig, b) && DeliveryInvariant(l, orig, b, Quarantining(k, true, p))
    ensures var b' := b.DropFromScan(l.filenames[k]);
            && Progress(l, orig, b, b') && Conserved(l, orig, b')
            && DeliveryInvariant(l, orig, b', NextQuarantine(l, k + 1, p))
  {
    var b' := b.DropFromScan(l.filenames[k]);
    DeleteEffect(l, orig, b, k);
    GoneStaysGone(l, b, b', k);
    AfterQuarantine(l, orig, b', k + 1, p);
  }

  lemma DeleteBacked(l: Letter, orig: Objects, b: Buckets, k: nat, parts: seq<seq<Page>>, p: Payload)
    requires l.Valid() && Conserved(l, orig, b) && DeliveryInvariant(l, orig, b, BackingUp(k, true, parts, p))
    ensures var b' := b.DropFromScan(l.filenames[k]);
            && Progress(l, orig, b, b') && Conserved(l, orig, b')
            && DeliveryInvariant(l, orig, b', NextBackup(l, k + 1, parts, p))
  {
    var b' := b.DropFromScan(l.filenames[k]);
    DeleteEffect(l, orig, b, k);
    assert AllBacked(l, orig, b, k + 1);
    AllBackedProgress(l, orig, b, b', k + 1);
    GoneStaysGone(l, b, b', k);
    assert SiblingsGone(l, b', k + 1);
    AfterBackup(l, orig, b', k + 1, parts, p);
  }

  lemma BackUpFirst(l: Letter, orig: Objects, b: Buckets, parts: seq<seq<Page>>, p: Payload)
    requires l.Valid() && Conserved(l, orig, b) && DeliveryInvariant(l, orig, b, BackingUpFirst(parts, p))
    requires l.filenames[0] in b.scan
    ensures var b' := b.Put(Backup, l.backupKey(0), b.scan[l.filenames[0]]);
            && Progress(l, orig, b, b') && Conserved(l, orig, b')
            && DeliveryInvariant(l, orig, b', NextBackup(l, 1, parts, p))
  {
    var b' := b.Put(Backup, l.backupKey(0), b.scan[l.filenames[0]]);
    BackupEffect(l, orig, b, 0);
    AfterBackup(l, orig, b', 1, parts, p);
  }

  lemma BackUpSibling(l: Letter, orig: Objects, b: Buckets, k: nat, parts: seq<seq<Page>>, p: Payload)
    requires l.Valid() && Conserved(l, orig, b) && DeliveryInvariant(l, orig, b, BackingUp(k, false, parts, p))
    requires l.filenames[k] in b.scan
    ensures var b' := b.Put(Backup, l.backupKey(k), b.scan[l.filenames[k]]);
            && Progress(l, orig, b, b') && Conserved(l, orig, b')
            && DeliveryInvariant(l, orig, b', BackingUp(k, true, parts, p))
  {
    BackupEffect(l, orig, b, k);
    AllBackedProgress(l, orig, b, b.Put(Backup, l.backupKey(k), b.scan[l.filenames[k]]), k);
  }

  lemma QuarantiningStep(l: Letter, orig: Objects, d: Delivery, b: Buckets, d': Delivery, b': Buckets)
    requires l.Valid() && Conserved(l, orig, b) && DeliveryInvariant(l, orig, b, d) && Step(l, d, b, d', b')
    requires d.Quarantining? && !(d'.Stopped? && b' == b)
    ensures Progress(l, orig, b, b') && Conserved(l, orig, b') && DeliveryInvariant(l, orig, b', d')
  {
    if d.copied {
      DeleteQuarantined(l, orig, b, d.next, d.payload);
    } else {
      QuarantineEffect(l, orig, b, d.next);
    }
  }

  lemma BackingUpStep(l: Letter, orig: Objects, d: Delivery, b: Buckets, d': Delivery, b': Buckets)
    requires l.Valid() && Conserved(l, orig, b) && DeliveryInvariant(l, orig, b, d) && Step(l, d, b, d', b')
    requires d.BackingUp? && !(d'.Stopped? && b' == b)
    ensures Progress(l, orig, b, b') && Conserved(l, orig, b') && DeliveryInvariant(l, orig, b', d')
  {
    if d.copied {
      DeleteBacked(l, orig, b, d.next, d.parts, d.payload);
    } else {
      BackUpSibling(l, orig, b, d.next, d.parts, d.payload);
    }
  }

  /** One step keeps what is conserved, undoes nothing for the other deliveries and keeps its own invariant. */
  lemma StepKeepsInvariant(l: Letter, orig: Objects, d: Delivery, b: Buckets, d': Delivery, b': Buckets)
    requires l.Valid() && Conserved(l, orig, b) && DeliveryInvariant(l, orig, b, d) && Step(l, d, b, d', b')
    ensures Progress(l, orig, b, b') && Conserved(l, orig, b') && DeliveryInvariant(l, orig, b', d')
  {
    if !(d'.Stopped? && b' == b) {
      match d
      case Sanitising(parts, address) =>
        var v :| l.admits(b.scan[l.filenames[|parts|]], |parts| > 0, v) && d' == AfterVerdict(l, parts, address, v);
        SanitisingStep(l, orig, d, b, v);
      case Quarantining(_, _, _) => QuarantiningStep(l, orig, d, b, d', b');
      case Uploading(parts, _) => UploadEffect(l, orig, b, parts);
      case BackingUpFirst(parts, p) => BackUpFirst(l, orig, b, parts, p);
      case BackingUp(_, _, _, _) => BackingUpStep(l, orig, d, b, d', b');
      case _ =>
    }
  }

  lemma SystemStepKeepsInvariant(l: Letter, orig: Objects, s: System, s': System)
    requires l.Valid() && Invariant(l, orig, s) && SystemStep(l, s, s')
    ensures Invariant(l, orig, s')
  {
    if s' != System(s.buckets, s.deliveries + [START]) {
      var i :| DeliveryStep(l, s, s', i);
      var d, d' := s.deliveries[i], s'.deliveries[i];
      StepKeepsInvariant(l, orig, d, s.buckets, d', s'.buckets);
      forall k | 0 <= k < |s'.deliveries|
        ensures DeliveryInvariant(l, orig, s'.buckets, s'.deliveries[k])
      {
        if k != i {
          ProgressKeepsDelivery(l, orig, s.buckets, s'.buckets, s.deliveries[k]);
        }
      }
    }
  }

  lemma {:induction false} InvariantHolds(l: Letter, run: seq<System>, t: nat)
    requires l.Valid() && IsRun(l, run) && t < |run|
    ensures Invariant(l, run[0].buckets.scan, run[t])
  {
    if t > 0 {
      InvariantHolds(l, run, t - 1);
      SystemStepKeepsInvariant(l, run[0].buckets.scan, run[t - 1], run[t]);
    }
  }

  // ---------- Main results ----------

  /** No part is ever lost. In every state of every run, with any overlap of deliveries, any failing call and any
      verdicts: part 0 and all unrelated objects are untouched in the scan bucket, and the original bytes of every
      sibling are in the scan bucket, in its own backup object or among the invalid files. */
  lemma NoPartIsLost(l: Letter, run: seq<System>, t: nat)
    requires l.Valid() && IsRun(l, run) && t < |run|
    ensures var orig, b := run[0].buckets.scan, run[t].buckets;
            && (forall key :: key in orig && !l.IsSibling(key) ==> b.Holds(Scan, key, orig[key]))
            && (forall key :: key in b.scan ==> key in orig && b.scan[key] == orig[key])
            && !l.IsSibling(l.filenames[0])
            && (forall k :: 1 <= k < |l.filenames| && l.filenames[k] in orig ==>
                  || b.Holds(Scan, l.filenames[k], orig[l.filenames[k]])
                  || b.Holds(Backup, l.backupKey(k), orig[l.filenames[k]])
                  || b.Holds(Invalid, l.filenames[k], orig[l.filenames[k]]))
  {
    InvariantHolds(l, run, t);
    forall k | 1 <= k < |l.filenames|
      ensures l.filenames[k] != l.filenames[0]
    {
      assert l.Differ(0, k);
    }
  }

  /** A "passed" message implies completion, from the moment it is sent and in every later state: the sanitised
      bucket holds, under part 0's name, passing versions of all parts joined in order within the page limit;
      every original is in the backup under a key of its own; no sibling is left in the scan bucket; and the
      message carries part 0's address. */
  lemma PassedMeansComplete(l: Letter, run: seq<System>, t: nat, i: nat)
    requires l.Valid() && IsRun(l, run) && t < |run| && i < |run[t].deliveries|
    requires run[t].deliveries[i].Sent? && run[t].deliveries[i].payload.passed
    ensures var orig, b, p := run[0].buckets.scan, run[t].buckets, run[t].deliveries[i].payload;
            && Stored(l, orig, b)
            && (forall k :: 0 <= k < |l.filenames| ==>
                  l.filenames[k] in orig && b.Holds(Backup, l.backupKey(k), orig[l.filenames[k]]))
            && (forall k :: 1 <= k < |l.filenames| ==> l.filenames[k] !in b.scan)
            && FirstPartsAddress(l, orig, p.address) && p.message.None? && p.invalidPages.None?
            && p.filename == l.filenames[0] && p.id == l.id
            && (exists parts :: AllPass(l, orig, parts) && |Flatten(parts)| <= 10
                                && p.pageCount == Some(|Flatten(parts)|))
  {
    InvariantHolds(l, run, t);
    var orig, b := run[0].buckets.scan, run[t].buckets;
    forall k | 0 <= k < |l.filenames|
      ensures l.filenames[k] in orig && b.Holds(Backup, l.backupKey(k), orig[l.filenames[k]])
    {
      assert Backed(l, orig, b, k);
    }
    AdmittedPartsPass(l, orig, run[t].deliveries[i].parts);
  }

  /** Passing sanitised versions of all parts, part 0 as a letter and the others as attachments. */
  ghost predicate AllPass(l: Letter, orig: Objects, parts: seq<seq<Page>>) {
    |parts| == |l.filenames| && FirstPass(l, orig, parts)
  }

  /** Passing sanitised versions of the first parts. */
  ghost predicate FirstPass(l: Letter, orig: Objects, parts: seq<seq<Page>>) {
    |parts| <= |l.filenames| && forall k :: 0 <= k < |parts| ==> PassesAs(l, orig, k, parts[k])
  }

  ghost predicate PassesAs(l: Letter, orig: Objects, k: nat, document: seq<Page>)
    requires k < |l.filenames|
  {
    && l.filenames[k] in orig
    && exists pageCount, address ::
         l.admits(orig[l.filenames[k]], k != 0, Passed(document, pageCount, address))
  }

  lemma AdmittedPartsPass(l: Letter, orig: Objects, parts: seq<seq<Page>>)
    requires AdmittedParts(l, orig, parts)
    ensures FirstPass(l, orig, parts)
  {
    forall k | 0 <= k < |parts|
      ensures PassesAs(l, orig, k, parts[k])
    {
      assert AdmittedPart(l, orig, k, parts[k]);
      var v :| l.admits(orig[l.filenames[k]], k > 0, v) && v.Passed? && v.document == parts[k];
      assert v == Passed(parts[k], v.pageCount, v.address);
    }
  }

  ghost predicate Deterministic(l: Letter) {
    forall file, attachment, v, w :: l.admits(file, attachment, v) && l.admits(file, attachment, w) ==> v == w
  }

  lemma AdmittedPartsAgree(l: Letter, orig: Objects, a: seq<seq<Page>>, b: seq<seq<Page>>)
    requires Deterministic(l) && AdmittedParts(l, orig, a) && AdmittedParts(l, orig, b) && |a| == |b|
    ensures a == b
  {
    forall k | 0 <= k < |a|
      ensures a[k] == b[k]
    {
      assert AdmittedPart(l, orig, k, a[k]) && AdmittedPart(l, orig, k, b[k]);
    }
  }

  /** With a deterministic sanitiser the announced page count is that of the stored letter, whatever other
      deliveries do. */
  lemma AnnouncedPageCountIsStored(l: Letter, run: seq<System>, t: nat, i: nat)
    requires l.Valid() && IsRun(l, run) && t < |run| && i < |run[t].deliveries| && Deterministic(l)
    requires run[t].deliveries[i].Sent? && run[t].deliveries[i].payload.passed
    ensures var stored := run[t].buckets.sanitised;
            && l.filenames[0] in stored && stored[l.filenames[0]].Document?
            && run[t].deliveries[i].payload.pageCount == Some(|stored[l.filenames[0]].pages|)
  {
    InvariantHolds(l, run, t);
    var orig, d := run[0].buckets.scan, run[t].deliveries[i];
    var parts :| IsMerge(l, orig, parts)
                 && run[t].buckets.Holds(Sanitised, l.filenames[0], Document(Flatten(parts)));
    AdmittedPartsAgree(l, orig, parts, d.parts);
  }

  /** A delivery's message for a refused part, the first one that was refused, says what the sanitiser said. */
  ghost predicate TellsRefusal(l: Letter, orig: Objects, parts: seq<seq<Page>>, message: string,
                               pageCount: Option<nat>, invalidPages: Option<seq<nat>>, p: Payload)
    requires l.filenames != []
  {
    var k := |parts|;
    && FirstPass(l, orig, parts) && k < |l.filenames| && l.filenames[k] in orig
    && l.admits(orig[l.filenames[k]], k != 0, Failed(message, pageCount, invalidPages))
    && p.message == Some(message) && p.pageCount == pageCount && p.invalidPages == invalidPages
    && (k == 0 ==> p.address.None?) && (k > 0 ==> FirstPartsAddress(l, orig, p.address))
  }

  /** A delivery's message for parts that all pass but have more than ten pages together. */
  ghost predicate TellsTooLong(l: Letter, orig: Objects, parts: seq<seq<Page>>, p: Payload)
    requires l.filenames != []
  {
    && AllPass(l, orig, parts) && |Flatten(parts)| > 10
    && p.message == Some("letter-too-long") && p.pageCount == Some(|Flatten(parts)|) && p.invalidPages.None?
    && FirstPartsAddress(l, orig, p.address)
  }

  /** A "failed" message is sent only when some part was refused or the parts are too long together: with the message,
      page count and pages of the first refusal, or with their total; with part 0's address unless it is part 0 that
      was refused; and after all siblings have left the scan bucket. */
  lemma FailedMessageIsJustified(l: Letter, run: seq<System>, t: nat, i: nat)
    requires l.Valid() && IsRun(l, run) && t < |run| && i < |run[t].deliveries|
    requires run[t].deliveries[i].Sent? && !run[t].deliveries[i].payload.passed
    ensures var orig, p := run[0].buckets.scan, run[t].deliveries[i].payload;
            || (exists parts, message, pageCount, invalidPages ::
                  TellsRefusal(l, orig, parts, message, pageCount, invalidPages, p))
            || (exists parts :: TellsTooLong(l, orig, parts, p))
    ensures run[t].deliveries[i].payload.filename == l.filenames[0] && run[t].deliveries[i].payload.id == l.id
    ensures forall k :: 1 <= k < |l.filenames| ==> l.filenames[k] !in run[t].buckets.scan
  {
    InvariantHolds(l, run, t);
    var orig, p := run[0].buckets.scan, run[t].deliveries[i].payload;
    assert JustifiedFailure(l, orig, p);
    if parts, v :| RefusedWith(l, orig, parts, v, p) {
      AdmittedPartsPass(l, orig, parts);
      assert v == Failed(v.message, v.failedPageCount, v.invalidPages);
      assert TellsRefusal(l, orig, parts, v.message, v.failedPageCount, v.invalidPages, p);
    } else {
      var parts :| TooLongTogether(l, orig, parts, p);
      AdmittedPartsPass(l, orig, parts);
      assert TellsTooLong(l, orig, parts, p);
    }
  }

  // ---------- Deliveries that start too late stay silent ----------

  ghost predicate MissingFrom(l: Letter, b: Buckets, from: nat, k: nat) {
    from <= k < |l.filenames| && l.filenames[k] !in b.scan
  }

  /** The first part that the delivery has yet to read, be it again; None if it reads no more. */
  function NextRead(d: Delivery): Option<nat> {
    match d
    case Sanitising(parts, _) => Some(if parts == [] then 0 else 1)
    case Uploading(_, _) => Some(0)
    case BackingUpFirst(_, _) => Some(0)
    case Quarantining(next, copied, _) => Some(if copied then next + 1 else next)
    case BackingUp(next, copied, _, _) => Some(if copied then next + 1 else next)
    case _ => None
  }

  /** The delivery has ended silently, or still has to read a part that is no longer there. */
  ghost predicate Doomed(l: Letter, b: Buckets, d: Delivery) {
    d.Stopped? || (NextRead(d).Some? && exists k :: MissingFrom(l, b, NextRead(d).value, k))
  }

  lemma DoomedStaysDoomed(l: Letter, d: Delivery, b: Buckets, d': Delivery, b': Buckets)
    requires l.filenames != [] && Step(l, d, b, d', b') && Doomed(l, b, d)
    ensures Doomed(l, b', d')
  {
    if !d'.Stopped? {
      var k :| MissingFrom(l, b, NextRead(d).value, k);
      assert NextRead(d').Some? && NextRead(d').value <= k;
      ScanOnlyShrinks(l, d, b, d', b');
      assert MissingFrom(l, b', NextRead(d').value, k);
    }
  }

  lemma ScanOnlyShrinks(l: Letter, d: Delivery, b: Buckets, d': Delivery, b': Buckets)
    requires l.filenames != [] && Step(l, d, b, d', b')
    ensures forall key :: key in b'.scan ==> key in b.scan
  {
  }

  lemma FewerFilesStayDoomed(l: Letter, b: Buckets, b': Buckets, d: Delivery)
    requires Doomed(l, b, d) && forall key :: key in b'.scan ==> key in b.scan
    ensures Doomed(l, b', d)
  {
    if !d.Stopped? {
      var k :| MissingFrom(l, b, NextRead(d).value, k);
      assert MissingFrom(l, b', NextRead(d).value, k);
    }
  }

  /** Every delivery from the given one on. */
  ghost predicate LateOnesDoomed(l: Letter, s: System, from: nat) {
    forall i :: from <= i < |s.deliveries| ==> Doomed(l, s.buckets, s.deliveries[i])
  }

  ghost predicate PartMissing(l: Letter, b: Buckets) {
    exists k :: MissingFrom(l, b, 0, k)
  }

  lemma SystemStepKeepsLateOnesDoomed(l: Letter, s: System, s': System, from: nat)
    requires l.filenames != [] && SystemStep(l, s, s')
    requires PartMissing(l, s.buckets) && LateOnesDoomed(l, s, from) && from <= |s.deliveries|
    ensures PartMissing(l, s'.buckets) && LateOnesDoomed(l, s', from) && from <= |s'.deliveries|
  {
    var k :| MissingFrom(l, s.buckets, 0, k);
    if s' == System(s.buckets, s.deliveries + [START]) {
      assert NextRead(START) == Some(0);
    } else {
      var i :| DeliveryStep(l, s, s', i);
      ScanOnlyShrinks(l, s.deliveries[i], s.buckets, s'.deliveries[i], s'.buckets);
      assert MissingFrom(l, s'.buckets, 0, k);
      forall j | from <= j < |s'.deliveries|
        ensures Doomed(l, s'.buckets, s'.deliveries[j])
      {
        if j == i {
          DoomedStaysDoomed(l, s.deliveries[i], s.buckets, s'.deliveries[i], s'.buckets);
        } else {
          FewerFilesStayDoomed(l, s.buckets, s'.buckets, s.deliveries[j]);
        }
      }
    }
  }

  lemma {:induction false} LateOnesStayDoomed(l: Letter, run: seq<System>, t: nat, u: nat, from: nat)
    requires l.filenames != [] && IsRun(l, run) && t <= u < |run| && PartMissing(l, run[t].buckets)
    requires LateOnesDoomed(l, run[t], from) && from <= |run[t].deliveries|
    ensures PartMissing(l, run[u].buckets) && LateOnesDoomed(l, run[u], from)
  {
    if u > t {
      LateOnesStayDoomed(l, run, t, u - 1, from);
      DeliveriesAreKept(l, run, t, u - 1);
      SystemStepKeepsLateOnesDoomed(l, run[u - 1], run[u], from);
    }
  }

  lemma {:induction false} DeliveriesAreKept(l: Letter, run: seq<System>, t: nat, u: nat)
    requires l.filenames != [] && IsRun(l, run) && t <= u < |run|
    ensures |run[t].deliveries| <= |run[u].deliveries|
  {
    if u > t {
      DeliveriesAreKept(l, run, t, u - 1);
      assert SystemStep(l, run[u - 1], run[u]);
    }
  }

  /** Once any part is missing from the scan bucket, a delivery that starts later never sends a message. */
  lemma LateDeliveriesAreSilent(l: Letter, run: seq<System>, t: nat, u: nat, i: nat)
    requires l.filenames != [] && IsRun(l, run) && t <= u < |run|
    requires PartMissing(l, run[t].buckets)
    requires |run[t].deliveries| <= i < |run[u].deliveries|
    ensures !run[u].deliveries[i].Sent?
  {
    LateOnesStayDoomed(l, run, t, u, |run[t].deliveries|);
  }

  /** For a letter of two or more parts, at most one delivery reports unless deliveries overlap: whatever starts
      after a message was sent stays silent. */
  lemma RedeliveryAfterMessageIsSilent(l: Letter, run: seq<System>, t: nat, u: nat, i: nat, j: nat)
    requires l.Valid() && |l.filenames| >= 2 && IsRun(l, run) && t <= u < |run|
    requires i < |run[t].deliveries| && run[t].deliveries[i].Sent?
    requires |run[t].deliveries| <= j < |run[u].deliveries|
    ensures !run[u].deliveries[j].Sent?
  {
    InvariantHolds(l, run, t);
    assert MissingFrom(l, run[t].buckets, 0, 1);
    LateDeliveriesAreSilent(l, run, t, u, j);
  }
}

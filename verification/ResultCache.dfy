/**
  The cache of app/__init__.py around functions that render a PDF or a PNG: one S3 bucket that all workers share, and
  in each worker process a least-recently-used cache of what it has downloaded (app/utils.py). Requests to many
  workers interleave call by call.
 */
module ResultCache {
  import opened Options

  type Bytes = seq<int>

  /** The two functions that are cached: the PDF of a template's HTML, and the image of one page. */
  datatype Request = TemplatedPdf(html: string) | PagePng(serialisedPage: string, hideNotify: bool)

  /** A file object as a function returns it. */
  datatype Stream = Stream(content: Bytes, pos: nat) {
    predicate Valid() { pos <= |content| }

    /** What reading it gives. */
    function Rest(): Bytes
      requires Valid()
    {
      content[pos..]
    }
  }

  type ValidStream = s: Stream | s.Valid() witness Stream([], 0)

  /** The cached functions, which are deterministic, and the key under which each result is kept. */
  datatype Setting = Setting(original: Request -> ValidStream, key: Request -> string) {
    ghost predicate KeysDiffer() {
      forall a, b :: key(a) == key(b) ==> a == b
    }

    /** What a caller gets without any cache. */
    function Uncached(r: Request): Bytes { original(r).Rest() }

    /** Every function hands its stream over rewound. */
    ghost predicate Rewound() {
      forall r :: Uncached(r) == original(r).content
    }
  }

  // ---------- Keys ----------

  /** The arguments as text, one after another with nothing in between. */
  function JoinedArguments(r: Request): string {
    match r
    case TemplatedPdf(html) => html
    case PagePng(page, hideNotify) => page + (if hideNotify then "True" else "False")
  }

  /** The folder, the digest of the arguments and the extension. */
  function CacheKey(digest: string -> string, r: Request): string {
    match r
    case TemplatedPdf(_) => "templated/" + digest(JoinedArguments(r)) + ".pdf"
    case PagePng(_, _) => "pngs/" + digest(JoinedArguments(r)) + ".png"
  }

  ghost predicate CollisionFree(digest: string -> string) {
    forall a, b :: digest(a) == digest(b) ==> a == b
  }

  /** Although nothing separates the arguments, the joined text determines them. */
  lemma JoinedArgumentsAreInjective(a: Request, b: Request)
    requires a.PagePng? && b.PagePng? && JoinedArguments(a) == JoinedArguments(b)
    ensures a == b
  {
    var s := JoinedArguments(a);
    var n := |s|;
    assert s[n - 4] == if a.hideNotify then 'T' else 'a';
    assert s[n - 4] == if b.hideNotify then 'T' else 'a';
    assert a.hideNotify == b.hideNotify;
    assert s[..n - if a.hideNotify then 4 else 5] == a.serialisedPage == b.serialisedPage;
  }

  /** With a collision-free digest, different requests never share a key. */
  lemma CacheKeysAreInjective(digest: string -> string, a: Request, b: Request)
    requires CollisionFree(digest) && CacheKey(digest, a) == CacheKey(digest, b)
    ensures a == b
  {
    var k := CacheKey(digest, a);
    assert k[0] == if a.TemplatedPdf? then 't' else 'p';
    assert k[0] == if b.TemplatedPdf? then 't' else 'p';
    if a.TemplatedPdf? {
      assert k[10..|k| - 4] == digest(JoinedArguments(a)) == digest(JoinedArguments(b));
    } else {
      assert k[5..|k| - 4] == digest(JoinedArguments(a)) == digest(JoinedArguments(b));
      JoinedArgumentsAreInjective(a, b);
    }
  }

  // ---------- Steps ----------

  type Store = map<string, Bytes>

  datatype Pc = Looking | Computing | Uploading(data: ValidStream) | Returned(value: Bytes) | Raised

  /** small holds nothing that large does not hold. */
  ghost predicate Within(small: Store, large: Store) {
    forall k :: k in small ==> k in large && small[k] == large[k]
  }

  /** One call to the shared bucket, or one answer from the worker's own cache. Downloading puts the object into the
      worker's cache, which may push other entries out; a miss is not remembered. */
  ghost predicate CallStep(c: Setting, r: Request, pc: Pc, lru: Store, bucket: Store, pc': Pc, lru': Store,
                           bucket': Store)
  {
    var key := c.key(r);
    || (!pc.Returned? && !pc.Raised? && pc' == Raised && lru' == lru && bucket' == bucket)
    || match pc
       case Looking =>
         && bucket' == bucket
         && if key in lru then pc' == Returned(lru[key]) && lru' == lru
            else if key in bucket then
              pc' == Returned(bucket[key]) && key in lru' && Within(lru', lru[key := bucket[key]])
            else pc' == Computing && lru' == lru
       case Computing => pc' == Uploading(c.original(r)) && lru' == lru && bucket' == bucket
       case Uploading(data) =>
         // the upload reads from the cursor on; the answer is read after rewinding
         && bucket' == bucket[key := data.Rest()] && lru' == lru
         && (pc' == Returned(data.content) || pc' == Raised)
       case _ => false
  }

  /** A request that some worker handles. */
  datatype Call = Call(worker: nat, request: Request, pc: Pc)

  datatype System = System(bucket: Store, lrus: seq<Store>, calls: seq<Call>)

  ghost predicate MakesStep(c: Setting, s: System, s': System, i: int) {
    && 0 <= i < |s.calls| == |s'.calls|
    && var call := s.calls[i];
       && call.worker < |s.lrus| == |s'.lrus|
       && s'.calls == s.calls[i := call.(pc := s'.calls[i].pc)]
       && s'.lrus == s.lrus[call.worker := s'.lrus[call.worker]]
       && CallStep(c, call.request, call.pc, s.lrus[call.worker], s.bucket,
                   s'.calls[i].pc, s'.lrus[call.worker], s'.bucket)
  }

  ghost predicate Arrives(s: System, s': System, worker: nat, r: Request) {
    worker < |s.lrus| && s' == s.(calls := s.calls + [Call(worker, r, Looking)])
  }

  ghost predicate Evicts(s: System, s': System, worker: nat, smaller: Store) {
    worker < |s.lrus| && Within(smaller, s.lrus[worker]) && s' == s.(lrus := s.lrus[worker := smaller])
  }

  ghost predicate Expires(s: System, s': System) {
    Within(s'.bucket, s.bucket) && s' == s.(bucket := s'.bucket)
  }

  /** A request arrives, a worker starts, a request makes a step, or entries disappear from a worker's cache or from
      the bucket. */
  ghost predicate SystemStep(c: Setting, s: System, s': System) {
    || (exists worker: nat, r :: Arrives(s, s', worker, r))
    || s' == s.(lrus := s.lrus + [map[]])
    || (exists i :: MakesStep(c, s, s', i))
    || (exists worker: nat, smaller :: Evicts(s, s', worker, smaller))
    || Expires(s, s')
  }

  /** A run from an empty bucket and no workers. */
  ghost predicate IsRun(c: Setting, run: seq<System>) {
    && run != [] && run[0] == System(map[], [], [])
    && forall t :: 0 <= t < |run| - 1 ==> SystemStep(c, run[t], run[t + 1])
  }

  // ---------- Transparency ----------

  ghost predicate Correct(c: Setting, key: string, value: Bytes) {
    forall r :: c.key(r) == key ==> value == c.Uncached(r)
  }

  ghost predicate AllCorrect(c: Setting, store: Store) {
    forall k :: k in store ==> Correct(c, k, store[k])
  }

  ghost predicate CallCorrect(c: Setting, r: Request, pc: Pc) {
    && (pc.Uploading? ==> pc.data == c.original(r))
    && (pc.Returned? ==> pc.value == c.Uncached(r))
  }

  ghost predicate Invariant(c: Setting, s: System) {
    && AllCorrect(c, s.bucket)
    && (forall w :: 0 <= w < |s.lrus| ==> AllCorrect(c, s.lrus[w]))
    && (forall i :: 0 <= i < |s.calls| ==> CallCorrect(c, s.calls[i].request, s.calls[i].pc))
  }

  lemma OwnResultIsCorrect(c: Setting, r: Request)
    requires c.KeysDiffer()
    ensures Correct(c, c.key(r), c.Uncached(r))
  {
  }

  lemma AddCorrect(c: Setting, store: Store, key: string, value: Bytes)
    requires AllCorrect(c, store) && Correct(c, key, value)
    ensures AllCorrect(c, store[key := value])
  {
  }

  lemma FewerAreCorrect(c: Setting, small: Store, large: Store)
    requires AllCorrect(c, large) && Within(small, large)
    ensures AllCorrect(c, small)
  {
  }

  lemma CallStepKeepsCorrect(c: Setting, r: Request, pc: Pc, lru: Store, bucket: Store, pc': Pc, lru': Store,
                             bucket': Store)
    requires c.KeysDiffer() && c.Rewound()
    requires AllCorrect(c, lru) && AllCorrect(c, bucket) && CallCorrect(c, r, pc)
    requires CallStep(c, r, pc, lru, bucket, pc', lru', bucket')
    ensures AllCorrect(c, lru') && AllCorrect(c, bucket') && CallCorrect(c, r, pc')
  {
    var key := c.key(r);
    if pc.Looking? && key in bucket {
      AddCorrect(c, lru, key, bucket[key]);
      if key !in lru && pc'.Returned? {
        FewerAreCorrect(c, lru', lru[key := bucket[key]]);
      }
    } else if pc.Uploading? {
      OwnResultIsCorrect(c, r);
      AddCorrect(c, bucket, key, c.Uncached(r));
    }
  }

  lemma MakesStepKeepsInvariant(c: Setting, s: System, s': System, i: int)
    requires c.KeysDiffer() && c.Rewound() && Invariant(c, s) && MakesStep(c, s, s', i)
    ensures Invariant(c, s')
  {
    var call := s.calls[i];
    CallStepKeepsCorrect(c, call.request, call.pc, s.lrus[call.worker], s.bucket,
                         s'.calls[i].pc, s'.lrus[call.worker], s'.bucket);
  }

  lemma LosingEntriesKeepsInvariant(c: Setting, s: System, s': System)
    requires Invariant(c, s) && (Expires(s, s') || exists worker: nat, smaller :: Evicts(s, s', worker, smaller))
    ensures Invariant(c, s')
  {
    if Expires(s, s') {
      FewerAreCorrect(c, s'.bucket, s.bucket);
    } else {
      var worker: nat, smaller :| Evicts(s, s', worker, smaller);
      FewerAreCorrect(c, smaller, s.lrus[worker]);
    }
  }

  lemma SystemStepKeepsInvariant(c: Setting, s: System, s': System)
    requires c.KeysDiffer() && c.Rewound() && Invariant(c, s) && SystemStep(c, s, s')
    ensures Invariant(c, s')
  {
    if i :| MakesStep(c, s, s', i) {
      MakesStepKeepsInvariant(c, s, s', i);
    } else if Expires(s, s') || exists worker: nat, smaller :: Evicts(s, s', worker, smaller) {
      LosingEntriesKeepsInvariant(c, s, s');
    }
  }

  lemma {:induction false} InvariantHolds(c: Setting, run: seq<System>, t: nat)
    requires c.KeysDiffer() && c.Rewound() && IsRun(c, run) && t < |run|
    ensures Invariant(c, run[t])
  {
    if t > 0 {
      InvariantHolds(c, run, t - 1);
      SystemStepKeepsInvariant(c, run[t - 1], run[t]);
    }
  }

  /** In every run, every request that is answered is answered with the uncached function's value. */
  ghost predicate Transparent(c: Setting) {
    forall run: seq<System>, t, i ::
      IsRun(c, run) && 0 <= t < |run| && 0 <= i < |run[t].calls| && run[t].calls[i].pc.Returned? ==>
        run[t].calls[i].pc.value == c.Uncached(run[t].calls[i].request)
  }

  /** A first request in an empty system whose answer differs from what its caller would get without the cache. */
  lemma FirstAnswerReadsFromTheStart(c: Setting, r: Request) returns (run: seq<System>)
    ensures IsRun(c, run) && |run| == 6 && |run[5].calls| == 1
    ensures run[5].calls[0] == Call(0, r, Returned(c.original(r).content))
  {
    var data := c.original(r);
    var s0, s1 := System(map[], [], []), System(map[], [map[]], []);
    var s2 := System(map[], [map[]], [Call(0, r, Looking)]);
    var s3 := System(map[], [map[]], [Call(0, r, Computing)]);
    var s4 := System(map[], [map[]], [Call(0, r, Uploading(data))]);
    var s5 := System(map[c.key(r) := data.Rest()], [map[]], [Call(0, r, Returned(data.content))]);
    assert Arrives(s1, s2, 0, r);
    assert MakesStep(c, s2, s3, 0);
    assert MakesStep(c, s3, s4, 0);
    assert MakesStep(c, s4, s5, 0);
    run := [s0, s1, s2, s3, s4, s5];
  }

  /** The cache is transparent, in every interleaving of many workers' misses, computations, uploads, hits and
      evictions, if and only if the cached functions hand over their streams rewound. */
  lemma TransparentIff(c: Setting)
    requires c.KeysDiffer()
    ensures Transparent(c) <==> c.Rewound()
  {
    if c.Rewound() {
      forall run: seq<System>, t, i |
        IsRun(c, run) && 0 <= t < |run| && 0 <= i < |run[t].calls| && run[t].calls[i].pc.Returned?
        ensures run[t].calls[i].pc.value == c.Uncached(run[t].calls[i].request)
      {
        InvariantHolds(c, run, t);
        assert CallCorrect(c, run[t].calls[i].request, run[t].calls[i].pc);
      }
    } else {
      var r :| c.Uncached(r) != c.original(r).content;
      var run := FirstAnswerReadsFromTheStart(c, r);
      assert run[5].calls[0].pc.Returned?;
    }
  }

  /** The same for the keys that the code uses, given a digest without collisions. */
  lemma CacheIsTransparentIff(original: Request -> ValidStream, digest: string -> string)
    requires CollisionFree(digest)
    ensures Transparent(Setting(original, r => CacheKey(digest, r)))
            <==> forall r :: original(r).Rest() == original(r).content
  {
    var c := Setting(original, r => CacheKey(digest, r));
    forall a, b | c.key(a) == c.key(b)
      ensures a == b
    {
      CacheKeysAreInjective(digest, a, b);
    }
    TransparentIff(c);
    assert forall r :: c.Uncached(r) == original(r).Rest();
  }

  // ---------- The code ----------

  class SharedBucket {
    var objects: Store

    constructor ()
      ensures objects == map[]
    {
      objects := map[];
    }
  }

  datatype Download = Found(content: Bytes) | NotFound | Failed

  datatype Config = Config(pc: Pc, lru: Store, bucket: Store)

  ghost predicate IsChain(c: Setting, r: Request, run: seq<Config>) {
    forall t :: 0 <= t < |run| - 1 ==>
      CallStep(c, r, run[t].pc, run[t].lru, run[t].bucket, run[t + 1].pc, run[t + 1].lru, run[t + 1].bucket)
  }

  class Worker {
    var lru: Store

    constructor ()
      ensures lru == map[]
    {
      lru := map[];
    }

    /** The download that the least-recently-used cache wraps. An exception is not cached. */
    method CachingS3Download(bucket: SharedBucket, key: string) returns (r: Download)
      modifies this
      ensures key in old(lru) ==> r == Found(old(lru)[key]) && lru == old(lru)
      ensures key !in old(lru) && key in bucket.objects ==>
                if r.Failed? then lru == old(lru)
                else && r == Found(bucket.objects[key]) && key in lru && lru[key] == bucket.objects[key]
                     && Within(lru, old(lru)[key := bucket.objects[key]])
      ensures key !in old(lru) && key !in bucket.objects ==> lru == old(lru) && !r.Found?
    {
      if key in lru {
        return Found(lru[key]);
      }
      var reachable: bool := *;
      if !reachable {
        return Failed;
      }
      if key !in bucket.objects {
        return NotFound;
      }
      var kept: set<string> := *;
      lru := (map k | k in lru && k in kept :: lru[k])[key := bucket.objects[key]];
      r := Found(bucket.objects[key]);
    }

    /** The cached form of the original function, on a bucket that no other worker touches meanwhile. Its calls are
        steps of the protocol, so among other workers it behaves as the protocol says. */
    method NewFunction(c: Setting, bucket: SharedBucket, request: Request)
      returns (answer: Option<Bytes>, ghost run: seq<Config>)
      modifies this, bucket
      ensures run != [] && IsChain(c, request, run)
      ensures run[0] == Config(Looking, old(lru), old(bucket.objects))
      ensures var last := run[|run| - 1];
              && last.lru == lru && last.bucket == bucket.objects
              && last.pc == if answer.Some? then Returned(answer.value) else Raised
    {
      var key := c.key(request);
      run := [Config(Looking, lru, bucket.objects)];
      var cached := CachingS3Download(bucket, key);
      match cached
      case Found(content) =>
        answer := Some(content);
        run := run + [Config(Returned(content), lru, bucket.objects)];
      case Failed =>
        answer := None;
        run := run + [Config(Raised, lru, bucket.objects)];
      case NotFound =>
        run := run + [Config(Computing, lru, bucket.objects)];
        var data := c.original(request);
        run := run + [Config(Uploading(data), lru, bucket.objects)];
        var uploaded, acknowledged: bool := *, *;
        if uploaded {
          bucket.objects := bucket.objects[key := data.Rest()];
        }
        answer := if uploaded && acknowledged then Some(data.content) else None;
        run := run + [Config(if answer.Some? then Returned(data.content) else Raised, lru, bucket.objects)];
    }
  }
}

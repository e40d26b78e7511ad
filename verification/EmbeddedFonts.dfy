/**
  The font walk of app/embedded_fonts.py over the objects of a PDF file (ISO 32000-1: indirect objects in section
  7.3.10, font descriptors and embedded font programs in sections 9.8 and 9.9). The walk has no visited set, so
  shared objects are walked again, and it adds to two sets that every level of the recursion shares.
 */
module EmbeddedFonts {
  import opened Options

  datatype PdfObject =
    | Dictionary(entries: map<string, PdfObject>)
    | Array(items: seq<PdfObject>)
    | Reference(id: nat)
    | Name(text: string)
    | Scalar(value: int)

  /** A reference to an object that does not exist is a reference to the null object. */
  const NULL := Scalar(0)

  type Heap = map<nat, PdfObject>

  function Lookup(heap: Heap, id: nat): PdfObject {
    if id in heap then heap[id] else NULL
  }

  /** What reading a dictionary entry gives: a reference is replaced by its target. */
  function Resolve(heap: Heap, o: PdfObject): PdfObject {
    if o.Reference? then Lookup(heap, o.id) else o
  }

  function Entry(heap: Heap, d: PdfObject, key: string): Option<PdfObject> {
    if d.Dictionary? && key in d.entries then Some(Resolve(heap, d.entries[key])) else None
  }

  /** Only plain values can be members of a Python set. */
  predicate Hashable(o: PdfObject) { !o.Dictionary? && !o.Array? }

  predicate HasFontFile(d: PdfObject) {
    d.Dictionary? && ("/FontFile" in d.entries || "/FontFile2" in d.entries || "/FontFile3" in d.entries)
  }

  // ---------- What there is to find, by paths ----------

  datatype Find = Used(font: PdfObject) | Embedded(font: PdfObject) | Fault

  /** Whether one object by itself shows what is looked for. A fault is what makes Python raise: a font name that
      no set can hold, or a subtype that cannot be searched. */
  predicate Shows(heap: Heap, d: PdfObject, find: Find) {
    match find
    case Used(font) => Entry(heap, d, "/BaseFont") == Some(font)
    case Embedded(font) => HasFontFile(d) && Entry(heap, d, "/FontName") == Some(font)
    case Fault =>
      var base, name, subtype := Entry(heap, d, "/BaseFont"), Entry(heap, d, "/FontName"), Entry(heap, d, "/Subtype");
      || (base.Some? && !Hashable(base.value))
      || (HasFontFile(d) && name.Some? && !Hashable(name.value))
      || (subtype.Some? && subtype.value.Scalar?)
  }

  datatype Step = At(key: string) | Item(index: nat) | Target

  /** The object that a path leads to. */
  function Follow(heap: Heap, o: PdfObject, path: seq<Step>): Option<PdfObject>
    decreases |path|
  {
    if path == [] then Some(o)
    else
      match (o, path[0])
      case (Dictionary(entries), At(key)) =>
        if key in entries then Follow(heap, Resolve(heap, entries[key]), path[1..]) else None
      case (Array(items), Item(index)) =>
        if index < |items| then Follow(heap, items[index], path[1..]) else None
      case (Reference(id), Target) => Follow(heap, Lookup(heap, id), path[1..])
      case _ => None
  }

  predicate ShownAt(heap: Heap, o: PdfObject, path: seq<Step>, find: Find) {
    Follow(heap, o, path).Some? && Shows(heap, Follow(heap, o, path).value, find)
  }

  /** Something reachable from o shows what is looked for. */
  ghost predicate Somewhere(heap: Heap, o: PdfObject, find: Find) {
    exists path :: ShownAt(heap, o, path, find)
  }

  lemma StepDown(heap: Heap, o: PdfObject, step: Step, child: PdfObject, find: Find)
    requires Follow(heap, o, [step]) == Some(child)
    requires Somewhere(heap, child, find)
    ensures Somewhere(heap, o, find)
  {
    var path :| ShownAt(heap, child, path, find);
    assert ([step] + path)[1..] == path;
    assert [step][1..] == [];
    assert ShownAt(heap, o, [step] + path, find);
  }

  /** What is shown somewhere is shown by the object itself or below one of its children. */
  lemma Unfold(heap: Heap, o: PdfObject, find: Find) returns (path: seq<Step>)
    requires Somewhere(heap, o, find)
    ensures ShownAt(heap, o, path, find)
    ensures path == [] ==> Shows(heap, o, find)
    ensures path != [] ==>
              match o
              case Dictionary(entries) =>
                path[0].At? && path[0].key in entries && Somewhere(heap, Resolve(heap, entries[path[0].key]), find)
              case Array(items) =>
                path[0].Item? && path[0].index < |items| && Somewhere(heap, items[path[0].index], find)
              case Reference(id) => Somewhere(heap, Lookup(heap, id), find)
              case _ => false
  {
    path :| ShownAt(heap, o, path, find);
    if path != [] {
      match o
      case Dictionary(entries) => assert ShownAt(heap, Resolve(heap, entries[path[0].key]), path[1..], find);
      case Array(items) => assert ShownAt(heap, items[path[0].index], path[1..], find);
      case Reference(id) => assert ShownAt(heap, Lookup(heap, id), path[1..], find);
      case _ =>
    }
  }

  // ---------- Objects that are free of cycles ----------

  ghost predicate LeadsTo(heap: Heap, o: PdfObject, target: PdfObject) {
    exists path :: Follow(heap, o, path) == Some(target)
  }

  /** Following something from o leads back to o. */
  ghost predicate Recurs(heap: Heap, o: PdfObject) {
    exists path :: path != [] && Follow(heap, o, path) == Some(o)
  }

  /** Nothing that can be reached from o leads back to itself. The rest of the heap does not matter. */
  ghost predicate AcyclicFrom(heap: Heap, o: PdfObject) {
    forall x :: LeadsTo(heap, o, x) ==> !Recurs(heap, x)
  }

  ghost predicate PathsAtMost(heap: Heap, o: PdfObject, n: nat) {
    forall path :: Follow(heap, o, path).Some? ==> |path| <= n
  }

  ghost predicate PathsBounded(heap: Heap, o: PdfObject) {
    exists n: nat :: PathsAtMost(heap, o, n)
  }

  lemma {:induction false} FollowOn(heap: Heap, o: PdfObject, path: seq<Step>, target: PdfObject, more: seq<Step>)
    requires Follow(heap, o, path) == Some(target)
    ensures Follow(heap, o, path + more) == Follow(heap, target, more)
    decreases |path|
  {
    if path == [] {
      assert path + more == more;
    } else {
      assert (path + more)[1..] == path[1..] + more;
      match o
      case Dictionary(entries) => FollowOn(heap, Resolve(heap, entries[path[0].key]), path[1..], target, more);
      case Array(items) => FollowOn(heap, items[path[0].index], path[1..], target, more);
      case Reference(id) => FollowOn(heap, Lookup(heap, id), path[1..], target, more);
    }
  }

  /** Without a visited set a cycle means paths of every length. */
  lemma {:induction false} CycleHasUnboundedPaths(heap: Heap, x: PdfObject, cycle: seq<Step>, n: nat)
    returns (path: seq<Step>)
    requires cycle != [] && Follow(heap, x, cycle) == Some(x)
    ensures |path| >= n && Follow(heap, x, path) == Some(x)
  {
    path := [];
    if n > 0 {
      var rest := CycleHasUnboundedPaths(heap, x, cycle, n - 1);
      path := cycle + rest;
      FollowOn(heap, x, cycle, x, rest);
    }
  }

  lemma BoundedMeansAcyclic(heap: Heap, o: PdfObject, n: nat)
    requires PathsAtMost(heap, o, n)
    ensures AcyclicFrom(heap, o)
  {
    forall x | LeadsTo(heap, o, x)
      ensures !Recurs(heap, x)
    {
      if Recurs(heap, x) {
        var path :| Follow(heap, o, path) == Some(x);
        var cycle :| cycle != [] && Follow(heap, x, cycle) == Some(x);
        var longer := CycleHasUnboundedPaths(heap, x, cycle, n + 1);
        FollowOn(heap, o, path, x, longer);
      }
    }
  }

  /** The objects with the given numbers all lead to o. */
  ghost predicate AllLeadTo(heap: Heap, above: set<nat>, o: PdfObject) {
    above <= heap.Keys && forall id :: id in above ==> LeadsTo(heap, heap[id], o)
  }

  lemma LeadsOn(heap: Heap, a: PdfObject, b: PdfObject, c: PdfObject)
    requires LeadsTo(heap, a, b) && LeadsTo(heap, b, c)
    ensures LeadsTo(heap, a, c)
  {
    var path :| Follow(heap, a, path) == Some(b);
    var more :| Follow(heap, b, more) == Some(c);
    FollowOn(heap, a, path, b, more);
  }

  lemma OneStepDown(heap: Heap, o: PdfObject, step: Step, child: PdfObject, above: set<nat>)
    requires Follow(heap, o, [step]) == Some(child) && AcyclicFrom(heap, o) && AllLeadTo(heap, above, o)
    ensures AcyclicFrom(heap, child) && AllLeadTo(heap, above, child)
  {
    assert LeadsTo(heap, o, child);
    forall x | LeadsTo(heap, child, x)
      ensures !Recurs(heap, x)
    {
      LeadsOn(heap, o, child, x);
    }
    forall id | id in above
      ensures LeadsTo(heap, heap[id], child)
    {
      LeadsOn(heap, heap[id], o, child);
    }
  }

  /** A reference followed on the way down is one that was not followed before. */
  lemma ReferenceIsNew(heap: Heap, o: PdfObject, step: Step, id: nat, above: set<nat>)
    requires id in heap && Follow(heap, o, [step]) == Some(heap[id])
    requires AcyclicFrom(heap, o) && AllLeadTo(heap, above, o)
    ensures id !in above && AllLeadTo(heap, above + {id}, heap[id])
  {
    OneStepDown(heap, o, step, heap[id], above);
    assert Follow(heap, heap[id], []) == Some(heap[id]);
    assert LeadsTo(heap, o, heap[id]);
    if id in above {
      var path :| Follow(heap, heap[id], path) == Some(o);
      FollowOn(heap, heap[id], path, o, [step]);
    }
  }

  lemma FewerLeft(heap: Heap, above: set<nat>, id: nat)
    requires id in heap && id !in above
    ensures |heap.Keys - (above + {id})| < |heap.Keys - above|
  {
    assert heap.Keys - (above + {id}) == heap.Keys - above - {id};
  }

  /** Everything reachable from an object free of cycles is reached by paths of bounded length: each reference
      followed on a path is a new one. */
  lemma {:induction false} LongestPath(heap: Heap, o: PdfObject, above: set<nat>) returns (n: nat)
    requires AcyclicFrom(heap, o) && AllLeadTo(heap, above, o)
    ensures PathsAtMost(heap, o, n)
    decreases |heap.Keys - above|, o, 2
  {
    n := 0;
    match o
    case Dictionary(entries) =>
      n := LongestUnder(heap, o, entries.Keys, above);
      n := n + 1;
    case Array(items) =>
      for i := 0 to |items|
        invariant forall k :: 0 <= k < i ==> PathsAtMost(heap, items[k], n)
      {
        FollowItem(heap, o, i);
        OneStepDown(heap, o, Item(i), items[i], above);
        var m := LongestPath(heap, items[i], above);
        n := if m < n then n else m;
      }
      n := n + 1;
    case Reference(id) =>
      assert [Target][1..] == [];
      if id in heap {
        OneStepDown(heap, o, Target, heap[id], above);
        ReferenceIsNew(heap, o, Target, id, above);
        FewerLeft(heap, above, id);
        n := LongestPath(heap, heap[id], above + {id});
      }
      n := n + 1;
    case _ =>
  }

  lemma {:induction false} LongestUnder(heap: Heap, o: PdfObject, keys: set<string>, above: set<nat>) returns (n: nat)
    requires o.Dictionary? && keys <= o.entries.Keys && AcyclicFrom(heap, o) && AllLeadTo(heap, above, o)
    ensures forall k :: k in keys ==> PathsAtMost(heap, Resolve(heap, o.entries[k]), n)
    decreases |heap.Keys - above|, o, 1, |keys|
  {
    n := 0;
    if keys != {} {
      var k :| k in keys;
      var m := LongestFromEntry(heap, o, k, above);
      var rest := LongestUnder(heap, o, keys - {k}, above);
      n := if m < rest then rest else m;
    }
  }

  lemma {:induction false} LongestFromEntry(heap: Heap, o: PdfObject, k: string, above: set<nat>) returns (n: nat)
    requires o.Dictionary? && k in o.entries && AcyclicFrom(heap, o) && AllLeadTo(heap, above, o)
    ensures PathsAtMost(heap, Resolve(heap, o.entries[k]), n)
    decreases |heap.Keys - above|, o, 0
  {
    var entry := o.entries[k];
    var child := Resolve(heap, entry);
    FollowEntry(heap, o, k);
    OneStepDown(heap, o, At(k), child, above);
    n := 0;
    if !entry.Reference? {
      n := LongestPath(heap, entry, above);
    } else if entry.id in heap {
      ReferenceIsNew(heap, o, At(k), entry.id, above);
      FewerLeft(heap, above, entry.id);
      n := LongestPath(heap, child, above + {entry.id});
    }
  }

  /** An object is free of cycles if and only if the paths from it have bounded length: exactly then a walk without a
      visited set ends. */
  lemma PathsBoundedIffAcyclic(heap: Heap, o: PdfObject)
    ensures PathsBounded(heap, o) <==> AcyclicFrom(heap, o)
  {
    if n: nat :| PathsAtMost(heap, o, n) {
      BoundedMeansAcyclic(heap, o, n);
    }
    if AcyclicFrom(heap, o) {
      var n := LongestPath(heap, o, {});
    }
  }

  // ---------- Ranks, by which the walk is seen to end ----------

  /** Every reference inside o leads to an object whose rank is under the bound. */
  ghost predicate RefsBelow(heap: Heap, o: PdfObject, rank: map<nat, nat>, bound: nat)
    decreases o
  {
    match o
    case Dictionary(entries) => forall k :: k in entries ==> RefsBelow(heap, entries[k], rank, bound)
    case Array(items) => forall i :: 0 <= i < |items| ==> RefsBelow(heap, items[i], rank, bound)
    case Reference(id) => (id in heap ==> id in rank) && RankOf(heap, rank, id) < bound
    case _ => true
  }

  ghost function RankOf(heap: Heap, rank: map<nat, nat>, id: nat): nat {
    if id in heap && id in rank then rank[id] else 0
  }

  ghost predicate Ranked(heap: Heap, rank: map<nat, nat>) {
    forall id :: id in heap && id in rank ==> RefsBelow(heap, heap[id], rank, rank[id])
  }

  lemma RefsBelowMonotone(heap: Heap, o: PdfObject, rank: map<nat, nat>, bound: nat, larger: nat)
    requires RefsBelow(heap, o, rank, bound) && bound <= larger
    ensures RefsBelow(heap, o, rank, larger)
  {
  }

  ghost predicate IsLongest(heap: Heap, o: PdfObject, n: nat) {
    PathsAtMost(heap, o, n) && forall m: nat :: PathsAtMost(heap, o, m) ==> n <= m
  }

  lemma {:induction false} SomeLongest(heap: Heap, o: PdfObject, n: nat)
    requires PathsAtMost(heap, o, n)
    ensures exists m: nat :: IsLongest(heap, o, m) && m <= n
  {
    if m: nat :| m < n && PathsAtMost(heap, o, m) {
      SomeLongest(heap, o, m);
    } else {
      assert IsLongest(heap, o, n);
    }
  }

  /** The rank of an object is the length of its longest path; an object without one has no rank. */
  ghost predicate RanksByPaths(heap: Heap, rank: map<nat, nat>) {
    && (forall id :: id in rank ==> id in heap && IsLongest(heap, heap[id], rank[id]))
    && (forall id :: id in heap && PathsBounded(heap, heap[id]) ==> id in rank)
  }

  lemma {:induction false} RanksExist(heap: Heap, ids: set<nat>) returns (rank: map<nat, nat>)
    requires ids <= heap.Keys
    ensures forall id :: id in rank ==> id in ids && IsLongest(heap, heap[id], rank[id])
    ensures forall id :: id in ids && PathsBounded(heap, heap[id]) ==> id in rank
  {
    rank := map[];
    if ids != {} {
      var id :| id in ids;
      rank := RanksExist(heap, ids - {id});
      if PathsBounded(heap, heap[id]) {
        var n: nat :| PathsAtMost(heap, heap[id], n);
        SomeLongest(heap, heap[id], n);
        var m: nat :| IsLongest(heap, heap[id], m);
        rank := rank[id := m];
      }
    }
  }

  lemma PathsFromChild(heap: Heap, o: PdfObject, step: Step, child: PdfObject, n: nat)
    requires PathsAtMost(heap, o, n) && Follow(heap, o, [step]) == Some(child)
    ensures n > 0 && PathsAtMost(heap, child, n - 1)
  {
    forall path | Follow(heap, child, path).Some?
      ensures |path| <= n - 1
    {
      FollowOn(heap, o, [step], child, path);
    }
  }

  lemma TargetBelow(heap: Heap, id: nat, rank: map<nat, nat>, n: nat)
    requires RanksByPaths(heap, rank) && PathsAtMost(heap, Lookup(heap, id), n)
    ensures RefsBelow(heap, Reference(id), rank, n + 1)
  {
  }

  lemma {:induction false} BoundedPathsMeanRefsBelow(heap: Heap, o: PdfObject, rank: map<nat, nat>, n: nat)
    requires RanksByPaths(heap, rank) && PathsAtMost(heap, o, n)
    ensures RefsBelow(heap, o, rank, n)
    decreases o
  {
    match o
    case Dictionary(entries) =>
      forall k | k in entries
        ensures RefsBelow(heap, entries[k], rank, n)
      {
        FollowEntry(heap, o, k);
        PathsFromChild(heap, o, At(k), Resolve(heap, entries[k]), n);
        if entries[k].Reference? {
          TargetBelow(heap, entries[k].id, rank, n - 1);
        } else {
          BoundedPathsMeanRefsBelow(heap, entries[k], rank, n - 1);
          RefsBelowMonotone(heap, entries[k], rank, n - 1, n);
        }
      }
    case Array(items) =>
      forall i | 0 <= i < |items|
        ensures RefsBelow(heap, items[i], rank, n)
      {
        FollowItem(heap, o, i);
        PathsFromChild(heap, o, Item(i), items[i], n);
        BoundedPathsMeanRefsBelow(heap, items[i], rank, n - 1);
        RefsBelowMonotone(heap, items[i], rank, n - 1, n);
      }
    case Reference(id) =>
      assert [Target][1..] == [];
      PathsFromChild(heap, o, Target, Lookup(heap, id), n);
      TargetBelow(heap, id, rank, n - 1);
    case _ =>
  }

  /** Whatever can be reached from an object free of cycles can be ranked. */
  lemma AcyclicIsRanked(heap: Heap, o: PdfObject) returns (rank: map<nat, nat>, bound: nat)
    requires AcyclicFrom(heap, o)
    ensures Ranked(heap, rank) && RefsBelow(heap, o, rank, bound)
  {
    rank := RanksExist(heap, heap.Keys);
    bound := LongestPath(heap, o, {});
    BoundedPathsMeanRefsBelow(heap, o, rank, bound);
    forall id | id in heap && id in rank
      ensures RefsBelow(heap, heap[id], rank, rank[id])
    {
      BoundedPathsMeanRefsBelow(heap, heap[id], rank, rank[id]);
    }
  }

  /** Every step down leads to a lower bound, or to a part of the same object. */
  lemma {:induction false} GoesDown(heap: Heap, o: PdfObject, path: seq<Step>, target: PdfObject, rank: map<nat, nat>,
                                    bound: nat)
    returns (lower: nat)
    requires Ranked(heap, rank) && RefsBelow(heap, o, rank, bound) && Follow(heap, o, path) == Some(target)
    ensures lower <= bound && RefsBelow(heap, target, rank, lower)
    ensures path == [] || lower < bound || target < o
    decreases |path|
  {
    lower := bound;
    if path != [] {
      match o {
        case Dictionary(entries) =>
          var entry := entries[path[0].key];
          assert RefsBelow(heap, entry, rank, bound) && entry < o;
          lower := GoesDown(heap, Resolve(heap, entry), path[1..], target, rank,
                            if entry.Reference? then RankOf(heap, rank, entry.id) else bound);
        case Array(items) => lower := GoesDown(heap, items[path[0].index], path[1..], target, rank, bound);
        case Reference(id) =>
          lower := GoesDown(heap, Lookup(heap, id), path[1..], target, rank, RankOf(heap, rank, id));
      }
    }
  }

  lemma {:induction false} RankedDoesNotRecur(heap: Heap, x: PdfObject, rank: map<nat, nat>, bound: nat)
    requires Ranked(heap, rank) && RefsBelow(heap, x, rank, bound)
    ensures !Recurs(heap, x)
  {
    if Recurs(heap, x) {
      var cycle :| cycle != [] && Follow(heap, x, cycle) == Some(x);
      var lower := GoesDown(heap, x, cycle, x, rank, bound);
      RankedDoesNotRecur(heap, x, rank, lower);
    }
  }

  ghost predicate IsRankedFrom(heap: Heap, o: PdfObject) {
    exists rank, bound: nat :: Ranked(heap, rank) && RefsBelow(heap, o, rank, bound)
  }

  /** An object is free of cycles if and only if what it refers to can be ranked so that every reference leads down.
      What is left unranked, and whatever cycles that has, does not matter. */
  lemma AcyclicIffRanked(heap: Heap, o: PdfObject)
    ensures AcyclicFrom(heap, o) <==> IsRankedFrom(heap, o)
  {
    if AcyclicFrom(heap, o) {
      var rank, bound := AcyclicIsRanked(heap, o);
    }
    if IsRankedFrom(heap, o) {
      var rank, bound: nat :| Ranked(heap, rank) && RefsBelow(heap, o, rank, bound);
      forall x | LeadsTo(heap, o, x)
        ensures !Recurs(heap, x)
      {
        var path :| Follow(heap, o, path) == Some(x);
        var lower := GoesDown(heap, o, path, x, rank, bound);
        RankedDoesNotRecur(heap, x, rank, lower);
      }
    }
  }

  // ---------- The walk ----------

  class FontSets {
    var fnt: set<PdfObject>
    var emb: set<PdfObject>

    constructor ()
      ensures fnt == {} && emb == {}
    {
      fnt, emb := {}, {};
    }

    /** Everything found so far plus everything that can be found from o. */
    twostate predicate Gained(heap: Heap, o: PdfObject)
      reads this
    {
      && (forall f :: f in fnt <==> f in old(fnt) || Somewhere(heap, o, Used(f)))
      && (forall f :: f in emb <==> f in old(emb) || Somewhere(heap, o, Embedded(f)))
    }

    /** Adds to the two sets exactly what is used and what is embedded somewhere under obj, and fails exactly when
        something under obj makes Python raise. The result does not depend on the order of keys. */
    method Walk(heap: Heap, obj: PdfObject, ghost rank: map<nat, nat>, ghost bound: nat) returns (ok: bool)
      requires Ranked(heap, rank) && RefsBelow(heap, obj, rank, bound)
      modifies this
      ensures ok <==> !Somewhere(heap, obj, Fault)
      ensures ok ==> Gained(heap, obj)
      decreases bound, obj, 1
    {
      match obj
      case Dictionary(entries) => ok := WalkDictionary(heap, obj, rank, bound);
      case Array(items) => ok := WalkArray(heap, obj, rank, bound);
      case Reference(id) =>
        ok := Walk(heap, Lookup(heap, id), rank, RankOf(heap, rank, id));
        forall find: Find
          ensures Somewhere(heap, obj, find) <==> Somewhere(heap, Lookup(heap, id), find)
        {
          if Somewhere(heap, Lookup(heap, id), find) {
            StepDown(heap, obj, Target, Lookup(heap, id), find);
          }
          if Somewhere(heap, obj, find) {
            var path := Unfold(heap, obj, find);
          }
        }
      case _ =>
        forall find: Find
          ensures !Somewhere(heap, obj, find)
        {
          if Somewhere(heap, obj, find) {
            var path := Unfold(heap, obj, find);
          }
        }
        ok := true;
    }

    /** What a dictionary itself adds to the sets. */
    method NoteFonts(heap: Heap, obj: PdfObject) returns (ok: bool)
      requires obj.Dictionary?
      modifies this
      ensures ok <==> !Shows(heap, obj, Fault)
      ensures ok ==> forall f :: f in fnt <==> f in old(fnt) || Shows(heap, obj, Used(f))
      ensures ok ==> forall f :: f in emb <==> f in old(emb) || Shows(heap, obj, Embedded(f))
    {
      var base, name, subtype := Entry(heap, obj, "/BaseFont"), Entry(heap, obj, "/FontName"),
                                 Entry(heap, obj, "/Subtype");
      if base.Some? {
        if !Hashable(base.value) {
          return false;
        }
        fnt := fnt + {base.value};
      }
      if name.Some? && HasFontFile(obj) {
        if !Hashable(name.value) {
          return false;
        }
        emb := emb + {name.value};
      }
      ok := !(subtype.Some? && subtype.value.Scalar?);
    }

    method WalkDictionary(heap: Heap, obj: PdfObject, ghost rank: map<nat, nat>, ghost bound: nat) returns (ok: bool)
      requires obj.Dictionary? && Ranked(heap, rank) && RefsBelow(heap, obj, rank, bound)
      modifies this
      ensures ok <==> !Somewhere(heap, obj, Fault)
      ensures ok ==> Gained(heap, obj)
      decreases bound, obj, 0
    {
      forall find | Shows(heap, obj, find)
        ensures Somewhere(heap, obj, find)
      {
        assert ShownAt(heap, obj, [], find);
      }
      ok := NoteFonts(heap, obj);
      if !ok {
        return;
      }
      var rest := obj.entries.Keys;
      while rest != {}
        invariant rest <= obj.entries.Keys
        invariant forall k :: k in obj.entries.Keys - rest ==> !Somewhere(heap, Resolve(heap, obj.entries[k]), Fault)
        invariant forall f :: f in fnt <==>
                    f in old(fnt) || FoundInDictionary(heap, obj, obj.entries.Keys - rest, Used(f))
        invariant forall f :: f in emb <==>
                    f in old(emb) || FoundInDictionary(heap, obj, obj.entries.Keys - rest, Embedded(f))
        decreases rest
      {
        var k :| k in rest;
        var child := Resolve(heap, obj.entries[k]);
        assert RefsBelow(heap, obj.entries[k], rank, bound);
        ok := Walk(heap, child, rank,
                   if obj.entries[k].Reference? then RankOf(heap, rank, obj.entries[k].id) else bound);
        if !ok {
          FollowEntry(heap, obj, k);
          StepDown(heap, obj, At(k), child, Fault);
          return false;
        }
        assert obj.entries.Keys - (rest - {k}) == (obj.entries.Keys - rest) + {k};
        rest := rest - {k};
      }
      assert obj.entries.Keys - {} == obj.entries.Keys;
      forall find: Find
        ensures Somewhere(heap, obj, find) <==> FoundInDictionary(heap, obj, obj.entries.Keys, find)
      {
        DictionaryFinds(heap, obj, find);
      }
      ok := true;
    }

    method WalkArray(heap: Heap, obj: PdfObject, ghost rank: map<nat, nat>, ghost bound: nat) returns (ok: bool)
      requires obj.Array? && Ranked(heap, rank) && RefsBelow(heap, obj, rank, bound)
      modifies this
      ensures ok <==> !Somewhere(heap, obj, Fault)
      ensures ok ==> Gained(heap, obj)
      decreases bound, obj, 0
    {
      for i := 0 to |obj.items|
        invariant forall k :: 0 <= k < i ==> !Somewhere(heap, obj.items[k], Fault)
        invariant forall f :: f in fnt <==> f in old(fnt) || FoundInArray(heap, obj, i, Used(f))
        invariant forall f :: f in emb <==> f in old(emb) || FoundInArray(heap, obj, i, Embedded(f))
      {
        ok := Walk(heap, obj.items[i], rank, bound);
        if !ok {
          FollowItem(heap, obj, i);
          StepDown(heap, obj, Item(i), obj.items[i], Fault);
          return false;
        }
      }
      forall find: Find
        ensures Somewhere(heap, obj, find) <==> FoundInArray(heap, obj, |obj.items|, find)
      {
        ArrayFinds(heap, obj, find);
      }
      ok := true;
    }
  }

  /** Shown by the dictionary itself or under one of the given keys. */
  ghost predicate FoundInDictionary(heap: Heap, d: PdfObject, keys: set<string>, find: Find)
    requires d.Dictionary? && keys <= d.entries.Keys
  {
    Shows(heap, d, find) || exists k :: k in keys && Somewhere(heap, Resolve(heap, d.entries[k]), find)
  }

  ghost predicate FoundInArray(heap: Heap, a: PdfObject, n: nat, find: Find)
    requires a.Array? && n <= |a.items|
  {
    exists i :: 0 <= i < n && Somewhere(heap, a.items[i], find)
  }

  lemma FollowEntry(heap: Heap, d: PdfObject, key: string)
    requires d.Dictionary? && key in d.entries
    ensures Follow(heap, d, [At(key)]) == Some(Resolve(heap, d.entries[key]))
  {
    assert [At(key)][1..] == [];
  }

  lemma FollowItem(heap: Heap, a: PdfObject, i: nat)
    requires a.Array? && i < |a.items|
    ensures Follow(heap, a, [Item(i)]) == Some(a.items[i])
  {
    assert [Item(i)][1..] == [];
  }

  lemma DictionaryFinds(heap: Heap, d: PdfObject, find: Find)
    requires d.Dictionary?
    ensures Somewhere(heap, d, find) <==> FoundInDictionary(heap, d, d.entries.Keys, find)
  {
    if Somewhere(heap, d, find) {
      var path := Unfold(heap, d, find);
    }
    if Shows(heap, d, find) {
      assert ShownAt(heap, d, [], find);
    } else if k :| k in d.entries.Keys && Somewhere(heap, Resolve(heap, d.entries[k]), find) {
      FollowEntry(heap, d, k);
      StepDown(heap, d, At(k), Resolve(heap, d.entries[k]), find);
    }
  }

  lemma ArrayFinds(heap: Heap, a: PdfObject, find: Find)
    requires a.Array?
    ensures Somewhere(heap, a, find) <==> FoundInArray(heap, a, |a.items|, find)
  {
    if Somewhere(heap, a, find) {
      var path := Unfold(heap, a, find);
      assert path != [];
    }
    if i :| 0 <= i < |a.items| && Somewhere(heap, a.items[i], find) {
      FollowItem(heap, a, i);
      StepDown(heap, a, Item(i), a.items[i], find);
    }
  }

  // ---------- The whole file ----------

  /** A page without resources, or anything reachable from its resources that makes Python raise. */
  ghost predicate PageFails(heap: Heap, page: map<string, PdfObject>) {
    "/Resources" !in page || Somewhere(heap, Resolve(heap, page["/Resources"]), Fault)
  }

  ghost predicate PageShows(heap: Heap, page: map<string, PdfObject>, find: Find) {
    "/Resources" in page && Somewhere(heap, Resolve(heap, page["/Resources"]), find)
  }

  /** The answer for a file: the base fonts reachable from some page's resources, less the fonts whose descriptor
      with a font program is reachable from some page's resources. */
  ghost predicate IsAnswer(heap: Heap, pages: seq<map<string, PdfObject>>, answer: Option<set<PdfObject>>) {
    && (answer.None? <==> exists page :: page in pages && PageFails(heap, page))
    && (answer.Some? ==>
          forall f :: f in answer.value <==>
            && (exists page :: page in pages && PageShows(heap, page, Used(f)))
            && (forall page :: page in pages ==> !PageShows(heap, page, Embedded(f))))
  }

  method ContainsUnembeddedFonts(heap: Heap, pages: seq<map<string, PdfObject>>)
    returns (unembedded: Option<set<PdfObject>>)
    requires forall page :: page in pages && "/Resources" in page ==>
               AcyclicFrom(heap, Resolve(heap, page["/Resources"]))
    ensures IsAnswer(heap, pages, unembedded)
  {
    var sets := new FontSets();
    for n := 0 to |pages|
      invariant forall k :: 0 <= k < n ==> !PageFails(heap, pages[k])
      invariant forall f :: f in sets.fnt <==> exists k :: 0 <= k < n && PageShows(heap, pages[k], Used(f))
      invariant forall f :: f in sets.emb <==> exists k :: 0 <= k < n && PageShows(heap, pages[k], Embedded(f))
    {
      if "/Resources" !in pages[n] {
        assert pages[n] in pages && PageFails(heap, pages[n]);
        return None;
      }
      var resources := Resolve(heap, pages[n]["/Resources"]);
      ghost var rank, bound := AcyclicIsRanked(heap, resources);
      var ok := sets.Walk(heap, resources, rank, bound);
      if !ok {
        assert pages[n] in pages && PageFails(heap, pages[n]);
        return None;
      }
    }
    unembedded := Some(sets.fnt - sets.emb);
  }

  /** A dictionary that can be reached from the page's resources. */
  predicate DictionaryAt(heap: Heap, page: map<string, PdfObject>, path: seq<Step>, d: PdfObject) {
    d.Dictionary? && "/Resources" in page && Follow(heap, Resolve(heap, page["/Resources"]), path) == Some(d)
  }

  /** The object at the key, looked up if it is a reference. */
  predicate HasAt(heap: Heap, d: PdfObject, key: string, value: PdfObject) {
    && d.Dictionary? && key in d.entries
    && value == match d.entries[key]
                case Reference(id) => if id in heap then heap[id] else NULL
                case other => other
  }

  /** Used as a base font by a dictionary that can be reached from some page's resources. */
  ghost predicate UsedOnSomePage(heap: Heap, pages: seq<map<string, PdfObject>>, font: PdfObject) {
    exists page, path, d :: page in pages && DictionaryAt(heap, page, path, d) && HasAt(heap, d, "/BaseFont", font)
  }

  /** Named by a dictionary with a font program, in any of the three forms, that can be reached from some page's
      resources. */
  ghost predicate EmbeddedOnSomePage(heap: Heap, pages: seq<map<string, PdfObject>>, font: PdfObject) {
    exists page, path, d ::
      && page in pages && DictionaryAt(heap, page, path, d) && HasAt(heap, d, "/FontName", font)
      && ("/FontFile" in d.entries || "/FontFile2" in d.entries || "/FontFile3" in d.entries)
  }

  /** The answer of a file, in the terms of the PDF standard: the fonts used but not embedded. */
  lemma AnswerIff(heap: Heap, pages: seq<map<string, PdfObject>>, answer: set<PdfObject>, font: PdfObject)
    requires IsAnswer(heap, pages, Some(answer))
    ensures font in answer <==> UsedOnSomePage(heap, pages, font) && !EmbeddedOnSomePage(heap, pages, font)
  {
    UsedIff(heap, pages, font);
    EmbeddedIff(heap, pages, font);
  }

  lemma UsedIff(heap: Heap, pages: seq<map<string, PdfObject>>, font: PdfObject)
    ensures UsedOnSomePage(heap, pages, font) <==> exists page :: page in pages && PageShows(heap, page, Used(font))
  {
    if page, path, d :| page in pages && DictionaryAt(heap, page, path, d) && HasAt(heap, d, "/BaseFont", font) {
      assert ShownAt(heap, Resolve(heap, page["/Resources"]), path, Used(font));
      assert PageShows(heap, page, Used(font));
    }
    if page :| page in pages && PageShows(heap, page, Used(font)) {
      var path :| ShownAt(heap, Resolve(heap, page["/Resources"]), path, Used(font));
      var d := Follow(heap, Resolve(heap, page["/Resources"]), path).value;
      assert DictionaryAt(heap, page, path, d) && HasAt(heap, d, "/BaseFont", font);
    }
  }

  lemma EmbeddedIff(heap: Heap, pages: seq<map<string, PdfObject>>, font: PdfObject)
    ensures EmbeddedOnSomePage(heap, pages, font)
            <==> exists page :: page in pages && PageShows(heap, page, Embedded(font))
  {
    if page, path, d :| page in pages && DictionaryAt(heap, page, path, d) && HasAt(heap, d, "/FontName", font)
                        && ("/FontFile" in d.entries || "/FontFile2" in d.entries || "/FontFile3" in d.entries) {
      assert ShownAt(heap, Resolve(heap, page["/Resources"]), path, Embedded(font));
      assert PageShows(heap, page, Embedded(font));
    }
    if page :| page in pages && PageShows(heap, page, Embedded(font)) {
      var path :| ShownAt(heap, Resolve(heap, page["/Resources"]), path, Embedded(font));
      var d := Follow(heap, Resolve(heap, page["/Resources"]), path).value;
      assert DictionaryAt(heap, page, path, d) && HasAt(heap, d, "/FontName", font);
    }
  }

  predicate IsCollection(o: PdfObject) { o.Dictionary? || o.Array? }

  /** Something in the dictionary that Python cannot put into a set, or cannot search. */
  ghost predicate RaisesAt(heap: Heap, d: PdfObject) {
    || (exists o :: HasAt(heap, d, "/BaseFont", o) && IsCollection(o))
    || (exists o :: HasAt(heap, d, "/FontName", o) && IsCollection(o)
                    && ("/FontFile" in d.entries || "/FontFile2" in d.entries || "/FontFile3" in d.entries))
    || (exists o :: HasAt(heap, d, "/Subtype", o) && o.Scalar?)
  }

  /** There is no answer if and only if some page has no resources, or something reachable from them makes Python
      raise. */
  lemma NoAnswerIff(heap: Heap, pages: seq<map<string, PdfObject>>, answer: Option<set<PdfObject>>)
    requires IsAnswer(heap, pages, answer)
    ensures answer.None? <==>
              || (exists page :: page in pages && "/Resources" !in page)
              || (exists page, path, d :: page in pages && DictionaryAt(heap, page, path, d) && RaisesAt(heap, d))
  {
    if page :| page in pages && "/Resources" in page && PageFails(heap, page) {
      var path :| ShownAt(heap, Resolve(heap, page["/Resources"]), path, Fault);
      var d := Follow(heap, Resolve(heap, page["/Resources"]), path).value;
      FaultIff(heap, d);
      assert DictionaryAt(heap, page, path, d);
    }
    if page, path, d :| page in pages && DictionaryAt(heap, page, path, d) && RaisesAt(heap, d) {
      FaultIff(heap, d);
      assert ShownAt(heap, Resolve(heap, page["/Resources"]), path, Fault);
      assert PageFails(heap, page);
    }
  }

  lemma FaultIff(heap: Heap, d: PdfObject)
    ensures Shows(heap, d, Fault) <==> RaisesAt(heap, d)
    ensures Shows(heap, d, Fault) ==> d.Dictionary?
  {
    forall key, o
      ensures HasAt(heap, d, key, o) <==> Entry(heap, d, key) == Some(o)
    {
    }
    var base, name, subtype := Entry(heap, d, "/BaseFont"), Entry(heap, d, "/FontName"), Entry(heap, d, "/Subtype");
    assert base.Some? ==> HasAt(heap, d, "/BaseFont", base.value);
    assert name.Some? ==> HasAt(heap, d, "/FontName", name.value);
    assert subtype.Some? ==> HasAt(heap, d, "/Subtype", subtype.value);
  }

  /** The answer depends only on which pages there are, not on their order or on how often one occurs. */
  lemma AnswerIsIndependentOfPageOrder(heap: Heap, pages: seq<map<string, PdfObject>>,
                                       others: seq<map<string, PdfObject>>,
                                       a: Option<set<PdfObject>>, b: Option<set<PdfObject>>)
    requires forall page :: page in pages <==> page in others
    requires IsAnswer(heap, pages, a) && IsAnswer(heap, others, b)
    ensures a == b
  {
    if a.Some? && b.Some? {
      forall f
        ensures f in a.value <==> f in b.value
      {
        if f in a.value {
          var page :| page in pages && PageShows(heap, page, Used(f));
          assert page in others;
        }
        if f in b.value {
          var page :| page in others && PageShows(heap, page, Used(f));
          assert page in pages;
        }
      }
      assert a.value == b.value;
    }
  }

  ghost predicate RankedWithout(heap: Heap, o: PdfObject, unranked: set<nat>, rank: map<nat, nat>, bound: nat) {
    Ranked(heap, rank) && RefsBelow(heap, o, rank, bound) && unranked !! rank.Keys
  }

  /** The page tree of every file has a cycle, from a page to its parent and back. Resources are free
      of cycles if and only if they can be ranked without the two, so that cycle does not matter to them. */
  lemma PageTreeMayBeCyclic(heap: Heap, tree: nat, page: nat, resources: PdfObject)
    requires tree in heap && page in heap && tree != page
    requires heap[tree] == Dictionary(map["/Kids" := Array([Reference(page)])])
    requires heap[page] == Dictionary(map["/Parent" := Reference(tree), "/Resources" := resources])
    ensures !AcyclicFrom(heap, heap[page]) && !AcyclicFrom(heap, heap[tree])
    ensures AcyclicFrom(heap, resources) <==>
              exists rank: map<nat, nat>, bound: nat :: RankedWithout(heap, resources, {tree, page}, rank, bound)
  {
    PageLeadsToItself(heap, tree, page, resources);
    if AcyclicFrom(heap, resources) {
      var rank, bound := AcyclicIsRanked(heap, resources);
      if tree in rank {
        RankedDoesNotRecur(heap, heap[tree], rank, rank[tree]);
      }
      if page in rank {
        RankedDoesNotRecur(heap, heap[page], rank, rank[page]);
      }
      assert RankedWithout(heap, resources, {tree, page}, rank, bound);
    }
    AcyclicIffRanked(heap, resources);
  }

  lemma PageLeadsToItself(heap: Heap, tree: nat, page: nat, resources: PdfObject)
    requires tree in heap && page in heap && tree != page
    requires heap[tree] == Dictionary(map["/Kids" := Array([Reference(page)])])
    requires heap[page] == Dictionary(map["/Parent" := Reference(tree), "/Resources" := resources])
    ensures Recurs(heap, heap[page]) && Recurs(heap, heap[tree])
    ensures !AcyclicFrom(heap, heap[page]) && !AcyclicFrom(heap, heap[tree])
  {
    var up, down := [At("/Parent")], [At("/Kids"), Item(0), Target];
    var kids := Array([Reference(page)]);
    assert [Target][1..] == [] && [Item(0), Target][1..] == [Target] && down[1..] == [Item(0), Target];
    assert Follow(heap, Reference(page), [Target]) == Some(heap[page]);
    assert Follow(heap, kids, [Item(0), Target]) == Some(heap[page]);
    assert Follow(heap, heap[tree], down) == Some(heap[page]);
    FollowEntry(heap, heap[page], "/Parent");
    FollowOn(heap, heap[page], up, heap[tree], down);
    FollowOn(heap, heap[tree], down, heap[page], up);
    assert Follow(heap, heap[page], []) == Some(heap[page]) && Follow(heap, heap[tree], []) == Some(heap[tree]);
    assert up + down != [] && down + up != [];
  }
}

/** The two backends as callers see them, without time-to-live: the shared cache with its size limits
    (src/shared_store.rs), the in-process cache with its shards (src/store.rs). */
module Backends {
  import opened Layout
  import opened Collections
  import opened Slabs
  import opened Bisimulation
  import CT = CacheTheorems
  import SM = ShardModel
  import ST = ShardTheorems
  import CM = CachedModel
  import CR = CachedRuns
  import S = SharedIsQueue
  import M = ShardIsQueue

  /** One configuration of both. Calls are given by their key bytes, by which the shared backend tells keys apart; the
      in-process one tells them apart by Python's equality, which `rep` describes: equal keys have the same
      representative (1.0 and 1, say), and that is one of them. */
  datatype Setup = Setup(maxSize: nat, maxKey: nat, maxValue: nat, rep: Bytes -> Bytes, hashOf: Bytes -> int) {
    ghost predicate Valid() {
      maxSize > 0 && forall k :: rep(rep(k)) == rep(k)
    }

    predicate Fits(key: Bytes, value: Bytes) {
      |key| <= maxKey && |value| <= maxValue
    }
  }

  type Memory = CM.Cached<Bytes, Bytes>

  // ---------------------------------------------------------------- requests

  /** What the shared backend does: a call with a large key bypasses the cache, a large result is not stored. */
  ghost function SharedDo(u: Setup, s: Slab, r: Request): (Option<Bytes>, Slab)
    requires WF(s)
  {
    match r
    case Call(k, v, now) =>
      if |k| > u.maxKey then (None, RecordOversize(s))
      else
        GetWF(s, k, now);
        var (g, t) := Get(s, k, now);
        if g.Found? then (Some(g.value), t)
        else if |v| > u.maxValue then (None, RecordOversize(t))
        else (None, Insert(t, k, v, now, []))
    case Look(k, now) => SharedStep(s, r)
    case Assign(k, v, now) => if u.Fits(k, v) then SharedStep(s, r) else (None, RecordOversize(s))
    case ClearAll => SharedStep(s, r)
  }

  lemma SharedDoWF(u: Setup, s: Slab, r: Request)
    requires WF(s)
    ensures WF(SharedDo(u, s, r).1) && |SharedDo(u, s, r).1.cells| == |s.cells|
  {
    hide WF, Insert;
    match r
    case Call(k, v, now) =>
      GetWF(s, k, now);
      InsertWF(Get(s, k, now).1, k, v, now, []);
      SkipWF(s);
      SkipWF(Get(s, k, now).1);
    case Look(k, now) => GetWF(s, k, now);
    case Assign(k, v, now) =>
      InsertWF(s, k, v, now, []);
      SkipWF(s);
    case ClearAll => ClearWF(s);
  }

  lemma SkipWF(s: Slab)
    requires WF(s)
    ensures WF(RecordOversize(s))
  {
  }

  /** The steps of the shared cache that a request takes, and its answer. */
  lemma SharedDoIs(u: Setup, s: Slab, r: Request)
    requires WF(s)
    ensures var (a, t) := SharedDo(u, s, r);
            match r
            case Call(k, v, now) =>
              var (g, h) := Get(s, k, now);
              if |k| > u.maxKey then a == None && t == s.(skips := s.skips + 1)
              else if g.Found? then a == Some(g.value) && t == h
              else if |v| > u.maxValue then a == None && t == h.(skips := h.skips + 1)
              else a == None && WF(h) && t == Insert(h, k, v, now, [])
            case Look(k, now) =>
              var (g, h) := Get(s, k, now);
              a == (if g.Found? then Some(g.value) else None) && t == h
            case Assign(k, v, now) =>
              a == None && t == if |k| <= u.maxKey && |v| <= u.maxValue then Insert(s, k, v, now, []) else s.(skips := s.skips + 1)
            case ClearAll => a == None && t == Clear(s)
  {
    hide Insert, Get, Clear, WF;
    if r.Call? { GetWF(s, r.key, r.now); }
  }

  /** The shard that answers for a key. */
  ghost function ShardFor(u: Setup, c: Memory, key: Bytes): M.State
    requires CM.Sharded(c, u.hashOf, u.maxSize)
  {
    CR.OwnShard(c, u.hashOf, u.maxSize, u.rep(key))
  }

  ghost function Applied(u: Setup, c: Memory, op: CM.Op<Bytes, Bytes>): (d: Memory)
    requires CM.Sharded(c, u.hashOf, u.maxSize)
    ensures CM.Sharded(d, u.hashOf, u.maxSize)
  {
    CM.ApplyKeeps(c, u.hashOf, u.maxSize, None, op);
    CM.Apply(c, u.hashOf, u.maxSize, None, op)
  }

  /** What the in-process backend does: a call is its read phase and, on a miss, its write phase. */
  ghost function MemoryDo(u: Setup, c: Memory, r: Request): (a: (Option<Bytes>, Memory))
    requires CM.Sharded(c, u.hashOf, u.maxSize)
    ensures CM.Sharded(a.1, u.hashOf, u.maxSize)
  {
    match r
    case Call(k, v, now) =>
      var a := SM.Probe(ShardFor(u, c, k), None, u.rep(k), now).0;
      var d := Applied(u, c, CM.DoRead(u.rep(k), now));
      (a, if a.Some? then d else Applied(u, d, CM.DoWrite(u.rep(k), v, now)))
    case Look(k, now) =>
      var a := SM.Probe(ShardFor(u, c, k), None, u.rep(k), now).0;
      var d := Applied(u, c, CM.DoRead(u.rep(k), now));
      (a, if a.Some? then d else Applied(u, d, CM.DoMiss))
    case Assign(k, v, now) => (None, Applied(u, c, CM.DoSet(u.rep(k), v, now)))
    case ClearAll => (None, Applied(u, c, CM.DoClear))
  }

  ghost predicate Present(u: Setup, c: Memory, key: Bytes)
    requires CM.Sharded(c, u.hashOf, u.maxSize)
  {
    u.rep(key) in ShardFor(u, c, key).entries
  }

  /** The request sets no key that is present and stores nothing that is too large for the shared backend. */
  ghost predicate NeutralNow(u: Setup, c: Memory, r: Request)
    requires CM.Sharded(c, u.hashOf, u.maxSize)
  {
    match r
    case Call(k, v, _) => Present(u, c, k) || u.Fits(k, v)
    case Assign(k, v, _) => !Present(u, c, k) && u.Fits(k, v)
    case _ => true
  }

  // ---------------------------------------------------------------- runs

  ghost function SharedAfter(u: Setup, rs: seq<Request>): (s: Slab)
    requires u.Valid()
    ensures WF(s) && |s.cells| == u.maxSize
  {
    if rs == [] then
      CreateWF(u.maxSize, 0);
      Create(u.maxSize, 0)
    else
      var s := SharedAfter(u, rs[..|rs| - 1]);
      SharedDoWF(u, s, rs[|rs| - 1]);
      SharedDo(u, s, rs[|rs| - 1]).1
  }

  ghost function MemoryAfter(u: Setup, rs: seq<Request>): (c: Memory)
    ensures CM.Sharded(c, u.hashOf, u.maxSize)
  {
    if rs == [] then
      assert CR.CachedModel.RunCached<Bytes, Bytes>(u.hashOf, u.maxSize, None, []) == CM.NewCached(u.maxSize);
      CM.NewCached(u.maxSize)
    else MemoryDo(u, MemoryAfter(u, rs[..|rs| - 1]), rs[|rs| - 1]).1
  }

  /** Every request of the run is neutral at its time. */
  ghost predicate NeutralRun(u: Setup, rs: seq<Request>) {
    forall n :: 0 <= n < |rs| ==> NeutralNow(u, MemoryAfter(u, rs[..n]), rs[n])
  }

  /** Every request of the run gets the same answer from both. */
  ghost predicate SameAnswers(u: Setup, rs: seq<Request>)
    requires u.Valid()
  {
    forall n :: 0 <= n < |rs| ==> SharedDo(u, SharedAfter(u, rs[..n]), rs[n]).0 == MemoryDo(u, MemoryAfter(u, rs[..n]), rs[n]).0
  }

  // ---------------------------------------------------------------- one shard

  /** One shard and the shared cache are the same queue and have counted the same; what is stored fits. */
  ghost predicate AlikeNow(u: Setup, s: Slab, c: Memory) {
    |c.shards| == 1 && Alike(s, c.shards[0]) && s.hits == c.hits && s.misses == c.misses && AllFit(u, c.shards[0])
  }

  ghost predicate AllFit(u: Setup, m: M.State) {
    forall k :: k in m.entries ==> u.Fits(k, m.entries[k].value)
  }

  ghost predicate AlikeAllAlong(u: Setup, rs: seq<Request>)
    requires u.Valid()
  {
    forall n :: 0 <= n <= |rs| ==> AlikeNow(u, SharedAfter(u, rs[..n]), MemoryAfter(u, rs[..n]))
  }

  /** Python's equality of keys is equality of their bytes, as far as keys fit the shared backend. */
  ghost predicate KeysByBytes(u: Setup) {
    forall k :: |k| <= u.maxKey || |u.rep(k)| <= u.maxKey ==> u.rep(k) == k
  }

  lemma OnlyShard(u: Setup, c: Memory, key: Bytes)
    requires CM.Sharded(c, u.hashOf, u.maxSize) && CM.ShardCount(u.maxSize) == 1
    ensures |c.shards| == 1 && CR.OwnShard(c, u.hashOf, u.maxSize, key) == c.shards[0] && ST.Bounded(c.shards[0])
  {
    assert CM.ShardOk(c.shards[0], 0, u.hashOf, u.maxSize);
  }

  /** A step of a cache with one shard is a step of that shard. */
  lemma OnlyStep(u: Setup, c: Memory, op: CM.Op<Bytes, Bytes>)
    requires CM.Sharded(c, u.hashOf, u.maxSize) && CM.ShardCount(u.maxSize) == 1
    ensures |c.shards| == 1 && ST.Bounded(c.shards[0])
    ensures var d := Applied(u, c, op);
            && d.shards == [CR.ShardStep(c.shards[0], None, op, CR.Keyed(op))]
            && d.hits == (if op.DoClear? then 0
                          else if op.DoRead? && SM.Probe(c.shards[0], None, op.key, op.now).0.Some? then c.hits + 1 else c.hits)
            && d.misses == (if op.DoClear? then 0 else if op.DoMiss? || op.DoWrite? then c.misses + 1 else c.misses)
  {
    hide CM.ShardCount, CM.PerShard, SM.Store, SM.SetValue, SM.Probe, SM.Covered;
    OnlyShard(u, c, []);
    CM.ApplyKeeps(c, u.hashOf, u.maxSize, None, op);
    var d := Applied(u, c, op);
    OnlyShard(u, d, []);
    CR.ShardOfStep(c, u.hashOf, u.maxSize, None, op, 0);
    assert d.shards == [d.shards[0]];
  }

  /** The request as the in-process backend sees it. */
  function Rekeyed(u: Setup, r: Request): Request {
    match r
    case Call(k, v, now) => Call(u.rep(k), v, now)
    case Look(k, now) => Look(u.rep(k), now)
    case Assign(k, v, now) => Assign(u.rep(k), v, now)
    case ClearAll => ClearAll
  }

  lemma OnlyShardDoes(u: Setup, c: Memory, r: Request)
    requires CM.Sharded(c, u.hashOf, u.maxSize) && CM.ShardCount(u.maxSize) == 1
    ensures |c.shards| == 1 && ST.Bounded(c.shards[0])
    ensures var (a, d) := MemoryDo(u, c, r);
            && a == MemoryStep(c.shards[0], Rekeyed(u, r)).0
            && d.shards == [MemoryStep(c.shards[0], Rekeyed(u, r)).1]
            && d.hits == (if r.ClearAll? then 0 else if a.Some? then c.hits + 1 else c.hits)
            && d.misses == (if r.ClearAll? then 0 else if a.None? && !r.Assign? then c.misses + 1 else c.misses)
    ensures !r.ClearAll? ==> (Present(u, c, r.key) <==> u.rep(r.key) in c.shards[0].entries)
  {
    hide CM.ShardCount, Applied, CM.Sharded, SM.Store, SM.SetValue, SM.Probe;
    OnlyShard(u, c, if r.ClearAll? then [] else u.rep(r.key));
    match r
    case Call(k, v, now) =>
      OnlyStep(u, c, CM.DoRead(u.rep(k), now));
      OnlyStep(u, Applied(u, c, CM.DoRead(u.rep(k), now)), CM.DoWrite(u.rep(k), v, now));
    case Look(k, now) =>
      OnlyStep(u, c, CM.DoRead(u.rep(k), now));
      OnlyStep(u, Applied(u, c, CM.DoRead(u.rep(k), now)), CM.DoMiss);
    case Assign(k, v, now) => OnlyStep(u, c, CM.DoSet(u.rep(k), v, now));
    case ClearAll => OnlyStep(u, c, CM.DoClear);
  }

  // ---------------------------------------------------------------- what parts them

  lemma KeyParts(t: Slab, n: M.State, key: Bytes)
    requires key in n.entries && Find(t, key) == SLOT_NONE
    ensures !Alike(t, n)
  {
    if Alike(t, n) { SameKeys(t, n, key); }
  }

  lemma ValueAt(s: Slab, m: M.State, key: Bytes)
    requires Alike(s, m) && key in m.entries
    ensures 0 <= Find(s, key) < |s.cells| && s.cells[Find(s, key)].value == m.entries[key].value
  {
    SameKeys(s, m, key);
    var p := SieveQueues.Position(S.ItemsOf(s.order, s.cells), key);
    assert S.QueueOf(s).items[p].value == M.QueueOf(m).items[p].value;
  }

  lemma ValueParts(s: Slab, m: M.State, t: Slab, n: M.State, key: Bytes)
    requires Alike(s, m) && t.order == s.order && t.cells == s.cells
    requires key in m.entries && key in n.entries && n.entries[key].value != m.entries[key].value
    ensures !Alike(t, n)
  {
    ValueAt(s, m, key);
    if Alike(t, n) { ValueAt(t, n, key); }
  }

  /** Counters do not matter for what is stored. */
  lemma SameQueue(s: Slab, t: Slab, m: M.State)
    requires Alike(s, m) && t.order == s.order && t.free == s.free && t.cells == s.cells && t.hand == s.hand && t.ttl == s.ttl
    ensures Alike(t, m)
  {
    assert S.QueueOf(t) == S.QueueOf(s);
  }

  lemma FoundIff(s: Slab, m: M.State, key: Bytes, now: nat)
    requires Alike(s, m)
    ensures Get(s, key, now).0.Found? <==> key in m.entries
    ensures key !in m.entries ==> Get(s, key, now).1 == CountMiss(s) && Find(s, key) == SLOT_NONE
    ensures key in m.entries ==> Get(s, key, now).1.hits == s.hits + 1 && Get(s, key, now).1.misses == s.misses
  {
    hide M.QueueOf, M.Steady, Alike;
    SameKeys(s, m, key);
    AlikeNoTtl(s, m);
  }

  lemma AlikeNoTtl(s: Slab, m: M.State)
    requires Alike(s, m)
    ensures s.ttl == 0 && WF(s) && ST.Bounded(m)
  {
  }

  lemma InsertCounts(s: Slab, key: Bytes, value: Bytes, now: nat)
    requires WF(s)
    ensures var t := Insert(s, key, value, now, []); t.hits == s.hits && t.misses == s.misses
  {
  }

  /** What a step of the shard stores. */
  lemma StoredFits(u: Setup, m: M.State, r: Request)
    requires ST.Bounded(m) && AllFit(u, m)
    requires r.Assign? || (r.Call? && r.key !in m.entries) ==> u.Fits(r.key, r.value)
    ensures AllFit(u, MemoryStep(m, r).1)
  {
    hide SM.Store, SM.SetValue;
    match r
    case Call(k, v, now) =>
      ST.ProbeSpec(m, None, k, now);
      ST.StoreSpec(SM.Probe(m, None, k, now).1, None, k, v, now);
    case Look(k, now) =>
    case Assign(k, v, now) => ST.SetSpec(m, k, v, now);
    case ClearAll =>
  }

  lemma StoresKey(m: M.State, r: Request)
    requires ST.Bounded(m) && (r.Assign? || (r.Call? && r.key !in m.entries))
    ensures r.key in MemoryStep(m, r).1.entries && MemoryStep(m, r).1.entries[r.key].value == r.value
    ensures MemoryStep(m, r).0 == None
  {
    hide SM.Store, SM.SetValue;
    if r.Call? {
      ST.StoreSpec(m, None, r.key, r.value, r.now);
    } else {
      ST.SetSpec(m, r.key, r.value, r.now);
    }
  }

  // ---------------------------------------------------------------- single requests, one shard

  /** Where neither key nor value is too large, and on hits, the size limits play no part. */
  lemma PlainDo(u: Setup, s: Slab, m: M.State, r: Request)
    requires Alike(s, m) && (r.Assign? ==> u.Fits(r.key, r.value))
    requires r.Call? ==> |r.key| <= u.maxKey && (|r.value| <= u.maxValue || r.key in m.entries)
    ensures WF(s) && SharedDo(u, s, r) == SharedStep(s, r)
    ensures var (a, t) := SharedStep(s, r);
            && t.hits == (if r.ClearAll? then 0 else if a.Some? then s.hits + 1 else s.hits)
            && t.misses == (if r.ClearAll? then 0 else if a.None? && !r.Assign? then s.misses + 1 else s.misses)
  {
    hide Alike, Insert;
    AlikeNoTtl(s, m);
    match r
    case Call(k, v, now) =>
      FoundIff(s, m, k, now);
      GetWF(s, k, now);
      InsertCounts(Get(s, k, now).1, k, v, now);
    case Look(k, now) => FoundIff(s, m, k, now);
    case Assign(k, v, now) => InsertCounts(s, k, v, now);
    case ClearAll =>
  }

  /** Requests that both treat alike but for the bit of a present key that is set. */
  lemma PlainIff(u: Setup, s: Slab, c: Memory, r: Request)
    requires CM.Sharded(c, u.hashOf, u.maxSize) && CM.ShardCount(u.maxSize) == 1 && AlikeNow(u, s, c)
    requires Rekeyed(u, r) == r && (r.Assign? ==> u.Fits(r.key, r.value))
    requires r.Call? ==> |r.key| <= u.maxKey && (|r.value| <= u.maxValue || r.key in c.shards[0].entries)
    ensures WF(s)
    ensures var (a, t), (b, d) := SharedDo(u, s, r), MemoryDo(u, c, r);
            a == b && (AlikeNow(u, t, d) <==> NeutralNow(u, c, r))
  {
    hide Alike, SharedStep, MemoryStep, SharedDo, MemoryDo, CM.Sharded, CM.ShardCount, AllFit, Present;
    var m := c.shards[0];
    AlikeNoTtl(s, m);
    PlainDo(u, s, m, r);
    OnlyShardDoes(u, c, r);
    StepAlike(s, m, r);
    StoredFits(u, m, r);
  }

  /** A key or a value too large for the shared backend is stored by the in-process one only. */
  lemma OversizeParts(u: Setup, s: Slab, c: Memory, r: Request)
    requires CM.Sharded(c, u.hashOf, u.maxSize) && CM.ShardCount(u.maxSize) == 1 && AlikeNow(u, s, c)
    requires r.Call? || r.Assign?
    requires !u.Fits(r.key, r.value) && (|r.key| <= u.maxKey || u.rep(r.key) in c.shards[0].entries ==> u.rep(r.key) == r.key)
    requires r.Call? ==> u.rep(r.key) !in c.shards[0].entries
    ensures WF(s)
    ensures var (a, t), (b, d) := SharedDo(u, s, r), MemoryDo(u, c, r);
            a == b && !AlikeNow(u, t, d) && !NeutralNow(u, c, r)
  {
    hide Alike, MemoryStep, MemoryDo, CM.Sharded, CM.ShardCount, Present, Insert;
    var m, k := c.shards[0], u.rep(r.key);
    AlikeNoTtl(s, m);
    OnlyShardDoes(u, c, r);
    SameKeys(s, m, k);
    StoresKey(m, Rekeyed(u, r));
    if r.Call? { FoundIff(s, m, k, r.now); }
    var t := SharedDo(u, s, r).1;
    if k in m.entries {
      ValueParts(s, m, t, MemoryStep(m, Rekeyed(u, r)).1, k);
    } else {
      KeyParts(t, MemoryStep(m, Rekeyed(u, r)).1, k);
    }
  }

  lemma LookIff(u: Setup, s: Slab, c: Memory, r: Request)
    requires CM.Sharded(c, u.hashOf, u.maxSize) && CM.ShardCount(u.maxSize) == 1 && AlikeNow(u, s, c)
    requires r.Look? && r.key !in c.shards[0].entries && u.rep(r.key) !in c.shards[0].entries
    ensures WF(s)
    ensures var (a, t), (b, d) := SharedDo(u, s, r), MemoryDo(u, c, r);
            a == b && AlikeNow(u, t, d)
  {
    hide Alike, MemoryDo, CM.Sharded, CM.ShardCount, Present;
    var m := c.shards[0];
    AlikeNoTtl(s, m);
    OnlyShardDoes(u, c, r);
    FoundIff(s, m, r.key, r.now);
    SameQueue(s, CountMiss(s), m);
  }

  /** With one shard and keys told apart alike, every request gets equal answers from states that are alike, and it
      leaves them alike exactly when it is neutral. */
  lemma RequestIff(u: Setup, s: Slab, c: Memory, r: Request)
    requires u.Valid() && KeysByBytes(u) && CM.ShardCount(u.maxSize) == 1
    requires CM.Sharded(c, u.hashOf, u.maxSize) && AlikeNow(u, s, c)
    ensures WF(s)
    ensures var (a, t), (b, d) := SharedDo(u, s, r), MemoryDo(u, c, r);
            a == b && (AlikeNow(u, t, d) <==> NeutralNow(u, c, r))
  {
    hide Alike, MemoryDo, SharedDo, CM.Sharded, CM.ShardCount, Present;
    if r.ClearAll? {
      PlainIff(u, s, c, r);
    } else {
      var m := c.shards[0];
      assert u.rep(r.key) in m.entries || r.key in m.entries ==> u.rep(r.key) == r.key;
      if u.rep(r.key) == r.key && (r.Look? || u.Fits(r.key, r.value) || (r.Call? && r.key in m.entries)) {
        PlainIff(u, s, c, r);
      } else if r.Look? {
        LookIff(u, s, c, r);
      } else {
        OversizeParts(u, s, c, r);
      }
    }
  }

  // ---------------------------------------------------------------- whole runs, one shard

  lemma OneMoreRequest(u: Setup, rs: seq<Request>, n: nat)
    requires u.Valid() && n < |rs|
    ensures SharedAfter(u, rs[..n + 1]) == SharedDo(u, SharedAfter(u, rs[..n]), rs[n]).1
    ensures MemoryAfter(u, rs[..n + 1]) == MemoryDo(u, MemoryAfter(u, rs[..n]), rs[n]).1
  {
    hide SharedDo, MemoryDo;
    assert rs[..n + 1][..n] == rs[..n];
  }

  lemma AlikeAtFirst(u: Setup)
    requires u.Valid() && CM.ShardCount(u.maxSize) == 1
    ensures AlikeNow(u, SharedAfter(u, []), MemoryAfter(u, []))
  {
    EmptyAlike(u.maxSize);
    assert CM.PerShard(u.maxSize) == u.maxSize;
  }

  lemma {:induction false} AlikeUntil(u: Setup, rs: seq<Request>, n: nat)
    requires u.Valid() && KeysByBytes(u) && CM.ShardCount(u.maxSize) == 1 && n <= |rs|
    requires forall i :: 0 <= i < n ==> NeutralNow(u, MemoryAfter(u, rs[..i]), rs[i])
    ensures AlikeNow(u, SharedAfter(u, rs[..n]), MemoryAfter(u, rs[..n]))
  {
    hide AlikeNow, NeutralNow, KeysByBytes, CM.ShardCount, CM.Sharded, SharedDo, MemoryDo;
    if n == 0 {
      AlikeAtFirst(u);
      assert rs[..0] == [];
    } else {
      AlikeUntil(u, rs, n - 1);
      RequestIff(u, SharedAfter(u, rs[..n - 1]), MemoryAfter(u, rs[..n - 1]), rs[n - 1]);
      OneMoreRequest(u, rs, n - 1);
    }
  }

  /** With one shard and keys told apart alike, the backends stay alike all along a run exactly when it is neutral, and
      then all its answers are equal. */
  lemma AlikeIffNeutral(u: Setup, rs: seq<Request>)
    requires u.Valid() && KeysByBytes(u) && CM.ShardCount(u.maxSize) == 1
    ensures AlikeAllAlong(u, rs) <==> NeutralRun(u, rs)
    ensures NeutralRun(u, rs) ==> SameAnswers(u, rs)
  {
    hide AlikeNow, NeutralNow, KeysByBytes, CM.ShardCount, CM.Sharded, SharedDo, MemoryDo;
    if NeutralRun(u, rs) {
      forall n: nat | n <= |rs| ensures AlikeNow(u, SharedAfter(u, rs[..n]), MemoryAfter(u, rs[..n])) {
        AlikeUntil(u, rs, n);
      }
    }
    if AlikeAllAlong(u, rs) {
      forall n: nat | n < |rs|
        ensures NeutralNow(u, MemoryAfter(u, rs[..n]), rs[n])
        ensures SharedDo(u, SharedAfter(u, rs[..n]), rs[n]).0 == MemoryDo(u, MemoryAfter(u, rs[..n]), rs[n]).0
      {
        RequestIff(u, SharedAfter(u, rs[..n]), MemoryAfter(u, rs[..n]), rs[n]);
        OneMoreRequest(u, rs, n);
      }
    }
  }

  // ---------------------------------------------------------------- keys equal in Python only

  lemma SharedCallStores(u: Setup, s: Slab, key: Bytes)
    requires WF(s) && s.ttl == 0 && |key| <= u.maxKey && |CT.ContentsOf(s)| < |s.cells|
    ensures var t := SharedDo(u, s, Call(key, [], 0)).1;
            && WF(t) && t.ttl == 0 && |t.cells| == |s.cells|
            && CT.ContentsOf(t).Keys == CT.ContentsOf(s).Keys + {key}
  {
    hide WF, CT.ContentsOf, Insert;
    CT.GetSpec(s, key, 0);
    var (g, t) := Get(s, key, 0);
    SharedDoWF(u, s, Call(key, [], 0));
    GetKeepsTtl(s, key, 0);
    CT.InsertSpec(t, key, [], 0, []);
  }

  lemma GetKeepsTtl(s: Slab, key: Bytes, now: nat)
    ensures Get(s, key, now).1.ttl == s.ttl && |Get(s, key, now).1.cells| == |s.cells|
  {
  }

  lemma SharedLookIff(u: Setup, s: Slab, key: Bytes)
    requires WF(s) && s.ttl == 0
    ensures SharedDo(u, s, Look(key, 0)).0.Some? <==> key in CT.ContentsOf(s)
  {
    hide WF, CT.ContentsOf;
    CT.GetSpec(s, key, 0);
  }

  lemma MemoryLookIff(u: Setup, c: Memory, key: Bytes)
    requires CM.Sharded(c, u.hashOf, u.maxSize)
    ensures MemoryDo(u, c, Look(key, 0)).0.Some? <==> Present(u, c, key)
  {
    hide CM.Sharded, CR.OwnShard;
  }

  lemma MemoryCallStores(u: Setup, c: Memory, key: Bytes)
    requires CM.Sharded(c, u.hashOf, u.maxSize)
    ensures Present(u, MemoryDo(u, c, Call(key, [], 0)).1, key)
  {
    hide CM.Sharded, SM.Store, SM.Probe, CM.Apply, CR.OwnShard;
    var k := u.rep(key);
    var d := Applied(u, c, CM.DoRead(k, 0));
    var m := ShardFor(u, c, key);
    CM.ApplyKeeps(c, u.hashOf, u.maxSize, None, CM.DoRead(k, 0));
    CR.OwnStep(c, u.hashOf, u.maxSize, None, CM.DoRead(k, 0), k);
    ST.ProbeSpec(m, None, k, 0);
    CM.ApplyKeeps(d, u.hashOf, u.maxSize, None, CM.DoWrite(k, [], 0));
    CR.OwnStep(d, u.hashOf, u.maxSize, None, CM.DoWrite(k, [], 0), k);
    ST.StoreSpec(ShardFor(u, d, key), None, k, [], 0);
  }

  lemma EmptyContents(capacity: nat)
    requires capacity > 0
    ensures WF(Create(capacity, 0)) && CT.ContentsOf(Create(capacity, 0)) == map[]
  {
    CreateWF(capacity, 0);
  }

  /** Two keys that are equal in Python and differ in bytes: stored under one, asked for under the other. */
  lemma EqualKeysPart(u: Setup, a: Bytes, b: Bytes)
    requires u.Valid() && u.rep(a) == u.rep(b) && a != b && |a| <= u.maxKey
    ensures var rs := [Call(a, [], 0), Look(b, 0)]; NeutralRun(u, rs) && !SameAnswers(u, rs)
  {
    hide CM.Sharded, SharedDo, MemoryDo, WF, CT.ContentsOf, Present;
    var rs := [Call(a, [], 0), Look(b, 0)];
    assert rs[..0] == [];
    assert rs[..1] == [Call(a, [], 0)];
    OneMoreRequest(u, rs, 0);
    EmptyContents(u.maxSize);
    var s, c := SharedAfter(u, []), MemoryAfter(u, []);
    SharedCallStores(u, s, a);
    MemoryCallStores(u, c, a);
    SharedLookIff(u, SharedAfter(u, rs[..1]), b);
    MemoryLookIff(u, MemoryAfter(u, rs[..1]), b);
    assert Present(u, MemoryAfter(u, rs[..1]), b) by { SamePresent(u, MemoryAfter(u, rs[..1]), a, b); }
    forall n | 0 <= n < |rs| ensures NeutralNow(u, MemoryAfter(u, rs[..n]), rs[n]) {
    }
    assert SharedDo(u, SharedAfter(u, rs[..1]), rs[1]).0 != MemoryDo(u, MemoryAfter(u, rs[..1]), rs[1]).0;
  }

  lemma SamePresent(u: Setup, c: Memory, a: Bytes, b: Bytes)
    requires CM.Sharded(c, u.hashOf, u.maxSize) && u.rep(a) == u.rep(b)
    ensures Present(u, c, a) <==> Present(u, c, b)
  {
  }

  // ---------------------------------------------------------------- more than one shard

  /** Keys of every hash up to the size of a full cache, small enough for the shared backend. */
  ghost predicate Reaches(u: Setup, keyOf: nat -> Bytes) {
    forall n: nat :: n <= CR.Largest(u.maxSize) ==> |keyOf(n)| <= u.maxKey && u.hashOf(keyOf(n)) == n
  }

  function Calls(keys: seq<Bytes>): (rs: seq<Request>)
    ensures |rs| == |keys| && forall i :: 0 <= i < |keys| ==> rs[i] == Call(keys[i], [], 0)
  {
    seq(|keys|, i requires 0 <= i < |keys| => Call(keys[i], [], 0))
  }

  lemma LastCall(u: Setup, keys: seq<Bytes>)
    requires u.Valid() && keys != []
    ensures var n := |keys| - 1;
            SharedAfter(u, Calls(keys)) == SharedDo(u, SharedAfter(u, Calls(keys[..n])), Call(keys[n], [], 0)).1
  {
    hide SharedDo;
    assert Calls(keys)[..|keys| - 1] == Calls(keys[..|keys| - 1]);
  }

  lemma LastElement(keys: seq<Bytes>)
    requires keys != [] && Distinct(keys)
    ensures var n := |keys| - 1;
            Distinct(keys[..n]) && |Elements(keys[..n])| == n && Elements(keys) == Elements(keys[..n]) + {keys[n]}
  {
    var n := |keys| - 1;
    ElementsSize(keys[..n]);
    assert keys == keys[..n] + [keys[n]];
  }

  /** The shared cache keeps as many keys as it has slots, whatever they are. */
  lemma {:induction false} SharedKeepsAll(u: Setup, keys: seq<Bytes>)
    requires u.Valid() && |keys| <= u.maxSize && Distinct(keys)
    requires forall i :: 0 <= i < |keys| ==> |keys[i]| <= u.maxKey
    ensures var s := SharedAfter(u, Calls(keys)); s.ttl == 0 && CT.ContentsOf(s).Keys == Elements(keys)
  {
    hide SharedDo, WF, CT.ContentsOf, Distinct, Elements, Calls;
    if keys == [] {
      EmptyContents(u.maxSize);
      assert Calls(keys) == [];
      assert Elements(keys) == {} by { NoElements(); }
    } else {
      var n := |keys| - 1;
      LastElement(keys);
      LastCall(u, keys);
      SharedKeepsAll(u, keys[..n]);
      var s := SharedAfter(u, Calls(keys[..n]));
      assert |CT.ContentsOf(s)| == |CT.ContentsOf(s).Keys|;
      SharedCallStores(u, s, keys[n]);
    }
  }

  lemma NoElements()
    ensures Elements<Bytes>([]) == {}
  {
  }

  lemma CallsNeutral(u: Setup, keys: seq<Bytes>, key: Bytes)
    requires forall i :: 0 <= i < |keys| ==> |keys[i]| <= u.maxKey
    ensures NeutralRun(u, Calls(keys) + [Look(key, 0)])
  {
  }

  /** More keys than a shard has room for: it lacks one of them. */
  lemma {:induction false} OneIsMissing<V>(entries: map<Bytes, V>, keys: seq<Bytes>) returns (j: nat)
    requires Distinct(keys) && |keys| > |entries|
    ensures j < |keys| && keys[j] !in entries
  {
    ElementsSize(keys);
    if forall i :: 0 <= i < |keys| ==> keys[i] in entries {
      SubsetSize(Elements(keys), entries.Keys);
      assert false;
    }
    j :| 0 <= j < |keys| && keys[j] !in entries;
  }

  /** The keys whose hashes are the first multiples of the number of shards: all of shard 0. */
  ghost function ShardZero(u: Setup, keyOf: nat -> Bytes, n: nat): (keys: seq<Bytes>)
    ensures |keys| == n && forall q :: 0 <= q < n ==> keys[q] == keyOf(CR.Number(CM.ShardCount(u.maxSize), 0, q))
  {
    seq(n, q requires 0 <= q => keyOf(CR.Number(CM.ShardCount(u.maxSize), 0, q)))
  }

  lemma NumberMonotone(n: nat, p: nat, q: nat)
    requires n > 0 && p < q
    ensures CR.Number(n, 0, p) < CR.Number(n, 0, q)
  {
    assert q * n == p * n + (q - p) * n;
    MulAtLeast(q - p, n);
  }

  lemma ShardZeroKeys(u: Setup, keyOf: nat -> Bytes, n: nat)
    requires u.Valid() && KeysByBytes(u) && Reaches(u, keyOf)
    requires CM.ShardCount(u.maxSize) > 0 && n <= CM.PerShard(u.maxSize) + 1
    ensures var keys := ShardZero(u, keyOf, n);
            && Distinct(keys)
            && forall q :: 0 <= q < n ==> |keys[q]| <= u.maxKey && u.rep(keys[q]) == keys[q]
                                          && CM.ShardIndex(u.hashOf(keys[q]), CM.ShardCount(u.maxSize)) == 0
  {
    hide CM.ShardCount, CM.PerShard, CM.ShardIndex, CR.Number, CR.Largest;
    var keys, S := ShardZero(u, keyOf, n), CM.ShardCount(u.maxSize);
    forall q | 0 <= q < n
      ensures u.hashOf(keys[q]) == CR.Number(S, 0, q) && |keys[q]| <= u.maxKey && u.rep(keys[q]) == keys[q]
      ensures CM.ShardIndex(u.hashOf(keys[q]), S) == 0
    {
      NumberInReach(u, q);
      CR.NumberShard(u.maxSize, q, 0);
    }
    forall p, q | 0 <= p < q < n ensures keys[p] != keys[q] {
      NumberMonotone(S, p, q);
    }
  }

  lemma NumberInReach(u: Setup, q: nat)
    requires CM.ShardCount(u.maxSize) > 0 && q <= CM.PerShard(u.maxSize)
    ensures CR.Number(CM.ShardCount(u.maxSize), 0, q) <= CR.Largest(u.maxSize)
  {
    hide CM.ShardCount, CM.PerShard;
    var n, p := CM.ShardCount(u.maxSize), CM.PerShard(u.maxSize);
    assert n * p == q * n + (p - q) * n;
    assert (p - q) * n >= 0;
    assert n * ST.AtLeastOne(p) >= n * p;
  }

  /** A shard holds fewer keys than the whole cache may, as soon as there are two. */
  lemma ShardIsSmaller(maxSize: nat)
    requires CM.ShardCount(maxSize) > 1
    ensures 0 < CM.PerShard(maxSize) < maxSize
  {
    hide CM.ShardCount;
    CM.ShardCountSpec(maxSize);
    var n := CM.ShardCount(maxSize);
    CM.CeilDivBound(maxSize, n);
    CR.PerShardPositive(maxSize);
    SixteenFor(maxSize);
    var p := CM.PerShard(maxSize);
    if n == 2 { assert 2 * p <= maxSize + 1; }
    else if n == 4 { assert 4 * p <= maxSize + 3; }
    else if n == 8 { assert 8 * p <= maxSize + 7; }
    else { assert 16 * p <= maxSize + 15; }
  }

  lemma SixteenFor(maxSize: nat)
    ensures CM.ShardCount(maxSize) == 1 <==> maxSize < 16
  {
    var c := CM.Clamp(maxSize / CM.MIN_SHARD_SIZE, 1, CM.MAX_SHARDS);
    assert DoubleUntil(1, c) == (if 1 >= c then 1 else DoubleUntil(2, c));
    if c > 1 { DoubleAtLeast(2, c); }
  }

  lemma {:induction false} DoubleAtLeast(p: nat, n: nat)
    requires p > 0
    ensures DoubleUntil(p, n) >= p
    decreases n - p
  {
    if p < n { DoubleAtLeast(2 * p, n); }
  }

  /** Two or more shards: one more key for shard 0 than it has room for, all of them called for, one of them asked for. */
  lemma ShardsPart(u: Setup, keyOf: nat -> Bytes) returns (rs: seq<Request>)
    requires u.Valid() && KeysByBytes(u) && Reaches(u, keyOf) && CM.ShardCount(u.maxSize) > 1
    ensures NeutralRun(u, rs) && !SameAnswers(u, rs)
  {
    hide CM.ShardCount, CM.PerShard, CM.ShardIndex, KeysByBytes, Reaches, SharedDo, MemoryDo, WF, CT.ContentsOf, ShardZero;
    ShardIsSmaller(u.maxSize);
    var n := CM.PerShard(u.maxSize) + 1;
    ShardZeroKeys(u, keyOf, n);
    var keys := ShardZero(u, keyOf, n);
    var c := MemoryAfter(u, Calls(keys));
    assert CM.ShardOk(c.shards[0], 0, u.hashOf, u.maxSize);
    var j := OneIsMissing(c.shards[0].entries, keys);
    rs := Calls(keys) + [Look(keys[j], 0)];
    CallsNeutral(u, keys, keys[j]);
    SharedKeepsAll(u, keys);
    SharedLookIff(u, SharedAfter(u, Calls(keys)), keys[j]);
    MemoryLookIff(u, c, keys[j]);
    assert rs[..n] == Calls(keys);
    assert SharedDo(u, SharedAfter(u, rs[..n]), rs[n]).0 != MemoryDo(u, MemoryAfter(u, rs[..n]), rs[n]).0;
  }

  // ---------------------------------------------------------------- the exact condition

  /** All neutral runs get equal answers from both backends exactly when max_size is below 16, so that there is one shard,
      and Python tells keys apart as their bytes do. */
  lemma BackendsAgreeIff(u: Setup, keyOf: nat -> Bytes)
    requires u.Valid() && Reaches(u, keyOf)
    ensures (forall rs :: NeutralRun(u, rs) ==> SameAnswers(u, rs)) <==> u.maxSize < 16 && KeysByBytes(u)
    ensures CM.ShardCount(u.maxSize) == 1 <==> u.maxSize < 16
  {
    hide NeutralRun, SameAnswers, CM.ShardCount, Reaches;
    SixteenFor(u.maxSize);
    if !KeysByBytes(u) {
      var k :| (|k| <= u.maxKey || |u.rep(k)| <= u.maxKey) && u.rep(k) != k;
      if |k| <= u.maxKey { EqualKeysPart(u, k, u.rep(k)); } else { EqualKeysPart(u, u.rep(k), k); }
    } else if u.maxSize >= 16 {
      CM.ShardCountSpec(u.maxSize);
      var rs := ShardsPart(u, keyOf);
    } else {
      forall rs ensures NeutralRun(u, rs) ==> SameAnswers(u, rs) {
        AlikeIffNeutral(u, rs);
      }
    }
  }
}

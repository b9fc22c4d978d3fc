/** The in-process cached function (src/store.rs): sharding by masked hash, and what holds over every run. */
module ShardTheorems {
  import opened Layout
  import opened Collections
  import opened ShardModel

  function AtLeastOne(n: nat): nat {
    if n == 0 then 1 else n
  }

  /** A capacity of zero still holds one entry. */
  ghost predicate Bounded<K, V>(s: ShardState<K, V>) {
    Covered(s) && |s.entries| <= AtLeastOne(s.capacity)
  }

  /** The entries of t are those of s, up to cleared bits, plus the new one; at most one other key was lost, and
      only by a shard that was full without the key. */
  ghost predicate Stored<K, V>(s: ShardState<K, V>, t: ShardState<K, V>, key: K, value: V, now: nat) {
    && key in t.entries && t.entries[key] == Entry(value, now, false)
    && t.entries.Keys <= s.entries.Keys + {key}
    && (forall k :: k in t.entries && k != key ==> ClearedAtMost(s.entries[k], t.entries[k]))
    && var others := |s.entries.Keys - {key}|;
       |t.entries| == if others < s.capacity then others + 1 else AtLeastOne(s.capacity)
  }

  lemma PushStored<K, V>(s: ShardState<K, V>, key: K, value: V, now: nat)
    requires Covered(s) && key !in s.entries
    ensures var t := PushBack(MakeRoom(s), key, value, now);
            && Bounded(t) && t.capacity == s.capacity && Stored(s, t, key, value, now)
            && (forall k :: k in t.order ==> k in s.order || k == key)
  {
    hide MakeRoom, PushBack, Covered;
    MakeRoomSpec(s);
    var u := MakeRoom(s);
    PushBackFacts(u, key, value, now);
    OthersSize(s.entries, key);
  }

  lemma OthersSize<K, W>(m: map<K, W>, key: K)
    requires key !in m
    ensures |m.Keys - {key}| == |m|
  {
    assert m.Keys - {key} == m.Keys;
  }

  lemma PushBackFacts<K, V>(s: ShardState<K, V>, key: K, value: V, now: nat)
    requires Covered(s) && key !in s.entries
    ensures var t := PushBack(s, key, value, now);
            && Covered(t) && t.entries.Keys == s.entries.Keys + {key} && |t.entries| == |s.entries| + 1
            && t.capacity == s.capacity && t.entries == s.entries[key := Entry(value, now, false)]
            && (forall k :: k in t.order ==> k in s.order || k == key)
  {
    var t := PushBack(s, key, value, now);
    assert t.entries.Keys == s.entries.Keys + {key};
    assert |t.entries.Keys| == |s.entries.Keys| + 1;
    assert t.order[|s.order|] == key;
    assert forall k :: k in s.order ==> k in t.order;
  }

  /** The write phase of a call stores nothing over a fresh entry; otherwise it stores, losing at most one other key. */
  lemma StoreSpec<K, V>(s: ShardState<K, V>, ttl: Ttl, key: K, value: V, now: nat)
    requires Bounded(s)
    ensures var t := Store(s, ttl, key, value, now);
            && Bounded(t) && t.capacity == s.capacity
            && (if NeedsInsert(s, ttl, key, now) then Stored(s, t, key, value, now) else t == s)
            && (forall k :: k in t.order ==> k in s.order || k == key)
  {
    hide MakeRoom, PushBack;
    if NeedsInsert(s, ttl, key, now) {
      var u := s.(entries := s.entries - {key});
      assert Covered(u);
      PushStored(u, key, value, now);
      assert u.entries.Keys - {key} == s.entries.Keys - {key};
    }
  }

  lemma SetSpec<K, V>(s: ShardState<K, V>, key: K, value: V, now: nat)
    requires Bounded(s)
    ensures var t := SetValue(s, key, value, now);
            && Bounded(t) && t.capacity == s.capacity
            && (if key in s.entries then t == s.(entries := s.entries[key := Entry(value, now, false)])
                else Stored(s, t, key, value, now))
            && (forall k :: k in t.order ==> k in s.order || k == key)
  {
    if key !in s.entries {
      PushStored(s, key, value, now);
    } else {
      assert s.entries[key := Entry(value, now, false)].Keys == s.entries.Keys;
      assert |SetValue(s, key, value, now).entries.Keys| == |s.entries.Keys|;
    }
  }

  lemma ProbeSpec<K, V>(s: ShardState<K, V>, ttl: Ttl, key: K, now: nat)
    requires Bounded(s)
    ensures var (r, t) := Probe(s, ttl, key, now);
            && Bounded(t) && t.capacity == s.capacity && t.order == s.order && t.entries.Keys == s.entries.Keys
            && (r.Some? <==> !NeedsInsert(s, ttl, key, now))
            && (r.Some? ==> key in s.entries && r.value == s.entries[key].value)
  {
    var t := Probe(s, ttl, key, now).1;
    assert t.entries.Keys == s.entries.Keys;
    assert |t.entries.Keys| == |s.entries.Keys|;
  }

  /** A stored key is hit exactly while its time-to-live lasts (a time-to-live of zero is one), with its value, and then
      it is marked visited; else the shard stays as it is. */
  lemma ProbeInTime<K, V>(s: ShardState<K, V>, ttl: Ttl, key: K, now: nat)
    requires key in s.entries
    ensures var e, (r, t) := s.entries[key], Probe(s, ttl, key, now);
            if ttl.None? || now <= e.created + ttl.value then
              r == Some(e.value) && t == s.(entries := s.entries[key := Entry(e.value, e.created, true)])
            else r == None && t == s
  {
  }

  lemma ProbeAbsent<K, V>(s: ShardState<K, V>, ttl: Ttl, key: K, now: nat)
    requires key !in s.entries
    ensures Probe(s, ttl, key, now) == (None, s)
  {
  }

  /** The write phase of a call overwrites a stored key exactly when a time-to-live is set and over; a key that is not
      stored is always stored. */
  lemma StoreInTime<K, V>(s: ShardState<K, V>, ttl: Ttl, key: K, value: V, now: nat)
    requires Bounded(s)
    ensures var t := Store(s, ttl, key, value, now);
            if key in s.entries && (ttl.None? || now <= s.entries[key].created + ttl.value) then t == s
            else key in t.entries && t.entries[key] == Entry(value, now, false) && t.order != [] && t.order[|t.order| - 1] == key
  {
    hide MakeRoom;
    StoreSpec(s, ttl, key, value, now);
    if NeedsInsert(s, ttl, key, now) { assert Covered(s.(entries := s.entries - {key})); }
  }

  /** The whole shard after a store that does store: with room nobody is evicted; without, `evict_one` takes exactly one
      entry; a shard of capacity zero is emptied first. The key goes to the back of the deque, unvisited. */
  lemma StoreWhole<K, V>(s: ShardState<K, V>, ttl: Ttl, key: K, value: V, now: nat)
    requires Bounded(s) && (key in s.entries ==> ttl.Some? && now > s.entries[key].created + ttl.value)
    ensures var others := s.(entries := s.entries - {key});
            var room := if |others.entries| < s.capacity then others
                        else if s.capacity > 0 then EvictOne(others)
                        else others.(entries := map[], order := []);
            var t := Store(s, ttl, key, value, now);
            && t.entries == room.entries[key := Entry(value, now, false)]
            && t.order == room.order + [key]
            && (s.capacity > 0 ==> t.hand == room.hand)
  {
    hide EvictOne, Covered, DropAt;
    var others := s.(entries := s.entries - {key});
    FewerOthers(s, key);
    if |others.entries| >= s.capacity > 0 { OneRound(others); }
    if s.capacity == 0 { RoomOfNone(others); }
  }

  /** The whole shard after a set: a stored key keeps its place in the deque; a new one takes it as in a store. */
  lemma SetWhole<K, V>(s: ShardState<K, V>, key: K, value: V, now: nat)
    requires Bounded(s)
    ensures key in s.entries ==> SetValue(s, key, value, now) == s.(entries := s.entries[key := Entry(value, now, false)])
    ensures key !in s.entries ==> SetValue(s, key, value, now) == Store(s, None, key, value, now)
  {
    hide MakeRoom;
    if key !in s.entries {
      assert s.entries - {key} == s.entries;
      assert s.(entries := s.entries - {key}) == s;
    }
  }

  lemma ClearedIs<K, V>(s: ShardState<K, V>)
    ensures var t := Cleared(s);
            t.entries == map[] && t.order == [] && t.hand == 0 && t.capacity == s.capacity
  {
  }

  lemma FewerOthers<K, V>(s: ShardState<K, V>, key: K)
    requires Bounded(s)
    ensures Covered(s.(entries := s.entries - {key})) && |s.entries - {key}| <= |s.entries|
  {
    assert (s.entries - {key}).Keys <= s.entries.Keys;
    SubsetSize((s.entries - {key}).Keys, s.entries.Keys);
  }

  lemma OneRound<K, V>(s: ShardState<K, V>)
    requires Covered(s) && |s.entries| == s.capacity > 0
    ensures MakeRoom(s) == EvictOne(s)
  {
    EvictOneSpec(s);
    var t := EvictOne(s);
    var v :| Evicted(s, t, v);
    EvictedSize(s, t, v);
    if t.order != [] { assert MakeRoom(t) == t; }
  }

  /** A shard without capacity is emptied. */
  lemma {:induction false} RoomOfNone<K, V>(s: ShardState<K, V>)
    requires Covered(s) && s.capacity == 0
    ensures MakeRoom(s).order == [] && MakeRoom(s).entries == map[]
    decreases |s.entries|
  {
    hide EvictOne;
    EvictOneSpec(s);
    MakeRoomSpec(s);
    var t := EvictOne(s);
    if t.order != [] {
      var v :| Evicted(s, t, v);
      EvictedSize(s, t, v);
      RoomOfNone(t);
    } else {
      EmptyOrder(t);
    }
  }

  // ---------------------------------------------------------------- without time-to-live

  /** The deque is a duplicate-free listing of exactly the stored keys. */
  ghost predicate Clean<K, V>(s: ShardState<K, V>) {
    Distinct(s.order) && (forall k :: k in s.order ==> k in s.entries) && (forall k :: k in s.entries ==> k in s.order)
  }

  lemma {:induction false} EvictScanClean<K, V>(s: ShardState<K, V>, scanned: nat, initialLen: nat)
    requires Clean(s)
    ensures Clean(EvictScan(s, scanned, initialLen))
    decreases |s.order|, initialLen + 1 - scanned
  {
    if scanned <= initialLen && s.order != [] {
      var h := Wrapped(s);
      var key := s.order[h];
      assert key in s.entries;
      if s.entries[key].visited {
        EvictScanClean(s.(entries := s.entries[key := s.entries[key].(visited := false)], hand := h + 1), scanned + 1, initialLen);
      } else {
        RemoveAtFacts(s.order, h);
      }
    }
  }

  lemma {:induction false} MakeRoomClean<K, V>(s: ShardState<K, V>)
    requires Covered(s) && Clean(s)
    ensures Clean(MakeRoom(s))
    decreases |s.entries|
  {
    if |s.entries| >= s.capacity {
      EvictOneSpec(s);
      EvictScanClean(s, 0, |s.order|);
      var t := EvictOne(s);
      if t.order != [] {
        var v :| Evicted(s, t, v);
        EvictedSize(s, t, v);
        MakeRoomClean(t);
      }
    }
  }

  lemma PushClean<K, V>(s: ShardState<K, V>, key: K, value: V, now: nat)
    requires Clean(s) && key !in s.entries
    ensures Clean(PushBack(s, key, value, now))
  {
    assert key !in s.order;
  }

  lemma StoreClean<K, V>(s: ShardState<K, V>, key: K, value: V, now: nat)
    requires Covered(s) && Clean(s)
    ensures Clean(Store(s, None, key, value, now))
  {
    if NeedsInsert(s, None, key, now) {
      assert s.(entries := s.entries - {key}) == s;
      MakeRoomClean(s);
      MakeRoomSpec(s);
      PushClean(MakeRoom(s), key, value, now);
    }
  }

  lemma SetClean<K, V>(s: ShardState<K, V>, key: K, value: V, now: nat)
    requires Covered(s) && Clean(s)
    ensures Clean(SetValue(s, key, value, now))
  {
    if key !in s.entries {
      MakeRoomClean(s);
      MakeRoomSpec(s);
      PushClean(MakeRoom(s), key, value, now);
    }
  }

  // ---------------------------------------------------------------- with time-to-live

  /** The time of the n-th store, each just after the previous one has expired. */
  function Clock(ttl: nat, n: nat): nat {
    if n == 0 then 0 else Clock(ttl, n - 1) + ttl + 1
  }

  /** n stores of one key, each after the previous one has expired. */
  function Restored<K, V>(capacity: nat, ttl: nat, key: K, value: V, n: nat): (s: ShardState<K, V>)
    requires capacity > 0
    ensures Covered(s)
  {
    if n == 0 then NewShard(capacity)
    else
      var s := Restored(capacity, ttl, key, value, n - 1);
      StoreCovered(s, Some(ttl), key, value, Clock(ttl, n));
      Store(s, Some(ttl), key, value, Clock(ttl, n))
  }

  lemma StoreCovered<K, V>(s: ShardState<K, V>, ttl: Ttl, key: K, value: V, now: nat)
    requires Covered(s)
    ensures Covered(Store(s, ttl, key, value, now))
  {
    if NeedsInsert(s, ttl, key, now) {
      PushStored(s.(entries := s.entries - {key}), key, value, now);
    }
  }

  /** A store that finds room evicts nothing. */
  lemma StoreWithRoom<K, V>(s: ShardState<K, V>, ttl: Ttl, key: K, value: V, now: nat, others: map<K, Entry<V>>)
    requires Covered(s) && NeedsInsert(s, ttl, key, now) && others == s.entries - {key} && |others| < s.capacity
    ensures Store(s, ttl, key, value, now) ==
            s.(entries := others[key := Entry(value, now, false)], order := s.order + [key])
  {
  }

  /** Re-storing one expiring key n times leaves one entry in the map and n copies of the key in the deque. */
  lemma {:induction false} OrderGrows<K, V>(capacity: nat, ttl: nat, key: K, value: V, n: nat)
    requires capacity > 0
    ensures var s := Restored(capacity, ttl, key, value, n);
            && |s.order| == n && s.capacity == capacity && s.hand == 0
            && (forall k :: 0 <= k < n ==> s.order[k] == key)
            && s.entries == (if n == 0 then map[] else map[key := Entry(value, Clock(ttl, n), false)])
  {
    hide Store;
    if n > 0 {
      var s := Restored(capacity, ttl, key, value, n - 1);
      OrderGrows(capacity, ttl, key, value, n - 1);
      var others: map<K, Entry<V>> := map[];
      assert s.entries - {key} == others;
      StoreWithRoom(s, Some(ttl), key, value, Clock(ttl, n), others);
    }
  }
}

/** The shards of one cached function. */
module CachedModel {
  import opened Layout
  import opened Collections
  import opened ShardModel
  import opened ShardTheorems

  const MAX_SHARDS := 16
  const MIN_SHARD_SIZE := 8

  function Clamp(x: nat, lo: nat, hi: nat): nat
    requires lo <= hi
  {
    if x < lo then lo else if x > hi then hi else x
  }

  function ShardCount(maxSize: nat): nat {
    var p := NextPowerOfTwo(Clamp(maxSize / MIN_SHARD_SIZE, 1, MAX_SHARDS));
    if p < MAX_SHARDS then p else MAX_SHARDS
  }

  function CeilDiv(a: nat, b: nat): nat
    requires b > 0
  {
    (a + b - 1) / b
  }

  lemma ShardCountSpec(maxSize: nat)
    ensures ShardCount(maxSize) in {1, 2, 4, 8, 16}
    ensures exists k: nat :: k <= 4 && ShardCount(maxSize) == Pow2(k)
    ensures maxSize == 0 ==> ShardCount(maxSize) == 1
  {
    var c := Clamp(maxSize / MIN_SHARD_SIZE, 1, MAX_SHARDS);
    assert DoubleUntil(16, c) == 16;
    assert DoubleUntil(8, c) == (if 8 >= c then 8 else DoubleUntil(16, c));
    assert DoubleUntil(4, c) == (if 4 >= c then 4 else DoubleUntil(8, c));
    assert DoubleUntil(2, c) == (if 2 >= c then 2 else DoubleUntil(4, c));
    assert DoubleUntil(1, c) == (if 1 >= c then 1 else DoubleUntil(2, c));
    assert Pow2(0) == 1 && Pow2(1) == 2 && Pow2(2) == 4 && Pow2(3) == 8 && Pow2(4) == 16;
  }

  /** The number of shards, for every max_size. */
  lemma ShardCountIs(maxSize: nat)
    ensures ShardCount(maxSize) ==
            if maxSize < 16 then 1 else if maxSize < 24 then 2 else if maxSize < 40 then 4 else if maxSize < 72 then 8 else 16
  {
    var c := Clamp(maxSize / MIN_SHARD_SIZE, 1, MAX_SHARDS);
    assert DoubleUntil(16, c) == 16;
    assert DoubleUntil(8, c) == (if 8 >= c then 8 else DoubleUntil(16, c));
    assert DoubleUntil(4, c) == (if 4 >= c then 4 else DoubleUntil(8, c));
    assert DoubleUntil(2, c) == (if 2 >= c then 2 else DoubleUntil(4, c));
    assert DoubleUntil(1, c) == (if 1 >= c then 1 else DoubleUntil(2, c));
  }

  function PerShard(maxSize: nat): nat {
    ShardCountSpec(maxSize);
    CeilDiv(maxSize, ShardCount(maxSize))
  }

  /** Shards are as small as they can be to hold max_size entries together. */
  lemma PerShardIsLeast(maxSize: nat, c: nat)
    ensures PerShard(maxSize) * ShardCount(maxSize) >= maxSize
    ensures c * ShardCount(maxSize) >= maxSize ==> c >= PerShard(maxSize)
  {
    hide ShardCount;
    ShardCountSpec(maxSize);
    var n, p := ShardCount(maxSize), PerShard(maxSize);
    CeilDivBound(maxSize, n);
    if c < p {
      assert (p - c - 1) * n >= 0;
      assert n * p == c * n + n + (p - c - 1) * n;
    }
  }

  /** `hash as usize & shard_mask`, for the signed hashes of Python. */
  function ShardIndex(hash: int, n: nat): (i: nat)
    requires n > 0
    ensures i < n
  {
    BitAnd(hash % U64, n - 1)
  }

  lemma ShardIndexIsMod(hash: int, maxSize: nat)
    ensures ShardCount(maxSize) > 0
    ensures ShardIndex(hash, ShardCount(maxSize)) == (hash % U64) % ShardCount(maxSize)
  {
    ShardCountSpec(maxSize);
    var k: nat :| k <= 4 && ShardCount(maxSize) == Pow2(k);
    MaskIsMod(hash % U64, k);
  }

  datatype Cached<K, +V> = Cached(shards: seq<ShardState<K, V>>, hits: nat, misses: nat)

  /** Each shard is bounded and holds only keys that the mask sends to it. */
  ghost predicate Sharded<K, V>(c: Cached<K, V>, hashOf: K -> int, maxSize: nat) {
    && |c.shards| == ShardCount(maxSize)
    && forall i :: 0 <= i < |c.shards| ==> ShardOk(c.shards[i], i, hashOf, maxSize)
  }

  ghost predicate ShardOk<K, V>(s: ShardState<K, V>, i: nat, hashOf: K -> int, maxSize: nat) {
    && s.capacity == PerShard(maxSize) && Bounded(s)
    && (forall k :: k in s.order ==> ShardIndex(hashOf(k), AtLeastOne(ShardCount(maxSize))) == i)
  }

  function NewCached<K, V>(maxSize: nat): Cached<K, V> {
    Cached(seq(ShardCount(maxSize), _ => NewShard(PerShard(maxSize))), 0, 0)
  }

  /** A new cache: empty shards, in the number and of the capacity above, and counters at zero. */
  lemma NewCachedIs<K, V>(maxSize: nat, i: nat)
    requires i < |NewCached<K, V>(maxSize).shards|
    ensures |NewCached<K, V>(maxSize).shards| ==
            if maxSize < 16 then 1 else if maxSize < 24 then 2 else if maxSize < 40 then 4 else if maxSize < 72 then 8 else 16
    ensures NewCached<K, V>(maxSize).shards[i] == ShardState(map[], [], 0, PerShard(maxSize))
    ensures NewCached<K, V>(maxSize).hits == NewCached<K, V>(maxSize).misses == 0
  {
    hide PerShard;
    ShardCountIs(maxSize);
  }

  /** The steps that threads take on the cache: the read phase of a call, of `get` and of `_probe`, the write phase of a
      call that missed, the count of a `get` or `_probe` that missed, sets and clears. */
  datatype Op<K, +V> =
    | DoRead(key: K, now: nat)
    | DoWrite(key: K, value: V, now: nat)
    | DoSet(key: K, value: V, now: nat)
    | DoMiss
    | DoClear

  ghost function Apply<K, V>(c: Cached<K, V>, hashOf: K -> int, maxSize: nat, ttl: Ttl, op: Op<K, V>): Cached<K, V>
    requires Sharded(c, hashOf, maxSize)
  {
    ShardCountSpec(maxSize);
    match op
    case DoRead(k, now) =>
      var i := ShardIndex(hashOf(k), |c.shards|);
      var (r, s) := Probe(c.shards[i], ttl, k, now);
      Cached(c.shards[i := s], if r.Some? then c.hits + 1 else c.hits, c.misses)
    case DoWrite(k, v, now) =>
      var i := ShardIndex(hashOf(k), |c.shards|);
      Cached(c.shards[i := Store(c.shards[i], ttl, k, v, now)], c.hits, c.misses + 1)
    case DoSet(k, v, now) =>
      var i := ShardIndex(hashOf(k), |c.shards|);
      c.(shards := c.shards[i := SetValue(c.shards[i], k, v, now)])
    case DoMiss => c.(misses := c.misses + 1)
    case DoClear => Cached(seq(|c.shards|, i requires 0 <= i < |c.shards| => Cleared(c.shards[i])), 0, 0)
  }

  /** What the steps count, and which shard they touch: the one numbered by the key's hash modulo the number of shards. */
  lemma ApplyWhole<K, V>(c: Cached<K, V>, hashOf: K -> int, maxSize: nat, ttl: Ttl, op: Op<K, V>, i: nat)
    requires Sharded(c, hashOf, maxSize) && i < |c.shards|
    ensures Covered(c.shards[i]) && |c.shards| == ShardCount(maxSize)
    ensures var d := Apply(c, hashOf, maxSize, ttl, op);
            && i < |d.shards|
            && match op
               case DoClear => d.hits == 0 && d.misses == 0 && d.shards[i] == Cleared(c.shards[i])
               case DoMiss => d.hits == c.hits && d.misses == c.misses + 1 && d.shards == c.shards
               case DoRead(k, now) =>
                 && d.misses == c.misses
                 && if (hashOf(k) % 0x1_0000_0000_0000_0000) % |c.shards| == i then
                      var (r, t) := Probe(c.shards[i], ttl, k, now);
                      d.shards[i] == t && d.hits == c.hits + (if r.Some? then 1 else 0)
                    else d.shards[i] == c.shards[i]
               case DoWrite(k, v, now) =>
                 && d.hits == c.hits && d.misses == c.misses + 1
                 && d.shards[i] == (if (hashOf(k) % 0x1_0000_0000_0000_0000) % |c.shards| == i
                                    then Store(c.shards[i], ttl, k, v, now) else c.shards[i])
               case DoSet(k, v, now) =>
                 && d.hits == c.hits && d.misses == c.misses
                 && d.shards[i] == (if (hashOf(k) % 0x1_0000_0000_0000_0000) % |c.shards| == i
                                    then SetValue(c.shards[i], k, v, now) else c.shards[i])
  {
    hide ShardIndex, ShardCount, PerShard, Store, SetValue, Probe, Covered;
    ShardCountSpec(maxSize);
    assert ShardOk(c.shards[i], i, hashOf, maxSize);
    if !op.DoClear? && !op.DoMiss? { ShardIndexIsMod(hashOf(op.key), maxSize); }
  }

  lemma ReplaceShard<K, V>(c: Cached<K, V>, d: Cached<K, V>, hashOf: K -> int, maxSize: nat, i: nat, t: ShardState<K, V>)
    requires Sharded(c, hashOf, maxSize) && i < |c.shards| && ShardOk(t, i, hashOf, maxSize)
    requires d.shards == c.shards[i := t]
    ensures Sharded(d, hashOf, maxSize)
  {
  }

  lemma ReadOk<K, V>(s: ShardState<K, V>, i: nat, hashOf: K -> int, maxSize: nat, ttl: Ttl, k: K, now: nat)
    requires ShardOk(s, i, hashOf, maxSize)
    ensures ShardOk(Probe(s, ttl, k, now).1, i, hashOf, maxSize)
  {
    hide ShardIndex, ShardCount, PerShard, Bounded;
    ProbeSpec(s, ttl, k, now);
  }

  lemma WriteOk<K, V>(s: ShardState<K, V>, i: nat, hashOf: K -> int, maxSize: nat, ttl: Ttl, k: K, v: V, now: nat)
    requires ShardOk(s, i, hashOf, maxSize) && ShardIndex(hashOf(k), AtLeastOne(ShardCount(maxSize))) == i
    ensures Covered(s) && ShardOk(Store(s, ttl, k, v, now), i, hashOf, maxSize)
    ensures ShardOk(SetValue(s, k, v, now), i, hashOf, maxSize)
  {
    hide ShardIndex, ShardCount, PerShard, Store, SetValue, Stored, Covered;
    StoreSpec(s, ttl, k, v, now);
    SetSpec(s, k, v, now);
  }

  lemma ApplyKeeps<K, V>(c: Cached<K, V>, hashOf: K -> int, maxSize: nat, ttl: Ttl, op: Op<K, V>)
    requires Sharded(c, hashOf, maxSize)
    ensures Sharded(Apply(c, hashOf, maxSize, ttl, op), hashOf, maxSize)
  {
    hide ShardOk, ShardCount, PerShard, ShardIndex, Store, SetValue, Probe;
    ShardCountSpec(maxSize);
    var d := Apply(c, hashOf, maxSize, ttl, op);
    match op
    case DoRead(k, now) =>
      var i := ShardIndex(hashOf(k), |c.shards|);
      ReadOk(c.shards[i], i, hashOf, maxSize, ttl, k, now);
      ReplaceShard(c, d, hashOf, maxSize, i, Probe(c.shards[i], ttl, k, now).1);
    case DoWrite(k, v, now) =>
      var i := ShardIndex(hashOf(k), |c.shards|);
      WriteOk(c.shards[i], i, hashOf, maxSize, ttl, k, v, now);
      ReplaceShard(c, d, hashOf, maxSize, i, Store(c.shards[i], ttl, k, v, now));
    case DoSet(k, v, now) =>
      var i := ShardIndex(hashOf(k), |c.shards|);
      WriteOk(c.shards[i], i, hashOf, maxSize, ttl, k, v, now);
      ReplaceShard(c, d, hashOf, maxSize, i, SetValue(c.shards[i], k, v, now));
    case DoMiss =>
      assert d.shards == c.shards;
    case DoClear =>
      ClearedOk(c, d, hashOf, maxSize);
  }

  lemma ClearedOk<K, V>(c: Cached<K, V>, d: Cached<K, V>, hashOf: K -> int, maxSize: nat)
    requires Sharded(c, hashOf, maxSize) && |d.shards| == |c.shards|
    requires forall i :: 0 <= i < |c.shards| ==> d.shards[i] == Cleared(c.shards[i])
    ensures Sharded(d, hashOf, maxSize)
  {
    forall i | 0 <= i < |c.shards| ensures ShardOk(d.shards[i], i, hashOf, maxSize) {
      assert ShardOk(c.shards[i], i, hashOf, maxSize);
    }
  }

  ghost function RunCached<K, V>(hashOf: K -> int, maxSize: nat, ttl: Ttl, ops: seq<Op<K, V>>): (c: Cached<K, V>)
    ensures Sharded(c, hashOf, maxSize)
  {
    if ops == [] then NewCached(maxSize)
    else
      var c := RunCached(hashOf, maxSize, ttl, ops[..|ops| - 1]);
      ApplyKeeps(c, hashOf, maxSize, ttl, ops[|ops| - 1]);
      Apply(c, hashOf, maxSize, ttl, ops[|ops| - 1])
  }

  // ---------------------------------------------------------------- sizes

  ghost function TotalSize<K, V>(shards: seq<ShardState<K, V>>): nat {
    if shards == [] then 0 else TotalSize(shards[..|shards| - 1]) + |shards[|shards| - 1].entries|
  }

  lemma {:induction false} TotalBound<K, V>(shards: seq<ShardState<K, V>>, per: nat)
    requires forall i :: 0 <= i < |shards| ==> |shards[i].entries| <= per
    ensures TotalSize(shards) <= |shards| * per
  {
    if shards != [] {
      TotalBound(shards[..|shards| - 1], per);
      assert |shards| * per == (|shards| - 1) * per + per;
    }
  }

  lemma CeilDivBound(a: nat, b: nat)
    requires b > 0
    ensures a <= b * CeilDiv(a, b) <= a + b - 1
  {
    var q, r := (a + b - 1) / b, (a + b - 1) % b;
    assert a + b - 1 == q * b + r;
  }

  /** After any run, by any threads, the cache holds at most max_size entries plus one less than the number of
      shards; with max_size zero it holds at most one. */
  lemma SizeBound<K, V>(hashOf: K -> int, maxSize: nat, ttl: Ttl, ops: seq<Op<K, V>>)
    ensures var c := RunCached(hashOf, maxSize, ttl, ops);
            TotalSize(c.shards) <= (if maxSize == 0 then 1 else maxSize + ShardCount(maxSize) - 1)
  {
    ShardCountSpec(maxSize);
    var c := RunCached(hashOf, maxSize, ttl, ops);
    CeilDivBound(maxSize, ShardCount(maxSize));
    TotalBound(c.shards, AtLeastOne(PerShard(maxSize)));
  }

  /** A key is stored in no shard but its own. */
  lemma KeyInOwnShard<K, V>(hashOf: K -> int, maxSize: nat, ttl: Ttl, ops: seq<Op<K, V>>, i: nat, key: K)
    requires i < |RunCached(hashOf, maxSize, ttl, ops).shards|
    requires key in RunCached(hashOf, maxSize, ttl, ops).shards[i].entries
    ensures i == (hashOf(key) % U64) % ShardCount(maxSize)
  {
    ShardCountSpec(maxSize);
    ShardIndexIsMod(hashOf(key), maxSize);
    assert ShardOk(RunCached(hashOf, maxSize, ttl, ops).shards[i], i, hashOf, maxSize);
  }

  /** Without time-to-live each deque lists exactly the stored keys, once each, after every run. */
  lemma {:induction false} CleanWithoutTtl<K, V>(hashOf: K -> int, maxSize: nat, ops: seq<Op<K, V>>, i: nat)
    requires i < ShardCount(maxSize)
    ensures Clean(RunCached(hashOf, maxSize, None, ops).shards[i])
  {
    hide ShardIndex, ShardCount, PerShard, Store, SetValue;
    if ops != [] {
      var c, op := RunCached(hashOf, maxSize, None, ops[..|ops| - 1]), ops[|ops| - 1];
      CleanWithoutTtl(hashOf, maxSize, ops[..|ops| - 1], i);
      var s := c.shards[i];
      assert ShardOk(s, i, hashOf, maxSize);
      ShardCountSpec(maxSize);
      match op
      case DoRead(k, now) => assert Probe(s, None, k, now).1.entries.Keys == s.entries.Keys;
      case DoWrite(k, v, now) => StoreClean(s, k, v, now);
      case DoSet(k, v, now) => SetClean(s, k, v, now);
      case DoMiss =>
      case DoClear =>
    }
  }
}

/** The cached function itself: shards that its methods update in place. */
module CachedFunctions {
  import opened Layout
  import opened Collections
  import opened ShardModel
  import opened Shards
  import opened ShardTheorems
  import opened CachedModel

  class CachedFunction<K(==), V> {
    const shards: seq<Shard<K, V>>
    const maxSize: nat
    const ttl: Ttl
    ghost const hashOf: K -> int
    var hits: nat
    var misses: nat

    ghost function Model(): Cached<K, V>
      reads this, shards
    {
      Cached(seq(|shards|, i requires 0 <= i < |shards| reads this, shards => shards[i].State()), hits, misses)
    }

    ghost predicate Valid()
      reads this, shards
    {
      Distinct(shards) && Sharded(Model(), hashOf, maxSize)
    }

    constructor (maxSize: nat, ttl: Ttl, ghost hashOf: K -> int)
      ensures Valid() && Model() == NewCached(maxSize)
      ensures this.maxSize == maxSize && this.ttl == ttl && this.hashOf == hashOf
      ensures fresh(shards)
    {
      ShardCountSpec(maxSize);
      var n := ShardCount(maxSize);
      var made: seq<Shard<K, V>> := [];
      for i := 0 to n
        invariant |made| == i && fresh(made) && Distinct(made)
        invariant forall j :: 0 <= j < i ==> made[j].State() == NewShard(PerShard(maxSize))
      {
        var s := new Shard(PerShard(maxSize));
        made := made + [s];
      }
      this.shards, this.maxSize, this.ttl := made, maxSize, ttl;
      this.hashOf := hashOf;
      hits, misses := 0, 0;
      new;
      assert Model() == NewCached(maxSize);
    }

    /** The read phase of a call. */
    method Read(key: K, hash: int, now: nat) returns (r: Option<V>)
      requires Valid() && hash == hashOf(key)
      modifies this`hits, shards
      ensures Valid() && Model() == Apply(old(Model()), hashOf, maxSize, ttl, DoRead(key, now))
      ensures r == Probe(old(Model()).shards[ShardIndex(hash, |shards|)], ttl, key, now).0
    {
      hide ShardIndex, ShardCount, PerShard, Bounded, Covered, Probe;
      ghost var m := Model();
      ShardCountSpec(maxSize);
      ApplyKeeps(m, hashOf, maxSize, ttl, DoRead(key, now));
      var i := ShardIndex(hash, |shards|);
      r := shards[i].Probe(ttl, key, now);
      if r.Some? {
        hits := hits + 1;
      }
      assert Model().shards == m.shards[i := Probe(m.shards[i], ttl, key, now).1];
    }

    /** `get` and `_probe`: the read phase, and a counted miss where that finds nothing. */
    method Get(key: K, hash: int, now: nat) returns (r: Option<V>)
      requires Valid() && hash == hashOf(key)
      modifies this`hits, this`misses, shards
      ensures Valid()
      ensures var read := Apply(old(Model()), hashOf, maxSize, ttl, DoRead(key, now));
              Sharded(read, hashOf, maxSize) &&
              Model() == if r.Some? then read else Apply(read, hashOf, maxSize, ttl, DoMiss)
      ensures r == Probe(old(Model()).shards[ShardIndex(hash, |shards|)], ttl, key, now).0
    {
      hide ShardOk, ShardIndex, ShardCount, PerShard, Probe, Distinct;
      ApplyKeeps(Model(), hashOf, maxSize, ttl, DoRead(key, now));
      r := Read(key, hash, now);
      if r.None? {
        ghost var read := Model();
        ApplyKeeps(read, hashOf, maxSize, ttl, DoMiss);
        misses := misses + 1;
        assert Model().shards == read.shards;
      }
    }

    /** The write phase of a call that missed. */
    method Write(key: K, hash: int, value: V, now: nat)
      requires Valid() && hash == hashOf(key)
      modifies this`misses, shards
      ensures Valid() && Model() == Apply(old(Model()), hashOf, maxSize, ttl, DoWrite(key, value, now))
    {
      hide ShardIndex, ShardCount, PerShard, Covered, Store, SetValue;
      ghost var m := Model();
      ShardCountSpec(maxSize);
      ApplyKeeps(m, hashOf, maxSize, ttl, DoWrite(key, value, now));
      var i := ShardIndex(hash, |shards|);
      assert ShardOk(m.shards[i], i, hashOf, maxSize);
      shards[i].Store(ttl, key, value, now);
      misses := misses + 1;
      assert Model().shards == m.shards[i := Store(m.shards[i], ttl, key, value, now)];
    }

    method Set(key: K, hash: int, value: V, now: nat)
      requires Valid() && hash == hashOf(key)
      modifies shards
      ensures Valid() && Model() == Apply(old(Model()), hashOf, maxSize, ttl, DoSet(key, value, now))
    {
      hide ShardIndex, ShardCount, PerShard, Covered, Store, SetValue;
      ghost var m := Model();
      ShardCountSpec(maxSize);
      ApplyKeeps(m, hashOf, maxSize, ttl, DoSet(key, value, now));
      var i := ShardIndex(hash, |shards|);
      assert ShardOk(m.shards[i], i, hashOf, maxSize);
      shards[i].SetValue(key, value, now);
      assert Model().shards == m.shards[i := SetValue(m.shards[i], key, value, now)];
    }

    method Clear()
      requires Valid()
      modifies this`hits, this`misses, shards
      ensures Valid() && Model() == Apply(old(Model()), hashOf, maxSize, ttl, DoClear)
    {
      ghost var m := Model();
      ApplyKeeps(m, hashOf, maxSize, ttl, DoClear);
      for i := 0 to |shards|
        invariant forall j :: 0 <= j < i ==> shards[j].State() == Cleared(m.shards[j])
        invariant forall j :: i <= j < |shards| ==> shards[j].State() == m.shards[j]
      {
        shards[i].Clear();
      }
      hits, misses := 0, 0;
    }
  }
}

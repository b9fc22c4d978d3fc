/** What all runs of the in-process cache (src/store.rs) have in common: what hits return, how large it gets. */
module CachedRuns {
  import opened Layout
  import opened Collections
  import opened ShardModel
  import opened ShardTheorems
  import opened CachedModel

  // ---------------------------------------------------------------- hits

  ghost function OwnShard<K, V>(c: Cached<K, V>, hashOf: K -> int, maxSize: nat, key: K): (s: ShardState<K, V>)
    requires Sharded(c, hashOf, maxSize)
    ensures s.capacity == PerShard(maxSize) && Bounded(s)
  {
    ShardCountSpec(maxSize);
    assert ShardOk(c.shards[ShardIndex(hashOf(key), |c.shards|)], ShardIndex(hashOf(key), |c.shards|), hashOf, maxSize);
    c.shards[ShardIndex(hashOf(key), |c.shards|)]
  }

  /** What was last stored for a key since the last clear, with its time. A write that finds a fresh entry stores
      nothing: another thread was faster. */
  ghost function LastStored<K, V>(hashOf: K -> int, maxSize: nat, ttl: Ttl, ops: seq<Op<K, V>>, key: K): Option<(V, nat)> {
    if ops == [] then None
    else
      var before := ops[..|ops| - 1];
      match ops[|ops| - 1]
      case DoClear => None
      case DoRead(_, _) => LastStored(hashOf, maxSize, ttl, before, key)
      case DoMiss => LastStored(hashOf, maxSize, ttl, before, key)
      case DoSet(k, v, now) => if k == key then Some((v, now)) else LastStored(hashOf, maxSize, ttl, before, key)
      case DoWrite(k, v, now) =>
        if k == key && NeedsInsert(OwnShard(RunCached(hashOf, maxSize, ttl, before), hashOf, maxSize, key), ttl, key, now)
        then Some((v, now)) else LastStored(hashOf, maxSize, ttl, before, key)
  }

  /** The content of an entry, without its bit. */
  function Content<V>(e: Entry<V>): (V, nat) {
    (e.value, e.created)
  }

  predicate Keyed<K, V>(op: Op<K, V>) {
    !op.DoClear? && !op.DoMiss?
  }

  /** What a step does to a shard, when it is the one of the step's key and when it is not. */
  ghost function ShardStep<K, V>(s: ShardState<K, V>, ttl: Ttl, op: Op<K, V>, mine: bool): ShardState<K, V>
    requires Covered(s)
  {
    match op
    case DoClear => Cleared(s)
    case DoMiss => s
    case DoRead(k, now) => if mine then Probe(s, ttl, k, now).1 else s
    case DoWrite(k, v, now) => if mine then Store(s, ttl, k, v, now) else s
    case DoSet(k, v, now) => if mine then SetValue(s, k, v, now) else s
  }

  lemma OwnStep<K, V>(c: Cached<K, V>, hashOf: K -> int, maxSize: nat, ttl: Ttl, op: Op<K, V>, key: K)
    requires Sharded(c, hashOf, maxSize) && Sharded(Apply(c, hashOf, maxSize, ttl, op), hashOf, maxSize)
    ensures var mine := Keyed(op) && ShardIndex(hashOf(op.key), |c.shards|) == ShardIndex(hashOf(key), |c.shards|);
            OwnShard(Apply(c, hashOf, maxSize, ttl, op), hashOf, maxSize, key) ==
            ShardStep(OwnShard(c, hashOf, maxSize, key), ttl, op, mine)
    ensures |c.shards| > 0
  {
    hide ShardIndex, ShardCount, PerShard, Store, SetValue, Probe, Covered;
    ShardCountSpec(maxSize);
  }

  /** A step leaves an entry of a key only by storing it or by keeping the content it had. */
  lemma StepContent<K, V>(s: ShardState<K, V>, ttl: Ttl, op: Op<K, V>, mine: bool, key: K)
    requires Bounded(s) && key in ShardStep(s, ttl, op, mine).entries
    requires Keyed(op) && op.key == key ==> mine
    ensures var t := ShardStep(s, ttl, op, mine);
            match op
            case DoClear => false
            case DoMiss => key in s.entries && t == s
            case DoRead(_, _) => key in s.entries && Content(t.entries[key]) == Content(s.entries[key])
            case DoSet(k, v, now) =>
              if k == key then Content(t.entries[key]) == (v, now)
              else key in s.entries && Content(t.entries[key]) == Content(s.entries[key])
            case DoWrite(k, v, now) =>
              if k == key && NeedsInsert(s, ttl, key, now) then Content(t.entries[key]) == (v, now)
              else key in s.entries && Content(t.entries[key]) == Content(s.entries[key])
  {
    hide Store, SetValue, Covered;
    match op
    case DoClear =>
    case DoMiss =>
    case DoRead(k, now) =>
    case DoWrite(k, v, now) => StoreSpec(s, ttl, k, v, now);
    case DoSet(k, v, now) => SetSpec(s, k, v, now);
  }

  /** After every run, by any threads, whatever is stored for a key is what was last stored for it. */
  lemma {:induction false} HoldsLastStored<K, V>(hashOf: K -> int, maxSize: nat, ttl: Ttl, ops: seq<Op<K, V>>, key: K)
    ensures var s := OwnShard(RunCached(hashOf, maxSize, ttl, ops), hashOf, maxSize, key);
            key in s.entries ==> LastStored(hashOf, maxSize, ttl, ops, key) == Some(Content(s.entries[key]))
  {
    hide ShardStep, Apply, Sharded, NeedsInsert;
    if ops == [] {
      EmptyShard<K, V>(hashOf, maxSize, ttl, key);
    } else {
      var c, op := RunCached(hashOf, maxSize, ttl, ops[..|ops| - 1]), ops[|ops| - 1];
      HoldsLastStored(hashOf, maxSize, ttl, ops[..|ops| - 1], key);
      ApplyKeeps(c, hashOf, maxSize, ttl, op);
      OwnStep(c, hashOf, maxSize, ttl, op, key);
      var s := OwnShard(c, hashOf, maxSize, key);
      var mine := Keyed(op) && ShardIndex(hashOf(op.key), |c.shards|) == ShardIndex(hashOf(key), |c.shards|);
      if key in ShardStep(s, ttl, op, mine).entries { StepContent(s, ttl, op, mine, key); }
    }
  }

  lemma EmptyShard<K, V>(hashOf: K -> int, maxSize: nat, ttl: Ttl, key: K)
    ensures OwnShard(RunCached<K, V>(hashOf, maxSize, ttl, []), hashOf, maxSize, key) == NewShard(PerShard(maxSize))
  {
    hide ShardIndex, ShardCount, PerShard;
  }

  /** After every run, by any threads, a hit returns the value last stored for its key since the last clear, and that
      is no older than the time-to-live. */
  lemma HitIsFresh<K, V>(hashOf: K -> int, maxSize: nat, ttl: Ttl, ops: seq<Op<K, V>>, key: K, now: nat, value: V)
    requires Probe(OwnShard(RunCached(hashOf, maxSize, ttl, ops), hashOf, maxSize, key), ttl, key, now).0 == Some(value)
    ensures LastStored(hashOf, maxSize, ttl, ops, key).Some?
    ensures var (v, created) := LastStored(hashOf, maxSize, ttl, ops, key).value;
            v == value && (ttl.Some? ==> now <= created + ttl.value)
  {
    HoldsLastStored(hashOf, maxSize, ttl, ops, key);
  }

  /** Whoever stores, stores the function's value. */
  ghost predicate Truthful<K, V>(fn: K -> V, op: Op<K, V>) {
    op.DoWrite? || op.DoSet? ==> op.value == fn(op.key)
  }

  lemma {:induction false} LastStoredTruthful<K, V>(fn: K -> V, hashOf: K -> int, maxSize: nat, ttl: Ttl, ops: seq<Op<K, V>>, key: K)
    requires forall op :: op in ops ==> Truthful(fn, op)
    ensures var e := LastStored(hashOf, maxSize, ttl, ops, key); e.Some? ==> e.value.0 == fn(key)
  {
    hide RunCached, OwnShard, NeedsInsert;
    if ops != [] {
      LastStoredTruthful(fn, hashOf, maxSize, ttl, ops[..|ops| - 1], key);
      assert Truthful(fn, ops[|ops| - 1]);
    }
  }

  /** Memoisation in one process is transparent: after every run a hit returns the function's value. */
  lemma HitIsTruthful<K, V>(fn: K -> V, hashOf: K -> int, maxSize: nat, ttl: Ttl, ops: seq<Op<K, V>>, key: K, now: nat)
    requires forall op :: op in ops ==> Truthful(fn, op)
    ensures var r := Probe(OwnShard(RunCached(hashOf, maxSize, ttl, ops), hashOf, maxSize, key), ttl, key, now).0;
            r in {None, Some(fn(key))}
  {
    var r := Probe(OwnShard(RunCached(hashOf, maxSize, ttl, ops), hashOf, maxSize, key), ttl, key, now).0;
    if r.Some? {
      HitIsFresh(hashOf, maxSize, ttl, ops, key, now, r.value);
      LastStoredTruthful(fn, hashOf, maxSize, ttl, ops, key);
    }
  }

  // ---------------------------------------------------------------- the largest total

  /** The most that any run can hold. */
  function Largest(maxSize: nat): nat {
    ShardCount(maxSize) * AtLeastOne(PerShard(maxSize))
  }

  /** Every number up to there is the hash of some key. */
  ghost predicate Numbered<K>(keyOf: nat -> K, hashOf: K -> int, maxSize: nat) {
    forall n: nat :: n < Largest(maxSize) ==> hashOf(keyOf(n)) == n
  }

  /** The r-th number that falls to shard i of n. */
  function Number(n: nat, i: nat, r: nat): nat {
    r * n + i
  }

  /** Writes that fill shards 0 .. i - 1 with `per` keys each and shard i with r of them. */
  function Fill<K, V>(keyOf: nat -> K, value: V, n: nat, per: nat, i: nat, r: nat): seq<Op<K, V>>
    decreases i, r
  {
    if r > 0 then Fill(keyOf, value, n, per, i, r - 1) + [DoWrite(keyOf(Number(n, i, r - 1)), value, 0)]
    else if i > 0 then Fill(keyOf, value, n, per, i - 1, per)
    else []
  }

  lemma NumberBelow(n: nat, i: nat, r: nat, per: nat)
    requires i < n && r < per
    ensures Number(n, i, r) < n * per
  {
    assert (per - r - 1) * n >= 0;
    assert n * per == r * n + n + (per - r - 1) * n;
  }

  lemma NumberMod(n: nat, i: nat, q: nat)
    requires i < n
    ensures Number(n, i, q) % n == i
  {
    ModUnique(Number(n, i, q), n, q, i);
  }

  lemma HashMod(x: nat, n: nat)
    requires n in {1, 2, 4, 8, 16}
    ensures (x % U64) % n == x % n
  {
    if n == 1 { ModOfMod(x, U64, 1); }
    else if n == 2 { ModOfMod(x, 0x8000_0000_0000_0000, 2); }
    else if n == 4 { ModOfMod(x, 0x4000_0000_0000_0000, 4); }
    else if n == 8 { ModOfMod(x, 0x2000_0000_0000_0000, 8); }
    else { ModOfMod(x, 0x1000_0000_0000_0000, 16); }
  }

  lemma NumberShard(maxSize: nat, q: nat, i: nat)
    requires i < ShardCount(maxSize)
    ensures ShardIndex(Number(ShardCount(maxSize), i, q), ShardCount(maxSize)) == i
  {
    hide ShardIndex, ShardCount, Number;
    ShardCountSpec(maxSize);
    var n, x := ShardCount(maxSize), Number(ShardCount(maxSize), i, q);
    ShardIndexIsMod(x, maxSize);
    HashMod(x, n);
    NumberMod(n, i, q);
  }

  /** One more write fills one more place of its shard. */
  lemma FillOne<K, V>(s: ShardState<K, V>, ttl: Ttl, key: K, value: V)
    requires Bounded(s) && key !in s.entries && |s.entries| < AtLeastOne(s.capacity)
    ensures var t := Store(s, ttl, key, value, 0);
            |t.entries| == |s.entries| + 1 && forall k :: k in t.entries ==> k in s.entries || k == key
  {
    hide Store;
    StoreSpec(s, ttl, key, value, 0);
    OthersSize(s.entries, key);
  }

  /** Shards 0 .. i - 1 are full, shard i holds r entries, all with hashes below Number(n, i, r), and the rest are empty. */
  ghost predicate FilledTo<K, V>(c: Cached<K, V>, hashOf: K -> int, maxSize: nat, i: nat, r: nat) {
    && |c.shards| == ShardCount(maxSize) && i < |c.shards|
    && (forall x :: 0 <= x < |c.shards| ==>
          |c.shards[x].entries| == if x < i then AtLeastOne(PerShard(maxSize)) else if x == i then r else 0)
    && (forall k :: k in c.shards[i].entries ==> hashOf(k) < Number(|c.shards|, i, r))
  }

  lemma {:induction false} FillSizes<K, V>(hashOf: K -> int, keyOf: nat -> K, value: V, maxSize: nat, ttl: Ttl, i: nat, r: nat)
    requires Numbered(keyOf, hashOf, maxSize) && i < ShardCount(maxSize) && r <= AtLeastOne(PerShard(maxSize))
    ensures var n, per := ShardCount(maxSize), AtLeastOne(PerShard(maxSize));
            FilledTo(RunCached(hashOf, maxSize, ttl, Fill(keyOf, value, n, per, i, r)), hashOf, maxSize, i, r)
    decreases i, r
  {
    hide ShardCount, PerShard, ShardIndex, Apply, Sharded, FilledTo, AtLeastOne, Number;
    var n, per := ShardCount(maxSize), AtLeastOne(PerShard(maxSize));
    if r > 0 {
      FillSizes(hashOf, keyOf, value, maxSize, ttl, i, r - 1);
      var ops, key := Fill(keyOf, value, n, per, i, r - 1), keyOf(Number(n, i, r - 1));
      var c := RunCached(hashOf, maxSize, ttl, ops);
      assert (ops + [DoWrite(key, value, 0)])[..|ops|] == ops;
      NumberBelow(n, i, r - 1, per);
      FillNext(c, hashOf, maxSize, ttl, i, r - 1, key, value);
    } else if i > 0 {
      FillSizes(hashOf, keyOf, value, maxSize, ttl, i - 1, per);
      NextShard(RunCached(hashOf, maxSize, ttl, Fill(keyOf, value, n, per, i, r)), hashOf, maxSize, i);
    } else {
      StartsEmpty<K, V>(hashOf, maxSize, ttl);
    }
  }

  lemma StartsEmpty<K, V>(hashOf: K -> int, maxSize: nat, ttl: Ttl)
    ensures FilledTo(RunCached<K, V>(hashOf, maxSize, ttl, []), hashOf, maxSize, 0, 0)
  {
    hide PerShard, ShardCount;
    ShardCountSpec(maxSize);
  }

  lemma NextShard<K, V>(c: Cached<K, V>, hashOf: K -> int, maxSize: nat, i: nat)
    requires 0 < i < ShardCount(maxSize) && FilledTo(c, hashOf, maxSize, i - 1, AtLeastOne(PerShard(maxSize)))
    ensures FilledTo(c, hashOf, maxSize, i, 0)
  {
    hide ShardCount, PerShard, AtLeastOne;
    assert |c.shards[i].entries| == 0;
  }

  lemma FillNext<K, V>(c: Cached<K, V>, hashOf: K -> int, maxSize: nat, ttl: Ttl, i: nat, r: nat, key: K, value: V)
    requires Sharded(c, hashOf, maxSize) && FilledTo(c, hashOf, maxSize, i, r) && r < AtLeastOne(PerShard(maxSize))
    requires hashOf(key) == Number(ShardCount(maxSize), i, r)
    ensures FilledTo(Apply(c, hashOf, maxSize, ttl, DoWrite(key, value, 0)), hashOf, maxSize, i, r + 1)
  {
    hide ShardCount, PerShard, ShardIndex, Store, Bounded;
    ShardCountSpec(maxSize);
    NumberShard(maxSize, r, i);
    assert ShardOk(c.shards[i], i, hashOf, maxSize);
    FillOne(c.shards[i], ttl, key, value);
    assert (r + 1) * |c.shards| == r * |c.shards| + |c.shards|;
  }

  lemma {:induction false} TotalExact<K, V>(shards: seq<ShardState<K, V>>, per: nat)
    requires forall i :: 0 <= i < |shards| ==> |shards[i].entries| == per
    ensures TotalSize(shards) == |shards| * per
  {
    if shards != [] {
      TotalExact(shards[..|shards| - 1], per);
      assert |shards| * per == (|shards| - 1) * per + per;
    }
  }

  lemma NeverLarger<K, V>(hashOf: K -> int, maxSize: nat, ttl: Ttl, ops: seq<Op<K, V>>)
    ensures TotalSize(RunCached(hashOf, maxSize, ttl, ops).shards) <= Largest(maxSize)
  {
    var c := RunCached(hashOf, maxSize, ttl, ops);
    TotalBound(c.shards, AtLeastOne(PerShard(maxSize)));
  }

  /** Some run does hold that many. */
  lemma LargestReached<K, V>(hashOf: K -> int, keyOf: nat -> K, value: V, maxSize: nat, ttl: Ttl) returns (ops: seq<Op<K, V>>)
    requires Numbered(keyOf, hashOf, maxSize)
    ensures TotalSize(RunCached(hashOf, maxSize, ttl, ops).shards) == Largest(maxSize)
  {
    hide ShardCount, PerShard, Sharded;
    ShardCountSpec(maxSize);
    var n, per := ShardCount(maxSize), AtLeastOne(PerShard(maxSize));
    ops := Fill(keyOf, value, n, per, n - 1, per);
    FillSizes(hashOf, keyOf, value, maxSize, ttl, n - 1, per);
    TotalExact(RunCached(hashOf, maxSize, ttl, ops).shards, per);
  }

  lemma CeilDivExact(a: nat, b: nat)
    requires b > 0
    ensures b * CeilDiv(a, b) <= a <==> a % b == 0
  {
    CeilDivBound(a, b);
    var q, r, c := a / b, a % b, CeilDiv(a, b);
    assert a == q * b + r;
    if r == 0 {
      var d := c - q;
      assert d * b == c * b - q * b < b;
      if d != 0 { MulAtLeast(d, b); }
    } else if c * b == a {
      ModUnique(a, b, c, 0);
    }
  }

  lemma LargestFits(maxSize: nat)
    ensures ShardCount(maxSize) > 0
    ensures Largest(maxSize) <= maxSize <==> maxSize > 0 && maxSize % ShardCount(maxSize) == 0
  {
    hide ShardCount, CeilDiv;
    ShardCountSpec(maxSize);
    CeilDivExact(maxSize, ShardCount(maxSize));
    CeilDivBound(maxSize, ShardCount(maxSize));
  }

  /** The documented limit is kept by every run exactly when max_size is positive and a multiple of the number of
      shards; otherwise some run exceeds it. This holds with and without time-to-live, under every hash that takes
      all numbers below `Largest` as values. */
  lemma LimitKeptIff<K, V>(hashOf: K -> int, keyOf: nat -> K, value: V, maxSize: nat, ttl: Ttl)
    requires Numbered(keyOf, hashOf, maxSize)
    ensures ShardCount(maxSize) > 0
    ensures (forall ops: seq<Op<K, V>> :: TotalSize(RunCached(hashOf, maxSize, ttl, ops).shards) <= maxSize)
            <==> maxSize > 0 && maxSize % ShardCount(maxSize) == 0
  {
    hide ShardCount, Largest;
    LargestFits(maxSize);
    var most := LargestReached(hashOf, keyOf, value, maxSize, ttl);
    forall ops: seq<Op<K, V>> ensures TotalSize(RunCached(hashOf, maxSize, ttl, ops).shards) <= Largest(maxSize) {
      NeverLarger(hashOf, maxSize, ttl, ops);
    }
  }

  lemma LargestOf25()
    ensures Largest(25) == 28
  {
    assert DoubleUntil(4, 3) == 4;
    assert DoubleUntil(2, 3) == 4;
    assert DoubleUntil(1, 3) == 4;
  }

  /** For instance, 4 shards of 7 come to hold 28 entries for a max_size of 25. */
  lemma RoundingExceedsLimit<K, V>(hashOf: K -> int, keyOf: nat -> K, value: V, ttl: Ttl)
    requires Numbered(keyOf, hashOf, 25)
    ensures exists ops: seq<Op<K, V>> :: TotalSize(RunCached(hashOf, 25, ttl, ops).shards) == 28
  {
    hide Largest;
    LargestOf25();
    var ops := LargestReached(hashOf, keyOf, value, 25, ttl);
  }

  // ---------------------------------------------------------------- the length of the deques

  /** No run makes a deque longer than `bound`. */
  ghost predicate DequesBounded<K(!new), V(!new)>(hashOf: K -> int, maxSize: nat, ttl: Ttl, bound: nat) {
    forall ops: seq<Op<K, V>>, i: nat :: i < ShardCount(maxSize) ==> |RunCached(hashOf, maxSize, ttl, ops).shards[i].order| <= bound
  }

  lemma StepOfNone<K, V>(s: ShardState<K, V>, ttl: Ttl, op: Op<K, V>, mine: bool)
    requires Covered(s) && s.capacity == 0 && |s.order| <= 1
    ensures |ShardStep(s, ttl, op, mine).order| <= 1
  {
    hide MakeRoom;
    match op
    case DoClear =>
    case DoMiss =>
    case DoRead(_, _) =>
    case DoWrite(k, _, _) =>
      assert Covered(s.(entries := s.entries - {k}));
      RoomOfNone(s.(entries := s.entries - {k}));
    case DoSet(_, _, _) => RoomOfNone(s);
  }

  /** The step that an operation is for the i-th shard. */
  lemma ShardOfStep<K, V>(c: Cached<K, V>, hashOf: K -> int, maxSize: nat, ttl: Ttl, op: Op<K, V>, i: nat)
    requires Sharded(c, hashOf, maxSize) && i < |c.shards|
    ensures Covered(c.shards[i]) && c.shards[i].capacity == PerShard(maxSize)
    ensures i < |Apply(c, hashOf, maxSize, ttl, op).shards|
    ensures var mine := Keyed(op) && ShardIndex(hashOf(op.key), |c.shards|) == i;
            Apply(c, hashOf, maxSize, ttl, op).shards[i] == ShardStep(c.shards[i], ttl, op, mine)
  {
    hide ShardIndex, ShardCount, PerShard, Store, SetValue, Probe, Covered;
    assert ShardOk(c.shards[i], i, hashOf, maxSize);
  }

  lemma {:induction false} NoneStaysShort<K, V>(hashOf: K -> int, ttl: Ttl, ops: seq<Op<K, V>>, i: nat)
    requires i < ShardCount(0)
    ensures |RunCached(hashOf, 0, ttl, ops).shards[i].order| <= 1
  {
    hide Apply, ShardStep;
    if ops != [] {
      NoneStaysShort(hashOf, ttl, ops[..|ops| - 1], i);
      var c, op := RunCached(hashOf, 0, ttl, ops[..|ops| - 1]), ops[|ops| - 1];
      ShardOfStep(c, hashOf, 0, ttl, op, i);
      StepOfNone(c.shards[i], ttl, op, Keyed(op) && ShardIndex(hashOf(op.key), |c.shards|) == i);
    }
  }

  /** n writes of one key, each after the previous one has expired. */
  function Rewrites<K, V>(ttl: nat, key: K, value: V, n: nat): seq<Op<K, V>> {
    if n == 0 then [] else Rewrites(ttl, key, value, n - 1) + [DoWrite(key, value, Clock(ttl, n))]
  }

  lemma {:induction false} RewritesRestore<K, V>(hashOf: K -> int, maxSize: nat, ttl: nat, key: K, value: V, n: nat)
    requires PerShard(maxSize) > 0
    ensures OwnShard(RunCached(hashOf, maxSize, Some(ttl), Rewrites(ttl, key, value, n)), hashOf, maxSize, key) ==
            Restored(PerShard(maxSize), ttl, key, value, n)
  {
    hide ShardIndex, ShardCount, PerShard, Apply, Store;
    if n == 0 {
      EmptyShard<K, V>(hashOf, maxSize, Some(ttl), key);
    } else {
      RewritesRestore(hashOf, maxSize, ttl, key, value, n - 1);
      var ops := Rewrites(ttl, key, value, n - 1);
      assert (ops + [DoWrite(key, value, Clock(ttl, n))])[..|ops|] == ops;
      var c, op := RunCached(hashOf, maxSize, Some(ttl), ops), DoWrite(key, value, Clock(ttl, n));
      ApplyKeeps(c, hashOf, maxSize, Some(ttl), op);
      OwnStep(c, hashOf, maxSize, Some(ttl), op, key);
    }
  }

  lemma PerShardPositive(maxSize: nat)
    ensures PerShard(maxSize) == 0 <==> maxSize == 0
  {
    hide ShardCount;
    ShardCountSpec(maxSize);
    CeilDivBound(maxSize, ShardCount(maxSize));
  }

  lemma CleanIsShort<K, V>(hashOf: K -> int, maxSize: nat, ops: seq<Op<K, V>>, i: nat)
    requires i < ShardCount(maxSize)
    ensures |RunCached(hashOf, maxSize, None, ops).shards[i].order| <= AtLeastOne(PerShard(maxSize))
  {
    hide ShardCount, PerShard;
    CleanWithoutTtl(hashOf, maxSize, ops, i);
    var s := RunCached(hashOf, maxSize, None, ops).shards[i];
    assert ShardOk(s, i, hashOf, maxSize);
    ElementsSize(s.order);
    assert Elements(s.order) == s.entries.Keys;
  }

  lemma BoundHolds<K(!new), V(!new)>(hashOf: K -> int, maxSize: nat, ttl: Ttl)
    requires ttl.None? || maxSize == 0
    ensures DequesBounded<K, V>(hashOf, maxSize, ttl, AtLeastOne(PerShard(maxSize)))
  {
    hide ShardCount, PerShard;
    forall ops: seq<Op<K, V>>, i: nat | i < ShardCount(maxSize)
      ensures |RunCached(hashOf, maxSize, ttl, ops).shards[i].order| <= AtLeastOne(PerShard(maxSize))
    {
      if maxSize == 0 { NoneStaysShort(hashOf, ttl, ops, i); } else { CleanIsShort(hashOf, maxSize, ops, i); }
    }
  }

  lemma Unbounded<K(!new), V(!new)>(hashOf: K -> int, maxSize: nat, ttl: nat, key: K, value: V, bound: nat)
    requires PerShard(maxSize) > 0
    ensures !DequesBounded<K, V>(hashOf, maxSize, Some(ttl), bound)
  {
    hide ShardIndex, ShardCount, PerShard, RunCached, Rewrites, Restored, ShardOk;
    ShardCountSpec(maxSize);
    var ops := Rewrites(ttl, key, value, bound + 1);
    RewritesRestore(hashOf, maxSize, ttl, key, value, bound + 1);
    OrderGrows(PerShard(maxSize), ttl, key, value, bound + 1);
    var i := ShardIndex(hashOf(key), ShardCount(maxSize));
    assert |RunCached(hashOf, maxSize, Some(ttl), ops).shards[i].order| == bound + 1;
  }

  /** The deques have a bound exactly without time-to-live or with max_size zero, and then the capacity of a shard is
      one (at least one entry fits). */
  lemma DequesBoundedIff<K(!new), V(!new)>(hashOf: K -> int, maxSize: nat, ttl: Ttl, key: K, value: V)
    ensures (exists bound: nat :: DequesBounded<K, V>(hashOf, maxSize, ttl, bound)) <==> ttl.None? || maxSize == 0
    ensures ttl.None? || maxSize == 0 ==> DequesBounded<K, V>(hashOf, maxSize, ttl, AtLeastOne(PerShard(maxSize)))
  {
    hide PerShard, DequesBounded;
    PerShardPositive(maxSize);
    if ttl.None? || maxSize == 0 {
      BoundHolds<K, V>(hashOf, maxSize, ttl);
    } else {
      forall bound: nat ensures !DequesBounded<K, V>(hashOf, maxSize, ttl, bound) {
        Unbounded(hashOf, maxSize, ttl.value, key, value, bound);
      }
    }
  }
}

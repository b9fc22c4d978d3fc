/** The shared backend's cached function (src/shared_store.rs): codec and cache composed. */
module Memoisation {
  import opened Layout
  import opened Sieve
  import opened Slabs
  import opened CacheTheorems
  import opened Serde

  /** Python's pickle, of which only this is assumed: loading what was dumped gives the object back. */
  datatype Pickle = Pickle(dumps: Value -> Bytes, loads: Bytes -> Value)

  ghost predicate Lawful(p: Pickle) {
    forall v :: p.loads(p.dumps(v)) == v
  }

  datatype Loaded = Loaded(v: Value) | LoadError

  /** Serialized form of keys and values: the tagged format, or pickle where that does not apply. */
  function ToBytes(p: Pickle, v: Value): Bytes {
    match Encode(v)
    case Some(s) => s
    case None => WrapPickle(p.dumps(v))
  }

  /** `deserialize_value`. */
  function FromBytes(p: Pickle, data: Bytes): Loaded {
    match Deserialize(data)
    case Object(v) => Loaded(v)
    case Utf8Error => LoadError
    case NotOurs => if data == [] then LoadError else Loaded(p.loads(data[1..]))
  }

  /** Every object whose bytes fit 32-bit lengths comes back as itself, by whichever of the two ways it went. */
  lemma StoredComesBack(p: Pickle, v: Value)
    requires Lawful(p) && Proper(v) && |ToBytes(p, v)| < U32
    ensures ToBytes(p, v) != [] && FromBytes(p, ToBytes(p, v)) == Loaded(v)
  {
    match Encode(v)
    case Some(s) =>
      SmallByLength(v);
      NeverPickleTag(v);
      RoundTrip(v, []);
      assert s + [] == s;
    case None =>
      assert WrapPickle(p.dumps(v))[1..] == p.dumps(v);
  }

  /** Which objects take which way, and what comes back of each kind of bytes: the tagged format where it applies, and
      else a zero byte and the pickle. */
  lemma BytesAre(p: Pickle, v: Value, data: Bytes)
    ensures ToBytes(p, v) == if Supported(v) && Encode(v).Some? then Encode(v).value else [0] + p.dumps(v)
    ensures Supported(v) ==> Encode(v).Some?
    ensures FromBytes(p, []) == LoadError && FromBytes(p, [0] + data) == Loaded(p.loads(data))
    ensures data != [] && data[0] != 0 ==>
              FromBytes(p, data) == if DecodeOne(data).Got? then Loaded(DecodeOne(data).v)
                                    else if BadWithin(data) then LoadError else Loaded(p.loads(data[1..]))
  {
    hide DecodeOne, Encode, Supported, BadWithin;
    EncodableIff(v);
    BadUtf8Iff(data);
    assert ([0] + data)[1..] == data;
  }

  /** Equal bytes mean equal key objects. */
  lemma KeyBytesInjective(p: Pickle, v: Value, w: Value)
    requires Lawful(p) && Proper(v) && Proper(w) && |ToBytes(p, v)| < U32
    requires ToBytes(p, v) == ToBytes(p, w)
    ensures v == w
  {
    StoredComesBack(p, v);
    StoredComesBack(p, w);
  }

  // ---------------------------------------------------------------- keys of calls

  /** The key object of a call; `kwargs` are the keyword items in sorted order. */
  function KeyObject(args: seq<Value>, kwargs: seq<(Bytes, Value)>): Value {
    if kwargs != [] then PyTuple([PyTuple(args), KwTuple(kwargs)]) else PyTuple(args)
  }

  function KwTuple(kwargs: seq<(Bytes, Value)>): Value {
    PyTuple(seq(|kwargs|, i requires 0 <= i < |kwargs| => PyTuple([PyStr(kwargs[i].0), kwargs[i].1])))
  }

  lemma KwTupleInjective(a: seq<(Bytes, Value)>, b: seq<(Bytes, Value)>)
    requires KwTuple(a) == KwTuple(b)
    ensures a == b
  {
    assert |KwTuple(a).items| == |a| && |KwTuple(b).items| == |b|;
    forall i | 0 <= i < |a| ensures a[i] == b[i] {
      assert KwTuple(a).items[i] == KwTuple(b).items[i];
      assert PyTuple([PyStr(a[i].0), a[i].1]).items[0] == PyStr(a[i].0);
      assert PyTuple([PyStr(a[i].0), a[i].1]).items[1] == a[i].1;
      assert PyTuple([PyStr(b[i].0), b[i].1]).items[0] == PyStr(b[i].0);
      assert PyTuple([PyStr(b[i].0), b[i].1]).items[1] == b[i].1;
    }
  }

  /** `positional` passes as two positional arguments what `keyword` passes as arguments and keywords. */
  ghost predicate Disguised(args: seq<Value>, keywordArgs: seq<Value>, kwargs: seq<(Bytes, Value)>) {
    kwargs != [] && args == [PyTuple(keywordArgs), KwTuple(kwargs)]
  }

  /** Two calls share a key object exactly when they are the same call, or one is the other in positional disguise:
      f(x, k=y) and f((x,), (("k", y),)) are not told apart. */
  lemma KeyCollision(a: seq<Value>, ka: seq<(Bytes, Value)>, b: seq<Value>, kb: seq<(Bytes, Value)>)
    ensures KeyObject(a, ka) == KeyObject(b, kb) <==>
              || (a == b && ka == kb)
              || (ka == [] && Disguised(a, b, kb))
              || (kb == [] && Disguised(b, a, ka))
  {
    if KeyObject(a, ka) == KeyObject(b, kb) {
      var x, y := KeyObject(a, ka).items, KeyObject(b, kb).items;
      if ka != [] && kb != [] {
        assert x[0] == y[0] && x[1] == y[1];
        KwTupleInjective(ka, kb);
      }
    }
  }

  // ---------------------------------------------------------------- runs

  /** A stored pair that a call may serve: the bytes of some key object with the bytes of the function's value. */
  ghost predicate FaithfulPair(p: Pickle, fn: Value -> Value, kb: Bytes, vb: Bytes) {
    exists obj :: Proper(obj) && ToBytes(p, obj) == kb && |kb| < U32 && FromBytes(p, vb) == Loaded(fn(obj))
  }

  ghost predicate Faithful(p: Pickle, fn: Value -> Value, s: Slab) {
    forall kb :: kb in ContentsOf(s) ==> FaithfulPair(p, fn, kb, ContentsOf(s)[kb].value)
  }

  /** The atomic phases of calls by any number of processes, and everything else that may happen between them. */
  datatype Phase =
    | Look(obj: Value, now: nat)
    | Keep(obj: Value, now: nat, marks: Marks)
    | Mark(slot: nat)
    | Reap(slot: nat, key: Bytes)
    | Count(hit: bool)
    | ClearAll

  datatype Sizes = Sizes(maxKey: nat, maxValue: nat)

  /** The cache operation of a phase: `store_result` skips what is too large. */
  function OpOf(p: Pickle, fn: Value -> Value, z: Sizes, ph: Phase): Op {
    match ph
    case Look(obj, now) => if |ToBytes(p, obj)| > z.maxKey then DoSkip else DoGet(ToBytes(p, obj), now)
    case Keep(obj, now, marks) =>
      var kb, vb := ToBytes(p, obj), ToBytes(p, fn(obj));
      if |kb| > z.maxKey || |vb| > z.maxValue then DoSkip else DoInsert(kb, vb, now, marks)
    case Mark(slot) => DoMark(slot)
    case Reap(slot, key) => DoReap(slot, key)
    case Count(hit) => DoCount(hit)
    case ClearAll => DoClear
  }

  /** A look-up reads the cache under the key's bytes unless they are too many; a result is stored under them unless they
      or its own bytes are; what is too large is counted as skipped. */
  lemma PhasesAre(p: Pickle, fn: Value -> Value, z: Sizes, obj: Value, now: nat, marks: Marks)
    ensures var kb, vb := ToBytes(p, obj), ToBytes(p, fn(obj));
            && OpOf(p, fn, z, Look(obj, now)) == (if |kb| <= z.maxKey then DoGet(kb, now) else DoSkip)
            && OpOf(p, fn, z, Keep(obj, now, marks)) ==
                 if |kb| <= z.maxKey && |vb| <= z.maxValue then DoInsert(kb, vb, now, marks) else DoSkip
  {
  }

  ghost predicate ProperPhase(fn: Value -> Value, ph: Phase) {
    (ph.Look? || ph.Keep?) ==> Proper(ph.obj) && Proper(fn(ph.obj))
  }

  lemma PhaseFaithful(p: Pickle, fn: Value -> Value, z: Sizes, s: Slab, ph: Phase)
    requires Lawful(p) && z.maxKey < U32 && z.maxValue < U32 && ProperPhase(fn, ph)
    requires WF(s) && Faithful(p, fn, s)
    ensures var t := StepOp(s, OpOf(p, fn, z, ph)); WF(t) && Faithful(p, fn, t)
  {
    hide WF, ContentsOf, FromBytes, Encode;
    var op := OpOf(p, fn, z, ph);
    StepKeeps(s, op);
    forall kb | kb in ContentsOf(StepOp(s, op))
      ensures FaithfulPair(p, fn, kb, ContentsOf(StepOp(s, op))[kb].value)
    {
      StepAnswer(s, op, kb);
      if op.DoInsert? && op.key == kb { StoredComesBack(p, fn(ph.obj)); }
    }
  }

  /** The answer of the look-up phase: nothing, or the value that the call returns. */
  ghost function LookAnswer(p: Pickle, z: Sizes, s: Slab, obj: Value, now: nat): Option<Loaded>
    requires WF(s)
  {
    if |ToBytes(p, obj)| > z.maxKey then None
    else
      match Slabs.Get(s, ToBytes(p, obj), now).0
      case Found(vb) => Some(FromBytes(p, vb))
      case NotFound => None
  }

  lemma LookTruthful(p: Pickle, fn: Value -> Value, z: Sizes, s: Slab, obj: Value, now: nat)
    requires Lawful(p) && z.maxKey < U32 && Proper(obj) && WF(s) && Faithful(p, fn, s)
    ensures LookAnswer(p, z, s, obj, now) in {None, Some(Loaded(fn(obj)))}
  {
    hide WF, ContentsOf, FromBytes, Encode;
    var kb := ToBytes(p, obj);
    GetSpec(s, kb, now);
    if |kb| <= z.maxKey && Slabs.Get(s, kb, now).0.Found? {
      assert FaithfulPair(p, fn, kb, ContentsOf(s)[kb].value);
      var other :| Proper(other) && ToBytes(p, other) == kb && FromBytes(p, ContentsOf(s)[kb].value) == Loaded(fn(other));
      KeyBytesInjective(p, other, obj);
    }
  }

  function OpsOf(p: Pickle, fn: Value -> Value, z: Sizes, phases: seq<Phase>): (ops: seq<Op>)
    ensures |ops| == |phases|
  {
    seq(|phases|, i requires 0 <= i < |phases| => OpOf(p, fn, z, phases[i]))
  }

  lemma {:induction false} RunFaithful(p: Pickle, fn: Value -> Value, z: Sizes, capacity: nat, ttl: nat, phases: seq<Phase>)
    requires Lawful(p) && z.maxKey < U32 && z.maxValue < U32 && capacity > 0
    requires forall ph :: ph in phases ==> ProperPhase(fn, ph)
    ensures Faithful(p, fn, Run(capacity, ttl, OpsOf(p, fn, z, phases)))
  {
    hide FaithfulPair, ProperPhase;
    if phases == [] {
      assert ContentsOf(Create(capacity, ttl)) == map[];
    } else {
      var n := |phases| - 1;
      RunFaithful(p, fn, z, capacity, ttl, phases[..n]);
      assert OpsOf(p, fn, z, phases)[..n] == OpsOf(p, fn, z, phases[..n]);
      assert phases[n] in phases;
      PhaseFaithful(p, fn, z, Run(capacity, ttl, OpsOf(p, fn, z, phases[..n])), phases[n]);
    }
  }

  /** Memoisation is transparent: after any interleaving of look-ups, stores, expiries, evictions, clears and oversize
      skips, by any number of processes, a call either computes the function or is served exactly its value. */
  lemma Transparent(p: Pickle, fn: Value -> Value, z: Sizes, capacity: nat, ttl: nat, phases: seq<Phase>, obj: Value, now: nat)
    requires Lawful(p) && z.maxKey < U32 && z.maxValue < U32 && capacity > 0
    requires (forall ph :: ph in phases ==> ProperPhase(fn, ph)) && Proper(obj)
    ensures LookAnswer(p, z, Run(capacity, ttl, OpsOf(p, fn, z, phases)), obj, now) in {None, Some(Loaded(fn(obj)))}
  {
    RunFaithful(p, fn, z, capacity, ttl, phases);
    LookTruthful(p, fn, z, Run(capacity, ttl, OpsOf(p, fn, z, phases)), obj, now);
  }
}

/** The cached function over the real arrays. */
module SharedStore {
  import opened Layout
  import opened Sieve
  import opened Slabs
  import opened CacheTheorems
  import opened ShmCaches
  import opened Serde
  import opened Memoisation

  class SharedCachedFunction {
    const cache: ShmCache
    const pickle: Pickle
    const fn: Value -> Value
    const hash: Bytes -> nat
    const maxKeySize: nat
    const maxValueSize: nat

    ghost predicate Valid()
      reads cache, cache.header, cache.buckets, cache.slots
    {
      && cache.Valid() && cache.hashOf == hash && Lawful(pickle)
      && cache.limits == Limits(maxKeySize, maxValueSize) && maxKeySize < U32 && maxValueSize < U32
      && Faithful(pickle, fn, cache.Model())
    }

    constructor (fn: Value -> Value, hash: Bytes -> nat, pickle: Pickle,
                 maxSize: nat, ttl: nat, maxKeySize: nat, maxValueSize: nat)
      requires 1 <= maxSize <= MAX_SHARED_MAX_SIZE && maxKeySize < U32 && maxValueSize < U32 && Lawful(pickle)
      ensures Valid() && cache.Model() == Create(maxSize, ttl)
      ensures this.fn == fn && this.pickle == pickle && this.hash == hash
      ensures this.maxKeySize == maxKeySize && this.maxValueSize == maxValueSize
    {
      HtCapacitySpec(maxSize);
      var c := new ShmCache(maxSize, ttl, Limits(maxKeySize, maxValueSize), hash);
      cache := c;
      this.fn, this.hash, this.pickle, this.maxKeySize, this.maxValueSize := fn, hash, pickle, maxKeySize, maxValueSize;
      assert ContentsOf(Create(maxSize, ttl)) == map[];
    }

    /** Bytes of an object, by the tagged format or by pickle. */
    method Serialized(v: Value) returns (r: Bytes)
      ensures r == ToBytes(pickle, v)
    {
      var s := Serialize(v);
      if s.Some? {
        r := s.value;
      } else {
        r := WrapPickle(pickle.dumps(v));
      }
    }

    /** Stores a result unless key or value are too large. */
    method StoreResult(key: Bytes, result: Value, now: nat, marks: Marks)
      requires cache.Valid() && cache.hashOf == hash && cache.limits == Limits(maxKeySize, maxValueSize)
      modifies cache, cache.header, cache.buckets, cache.slots
      ensures cache.Valid()
      ensures var vb := ToBytes(pickle, result);
              cache.Model() == if |key| > maxKeySize || |vb| > maxValueSize then RecordOversize(old(cache.Model()))
                               else Slabs.Insert(old(cache.Model()), key, vb, now, marks)
    {
      var valueBytes := Serialized(result);
      if |key| > maxKeySize || |valueBytes| > maxValueSize {
        cache.RecordOversizeSkip();
        return;
      }
      cache.Insert(hash(key), key, valueBytes, now, marks);
    }

    /** A call that nobody interrupts returns the function's value; `now` and `later` are the times of its look-up
        and of its store. */
    method Call(obj: Value, now: nat, later: nat, marks: Marks) returns (r: Loaded)
      requires Valid() && Proper(obj) && Proper(fn(obj))
      modifies cache, cache.header, cache.buckets, cache.slots
      ensures Valid() && r == Loaded(fn(obj))
      ensures var z, m := Sizes(maxKeySize, maxValueSize), old(cache.Model());
              var looked := StepOp(m, OpOf(pickle, fn, z, Look(obj, now)));
              WF(looked) &&
              cache.Model() ==
                if |ToBytes(pickle, obj)| > maxKeySize || Slabs.Get(m, ToBytes(pickle, obj), now).0.Found? then looked
                else StepOp(looked, OpOf(pickle, fn, z, Keep(obj, later, marks)))
    {
      hide WF, Faithful, FromBytes, ToBytes, Lawful, Proper, ShmCache.Core, Slabs.Get, Slabs.Insert;
      ghost var m, z := cache.Model(), Sizes(maxKeySize, maxValueSize);
      PhaseFaithful(pickle, fn, z, m, Look(obj, now));
      LookTruthful(pickle, fn, z, m, obj, now);
      var key := Serialized(obj);
      if |key| > maxKeySize {
        cache.RecordOversizeSkip();
        return Loaded(fn(obj));
      }
      var got := cache.Get(hash(key), key, now);
      match got
      case Found(vb) =>
        r := FromBytes(pickle, vb);
      case NotFound =>
        var result := fn(obj);
        PhaseFaithful(pickle, fn, z, cache.Model(), Keep(obj, later, marks));
        StoreResult(key, result, later, marks);
        r := Loaded(result);
    }

    method Clear()
      requires Valid()
      modifies cache, cache.header, cache.buckets, cache.slots
      ensures Valid() && cache.Model() == Slabs.Clear(old(cache.Model()))
    {
      ClearSpec(cache.Model());
      cache.Clear();
    }
  }

  /** The Python-level constructor rejects the sizes that the region would reject. */
  method NewSharedCachedFunction(fn: Value -> Value, hash: Bytes -> nat, pickle: Pickle,
                                 maxSize: nat, ttl: nat, maxKeySize: nat, maxValueSize: nat)
    returns (r: Option<SharedCachedFunction>)
    requires maxKeySize < U32 && maxValueSize < U32 && Lawful(pickle)
    ensures r.Some? <==> 1 <= maxSize <= MAX_SHARED_MAX_SIZE
    ensures r.Some? ==> r.value.Valid() && r.value.cache.Model() == Create(maxSize, ttl)
  {
    if maxSize == 0 || maxSize > MAX_SHARED_MAX_SIZE {
      return None;
    }
    var f := new SharedCachedFunction(fn, hash, pickle, maxSize, ttl, maxKeySize, maxValueSize);
    return Some(f);
  }
}

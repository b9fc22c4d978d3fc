/** The lock-free lookup (src/shm/mod.rs, ht_lookup_checked) as a program of single-word loads. */
module OptimisticLookup {
  import opened Layout
  import opened Slabs
  import opened Seqlock

  /** The words that the lookup reads. */
  datatype Addr =
    | BucketSlot(bucket: nat)
    | BucketHash(bucket: nat)
    | Occupied(slot: nat)
    | KeyLen(slot: nat)
    | ValueLen(slot: nat)
    | Created(slot: nat)
    | DataByte(slot: nat, offset: nat)

  /** The header fields that never change after creation. */
  datatype Config = Config(htCapacity: nat, capacity: nat, maxData: nat, ttl: nat) {
    function SlotSize(): nat { SLOT_HEADER_SIZE + maxData }
  }

  datatype Query = Query(keyHash: nat, key: Bytes, now: nat)

  /** Where the lookup stands: the n-th probe is at bucket i; s is a slot index that passed the bounds check, kl and
      vl are lengths that passed theirs. */
  datatype Place =
    | AtBucket(n: nat, i: nat)
    | AtHash(n: nat, i: nat)
    | AtSlotIndex(n: nat, i: nat)
    | AtOccupied(n: nat, i: nat, s: nat)
    | AtKeyLen(n: nat, i: nat, s: nat)
    | AtKeyLenAgain(n: nat, i: nat, s: nat)
    | AtValueLen(n: nat, i: nat, s: nat, kl: nat)
    | AtKeyByte(n: nat, i: nat, s: nat, kl: nat, vl: nat, k: nat)
    | AtCreated(s: nat, kl: nat, vl: nat)
    | AtValueByte(s: nat, kl: nat, vl: nat, got: Bytes)
    | Finished(outcome: Outcome)

  datatype Local = Local(q: Query, at: Place)

  function Start(c: Config, q: Query): Local
    requires c.htCapacity > 0
  {
    Local(q, AtBucket(0, Ideal(q.keyHash, c.htCapacity)))
  }

  function AddrOf(l: Local): Option<Addr> {
    match l.at
    case AtBucket(_, i) => Some(BucketSlot(i))
    case AtHash(_, i) => Some(BucketHash(i))
    case AtSlotIndex(_, i) => Some(BucketSlot(i))
    case AtOccupied(_, _, s) => Some(Occupied(s))
    case AtKeyLen(_, _, s) => Some(KeyLen(s))
    case AtKeyLenAgain(_, _, s) => Some(KeyLen(s))
    case AtValueLen(_, _, s, _) => Some(ValueLen(s))
    case AtKeyByte(_, _, s, _, _, k) => Some(DataByte(s, k))
    case AtCreated(s, _, _) => Some(Created(s))
    case AtValueByte(s, kl, _, got) => Some(DataByte(s, kl + |got|))
    case Finished(_) => None
  }

  function NextProbe(c: Config, n: nat, i: nat): Place
    requires c.htCapacity > 0
  {
    if n + 1 < c.htCapacity then AtBucket(n + 1, NextIndex(i, c.htCapacity)) else Finished(Miss)
  }

  function ReadValue(s: nat, kl: nat, vl: nat, got: Bytes): Place {
    if |got| >= vl then Finished(Hit(got, s)) else AtValueByte(s, kl, vl, got)
  }

  function KeyMatched(c: Config, s: nat, kl: nat, vl: nat): Place {
    if c.ttl > 0 then AtCreated(s, kl, vl) else ReadValue(s, kl, vl, [])
  }

  function CompareFrom(c: Config, n: nat, i: nat, s: nat, kl: nat, vl: nat, k: nat): Place {
    if k >= kl then KeyMatched(c, s, kl, vl) else AtKeyByte(n, i, s, kl, vl, k)
  }

  /** What the word just loaded, whatever it is, makes the lookup do next. The key length is loaded twice. */
  function StepPlace(c: Config, q: Query, at: Place, word: int): Place
    requires c.htCapacity > 0
  {
    match at
    case AtBucket(n, i) => if word == BUCKET_EMPTY then Finished(Miss) else AtHash(n, i)
    case AtHash(n, i) => if word == q.keyHash then AtSlotIndex(n, i) else NextProbe(c, n, i)
    case AtSlotIndex(n, i) => if word < 0 || word >= c.capacity then Finished(Miss) else AtOccupied(n, i, word)
    case AtOccupied(n, i, s) => if word != 0 then AtKeyLen(n, i, s) else NextProbe(c, n, i)
    case AtKeyLen(n, i, s) => if word % U32 == |q.key| then AtKeyLenAgain(n, i, s) else NextProbe(c, n, i)
    case AtKeyLenAgain(n, i, s) => AtValueLen(n, i, s, word % U32)
    case AtValueLen(n, i, s, kl) =>
      var vl := word % U32;
      if kl + vl > c.maxData then Finished(Miss)
      else if kl != |q.key| then NextProbe(c, n, i)
      else CompareFrom(c, n, i, s, kl, vl, 0)
    case AtKeyByte(n, i, s, kl, vl, k) =>
      if k < |q.key| && word % 256 == q.key[k] then CompareFrom(c, n, i, s, kl, vl, k + 1) else NextProbe(c, n, i)
    case AtCreated(s, kl, vl) =>
      if Elapsed(q.now, if word < 0 then 0 else word) > c.ttl then Finished(Expired(s)) else ReadValue(s, kl, vl, [])
    case AtValueByte(s, kl, vl, got) => ReadValue(s, kl, vl, got + [word % 256])
    case Finished(_) => at
  }

  function StepLocal(c: Config, l: Local, word: int): Local
    requires c.htCapacity > 0
  {
    l.(at := StepPlace(c, l.q, l.at, word))
  }

  /** The program that readers run under the seqlock. */
  function Lookup(c: Config): Program<Addr, Local>
    requires c.htCapacity > 0
  {
    Program(AddrOf, (l, w) => StepLocal(c, l, w))
  }

  // ---------------------------------------------------------------- safety with torn data

  /** What the bounds checks establish, without any assumption on what was read. */
  ghost predicate Checked(c: Config, l: Local) {
    match l.at
    case AtBucket(n, i) => n < c.htCapacity && i < c.htCapacity
    case AtHash(n, i) => n < c.htCapacity && i < c.htCapacity
    case AtSlotIndex(n, i) => n < c.htCapacity && i < c.htCapacity
    case AtOccupied(n, i, s) => n < c.htCapacity && i < c.htCapacity && s < c.capacity
    case AtKeyLen(n, i, s) => n < c.htCapacity && i < c.htCapacity && s < c.capacity
    case AtKeyLenAgain(n, i, s) => n < c.htCapacity && i < c.htCapacity && s < c.capacity
    case AtValueLen(n, i, s, kl) => n < c.htCapacity && i < c.htCapacity && s < c.capacity
    case AtKeyByte(n, i, s, kl, vl, k) =>
      n < c.htCapacity && i < c.htCapacity && s < c.capacity && kl + vl <= c.maxData && k < kl == |l.q.key|
    case AtCreated(s, kl, vl) => s < c.capacity && kl + vl <= c.maxData
    case AtValueByte(s, kl, vl, got) => s < c.capacity && kl + vl <= c.maxData && |got| < vl
    case Finished(_) => true
  }

  lemma StartChecked(c: Config, q: Query)
    requires c.htCapacity > 0
    ensures Checked(c, Start(c, q))
  {
  }

  lemma StepChecked(c: Config, l: Local, word: int)
    requires c.htCapacity > 0 && Checked(c, l)
    ensures Checked(c, StepLocal(c, l, word))
  {
  }

  /** The bytes of the region that a load touches: offset and width (src/shm/layout.rs, field offsets). */
  function Span(c: Config, a: Addr): (nat, nat) {
    var slab := SlabOffset(c.htCapacity);
    match a
    case BucketHash(i) => (HtOffset() + i * BUCKET_SIZE, 8)
    case BucketSlot(i) => (HtOffset() + i * BUCKET_SIZE + 8, 4)
    case Created(s) => (slab + s * c.SlotSize() + 8, 8)
    case Occupied(s) => (slab + s * c.SlotSize() + 32, 4)
    case KeyLen(s) => (slab + s * c.SlotSize() + 36, 4)
    case ValueLen(s) => (slab + s * c.SlotSize() + 40, 4)
    case DataByte(s, k) => (slab + s * c.SlotSize() + SLOT_HEADER_SIZE + k, 1)
  }

  /** Bytes of a region with this configuration. */
  predicate InRegion(c: Config, a: Addr) {
    match a
    case BucketSlot(i) => i < c.htCapacity
    case BucketHash(i) => i < c.htCapacity
    case Occupied(s) => s < c.capacity
    case KeyLen(s) => s < c.capacity
    case ValueLen(s) => s < c.capacity
    case Created(s) => s < c.capacity
    case DataByte(s, k) => s < c.capacity && k < c.maxData
  }

  lemma Apart(i: nat, j: nat, size: nat)
    requires i < j
    ensures i * size + size <= j * size
  {
    assert (j - i - 1) * size >= 0;
    assert j * size == i * size + size + (j - i - 1) * size;
  }

  /** The header takes 256 bytes, a bucket 16, a slot 64 and its data; every word has bytes of its own. */
  lemma SpansApart(c: Config, a: Addr, b: Addr)
    requires InRegion(c, a) && InRegion(c, b) && a != b
    ensures var (la, wa), (lb, wb) := Span(c, a), Span(c, b);
            && 256 <= la && 256 <= lb && wa > 0 && wb > 0
            && (la + wa <= lb || lb + wb <= la)
            && la + wa <= 256 + c.htCapacity * 16 + c.capacity * (64 + c.maxData)
  {
    hide Span;
    Within(c, a);
    Within(c, b);
    if OfBucket(a) == OfBucket(b) && Index(a) == Index(b) {
      SamePlaceApart(c, a, b);
    } else {
      LowerApart(c, a, b);
      LowerApart(c, b, a);
    }
  }

  function Index(a: Addr): nat {
    if OfBucket(a) then a.bucket else a.slot
  }

  lemma Within(c: Config, a: Addr)
    requires InRegion(c, a)
    ensures var (la, wa) := Span(c, a);
            256 <= la && wa > 0 && la + wa <= 256 + c.htCapacity * 16 + c.capacity * (64 + c.maxData)
  {
    hide Span;
    InItsPart(c, a);
    NonNegative(c.capacity, c.SlotSize());
    NonNegative(Index(a), c.SlotSize());
  }

  lemma LowerApart(c: Config, a: Addr, b: Addr)
    requires InRegion(c, a) && InRegion(c, b)
    ensures var (la, wa), (lb, wb) := Span(c, a), Span(c, b);
            (OfBucket(a) && !OfBucket(b)) || (OfBucket(a) == OfBucket(b) && Index(a) < Index(b)) ==> la + wa <= lb
  {
    hide Span;
    InItsPart(c, a);
    InItsPart(c, b);
    NonNegative(Index(b), c.SlotSize());
    if !OfBucket(a) && Index(a) < Index(b) { Apart(Index(a), Index(b), c.SlotSize()); }
  }

  predicate OfBucket(a: Addr) { a.BucketSlot? || a.BucketHash? }

  lemma NonNegative(a: nat, b: nat)
    ensures a * b >= 0
  {
  }

  lemma SamePlaceApart(c: Config, a: Addr, b: Addr)
    requires InRegion(c, a) && InRegion(c, b) && a != b && OfBucket(a) == OfBucket(b)
    requires if OfBucket(a) then a.bucket == b.bucket else a.slot == b.slot
    ensures var (la, wa), (lb, wb) := Span(c, a), Span(c, b); la + wa <= lb || lb + wb <= la
  {
  }

  /** Buckets lie before the slab, slot words inside their slot. */
  lemma InItsPart(c: Config, a: Addr)
    requires InRegion(c, a)
    ensures var (lo, w) := Span(c, a);
            && w > 0
            && if a.BucketSlot? || a.BucketHash? then
                 256 + a.bucket * 16 <= lo && lo + w <= 256 + a.bucket * 16 + 16 <= 256 + c.htCapacity * 16
               else
                 var base := 256 + c.htCapacity * 16 + a.slot * c.SlotSize();
                 base <= lo && lo + w <= base + c.SlotSize() <= 256 + c.htCapacity * 16 + c.capacity * c.SlotSize()
  {
    if !(a.BucketSlot? || a.BucketHash?) { Apart(a.slot, c.capacity, c.SlotSize()); }
  }

  ghost predicate InBucketArray(c: Config, lo: nat, width: nat) {
    HtOffset() <= lo && lo + width <= SlabOffset(c.htCapacity)
  }

  ghost predicate InOneSlot(c: Config, lo: nat, width: nat) {
    exists s: nat :: s < c.capacity && InSlot(c, s, lo, width)
  }

  ghost predicate InSlot(c: Config, s: nat, lo: nat, width: nat) {
    SlabOffset(c.htCapacity) + s * c.SlotSize() <= lo && lo + width <= SlabOffset(c.htCapacity) + s * c.SlotSize() + c.SlotSize()
  }

  ghost predicate InBounds(c: Config, a: Addr) {
    var (lo, width) := Span(c, a);
    && (InBucketArray(c, lo, width) || InOneSlot(c, lo, width))
    && lo + width <= RegionSize(c.capacity, c.htCapacity, c.SlotSize())
  }

  lemma BucketInBounds(c: Config, i: nat)
    requires i < c.htCapacity
    ensures InBounds(c, BucketHash(i)) && InBounds(c, BucketSlot(i))
  {
    assert (i + 1) * BUCKET_SIZE <= c.htCapacity * BUCKET_SIZE;
    assert c.capacity * c.SlotSize() >= 0;
  }

  lemma SlotInBounds(c: Config, s: nat, a: Addr)
    requires s < c.capacity
    requires a in {Created(s), Occupied(s), KeyLen(s), ValueLen(s)} || exists k: nat :: k < c.maxData && a == DataByte(s, k)
    ensures InBounds(c, a)
  {
    SlotInRegion(s, c.capacity, c.htCapacity, c.SlotSize());
    var (lo, width) := Span(c, a);
    assert InSlot(c, s, lo, width);
  }

  /** A checked lookup only ever loads from inside the bucket array or inside a single slot of the region. */
  lemma CheckedInBounds(c: Config, l: Local)
    requires c.htCapacity > 0 && Checked(c, l) && AddrOf(l).Some?
    ensures InBounds(c, AddrOf(l).value)
  {
    match l.at
    case AtBucket(_, i) => BucketInBounds(c, i);
    case AtHash(_, i) => BucketInBounds(c, i);
    case AtSlotIndex(_, i) => BucketInBounds(c, i);
    case AtOccupied(_, _, s) => SlotInBounds(c, s, Occupied(s));
    case AtKeyLen(_, _, s) => SlotInBounds(c, s, KeyLen(s));
    case AtKeyLenAgain(_, _, s) => SlotInBounds(c, s, KeyLen(s));
    case AtValueLen(_, _, s, _) => SlotInBounds(c, s, ValueLen(s));
    case AtKeyByte(_, _, s, _, _, k) => SlotInBounds(c, s, DataByte(s, k));
    case AtCreated(s, _, _) => SlotInBounds(c, s, Created(s));
    case AtValueByte(s, kl, _, got) => SlotInBounds(c, s, DataByte(s, kl + |got|));
  }

  /** The lookup fed with arbitrary words, as concurrent writers may produce them. */
  function Fed(c: Config, q: Query, words: seq<int>): Local
    requires c.htCapacity > 0
  {
    if words == [] then Start(c, q) else StepLocal(c, Fed(c, q, words[..|words| - 1]), words[|words| - 1])
  }

  lemma {:induction false} FedChecked(c: Config, q: Query, words: seq<int>)
    requires c.htCapacity > 0
    ensures Checked(c, Fed(c, q, words))
  {
    if words == [] {
      StartChecked(c, q);
    } else {
      FedChecked(c, q, words[..|words| - 1]);
      StepChecked(c, Fed(c, q, words[..|words| - 1]), words[|words| - 1]);
    }
  }

  /** Whatever words a torn read delivers, every load of the lookup stays inside the region. */
  lemma TornReadsStayInBounds(c: Config, q: Query, words: seq<int>)
    requires c.htCapacity > 0
    ensures AddrOf(Fed(c, q, words)).Some? ==> InBounds(c, AddrOf(Fed(c, q, words)).value)
  {
    FedChecked(c, q, words);
    if AddrOf(Fed(c, q, words)).Some? { CheckedInBounds(c, Fed(c, q, words)); }
  }

  /** Loads that one probe can take at most. */
  function PerProbe(c: Config, q: Query): nat {
    |q.key| + c.maxData + 10
  }

  /** Probes still to come after the present one, and loads still to come in it. */
  function ProbesLeft(c: Config, l: Local): nat {
    match l.at
    case AtBucket(n, _) => if n < c.htCapacity then c.htCapacity - n else 0
    case AtHash(n, _) => if n < c.htCapacity then c.htCapacity - n else 0
    case AtSlotIndex(n, _) => if n < c.htCapacity then c.htCapacity - n else 0
    case AtOccupied(n, _, _) => if n < c.htCapacity then c.htCapacity - n else 0
    case AtKeyLen(n, _, _) => if n < c.htCapacity then c.htCapacity - n else 0
    case AtKeyLenAgain(n, _, _) => if n < c.htCapacity then c.htCapacity - n else 0
    case AtValueLen(n, _, _, _) => if n < c.htCapacity then c.htCapacity - n else 0
    case AtKeyByte(n, _, _, _, _, _) => if n < c.htCapacity then c.htCapacity - n else 0
    case AtCreated(_, _, _) => 1
    case AtValueByte(_, _, _, _) => 1
    case Finished(_) => 0
  }

  function LoadsLeft(c: Config, l: Local): nat {
    match l.at
    case AtBucket(_, _) => PerProbe(c, l.q)
    case AtHash(_, _) => PerProbe(c, l.q) - 1
    case AtSlotIndex(_, _) => PerProbe(c, l.q) - 2
    case AtOccupied(_, _, _) => PerProbe(c, l.q) - 3
    case AtKeyLen(_, _, _) => PerProbe(c, l.q) - 4
    case AtKeyLenAgain(_, _, _) => PerProbe(c, l.q) - 5
    case AtValueLen(_, _, _, _) => PerProbe(c, l.q) - 6
    case AtKeyByte(_, _, _, kl, vl, k) => (if k < kl then kl - k else 0) + c.maxData + 2
    case AtCreated(_, _, vl) => vl + 1
    case AtValueByte(_, _, vl, got) => if |got| < vl then vl - |got| else 0
    case Finished(_) => 0
  }

  /** Every load, whatever it returns, brings the lookup nearer to its end. */
  lemma LoadsDecrease(c: Config, l: Local, word: int)
    requires c.htCapacity > 0 && Checked(c, l) && AddrOf(l).Some?
    ensures var l' := StepLocal(c, l, word);
            && ProbesLeft(c, l') <= ProbesLeft(c, l)
            && (ProbesLeft(c, l') == ProbesLeft(c, l) ==> LoadsLeft(c, l') < LoadsLeft(c, l))
            && LoadsLeft(c, l') <= PerProbe(c, l.q)
            && (l'.at.AtBucket? ==> ProbesLeft(c, l') < ProbesLeft(c, l))
  {
  }

  lemma LoadsRemain(c: Config, l: Local)
    requires Checked(c, l) && AddrOf(l).Some?
    ensures LoadsLeft(c, l) > 0
  {
  }

  function Work(c: Config, l: Local): nat {
    ProbesLeft(c, l) * PerProbe(c, l.q) + LoadsLeft(c, l)
  }

  lemma WorkDecreases(c: Config, l: Local, word: int)
    requires c.htCapacity > 0 && Checked(c, l) && AddrOf(l).Some?
    ensures Work(c, StepLocal(c, l, word)) < Work(c, l)
  {
    hide ProbesLeft, LoadsLeft, PerProbe, Checked, StepPlace, AddrOf;
    LoadsDecrease(c, l, word);
    LoadsRemain(c, l);
    var l' := StepLocal(c, l, word);
    if ProbesLeft(c, l') < ProbesLeft(c, l) { FewerProbes(ProbesLeft(c, l'), ProbesLeft(c, l), PerProbe(c, l.q)); }
  }

  lemma FewerProbes(a: nat, b: nat, pp: nat)
    requires a < b
    ensures a * pp + pp <= b * pp
  {
    var d := b - a - 1;
    MulNonNegative(d, pp);
    assert b * pp == a * pp + pp + d * pp by { assert b == a + 1 + d; }
  }

  lemma MulNonNegative(x: nat, y: nat)
    ensures x * y >= 0
  {
  }

  /** However torn the data, the lookup stops after a number of loads fixed by the configuration and the key. */
  lemma {:induction false} TornReadsStop(c: Config, q: Query, words: seq<int>)
    requires c.htCapacity > 0
    ensures Fed(c, q, words).at.Finished? || |words| + Work(c, Fed(c, q, words)) <= Work(c, Start(c, q))
  {
    if words != [] {
      var l := Fed(c, q, words[..|words| - 1]);
      TornReadsStop(c, q, words[..|words| - 1]);
      FedChecked(c, q, words[..|words| - 1]);
      if AddrOf(l).Some? { WorkDecreases(c, l, words[|words| - 1]); }
    }
  }

  /** How many buckets have been probed. */
  function Probes(c: Config, q: Query, words: seq<int>): nat
    requires c.htCapacity > 0
  {
    if words == [] then 1
    else Probes(c, q, words[..|words| - 1]) +
         (if Fed(c, q, words).at.AtBucket? && Fed(c, q, words) != Fed(c, q, words[..|words| - 1]) then 1 else 0)
  }

  /** However torn the data, no more buckets are probed than there are. */
  lemma {:induction false} TornProbesBounded(c: Config, q: Query, words: seq<int>)
    requires c.htCapacity > 0
    ensures Probes(c, q, words) <= c.htCapacity
    ensures var at := Fed(c, q, words).at;
            !at.Finished? && !at.AtCreated? && !at.AtValueByte? ==> Probes(c, q, words) == at.n + 1
  {
    if words != [] {
      TornProbesBounded(c, q, words[..|words| - 1]);
      FedChecked(c, q, words[..|words| - 1]);
      FedChecked(c, q, words);
    }
  }
}

/** A lookup on a memory that stands still is the cache's own read, and so, in every interleaving, is a validated one. */
module OptimisticRead {
  import opened Layout
  import opened Collections
  import opened HashTable
  import opened Ordering
  import opened Slabs
  import opened ShmCaches
  import opened OptimisticLookup
  import CT = CacheTheorems
  import SL = Seqlock

  type Words = SL.Memory<Addr>

  /** The words in which buckets and slots are stored. */
  ghost predicate Represents(mem: Words, b: seq<Bucket>, slots: seq<Slot>) {
    && (forall i: nat :: i < |b| ==> SL.Load(mem, BucketSlot(i)) == b[i].slotIndex)
    && (forall i: nat :: i < |b| ==> SL.Load(mem, BucketHash(i)) == b[i].hash)
    && (forall s: nat :: s < |slots| ==> SlotStored(mem, s, slots[s]))
  }

  ghost predicate SlotStored(mem: Words, s: nat, slot: Slot) {
    && SL.Load(mem, Occupied(s)) == (if slot.occupied then 1 else 0)
    && SL.Load(mem, KeyLen(s)) == |slot.key|
    && SL.Load(mem, ValueLen(s)) == |slot.value|
    && SL.Load(mem, Created(s)) == slot.created
    && (forall k: nat :: k < |slot.key| ==> SL.Load(mem, DataByte(s, k)) == slot.key[k])
    && (forall k: nat :: k < |slot.value| ==> SL.Load(mem, DataByte(s, |slot.key| + k)) == slot.value[k])
  }

  /** The memory holds a well-formed cache whose value is s. */
  ghost predicate Snapshot(c: Config, mem: Words, s: Slab, hashOf: Bytes -> nat) {
    exists b, slots, limits :: SnapshotOf(c, mem, s, hashOf, b, slots, limits)
  }

  ghost predicate SnapshotOf(c: Config, mem: Words, s: Slab, hashOf: Bytes -> nat,
                             b: seq<Bucket>, slots: seq<Slot>, limits: Limits)
  {
    && WF(s) && s.cells == CellsOf(slots) && s.ttl == c.ttl
    && |slots| == c.capacity && |b| == c.htCapacity && c.htCapacity > 0
    && limits.maxKey + limits.maxValue <= c.maxData < U32
    && Indexed(b, slots, s.order) && Filled(slots, s.order, s.free, hashOf, limits)
    && Represents(mem, b, slots)
  }

  /** What a valid cache has in its arrays is such a memory. */
  lemma CacheIsSnapshot(cache: ShmCache, mem: Words)
    requires cache.Valid() && Represents(mem, cache.buckets[..], cache.slots[..])
    requires cache.limits.maxKey + cache.limits.maxValue < U32
    ensures Snapshot(Config(cache.htCapacity, cache.capacity, cache.limits.maxKey + cache.limits.maxValue, cache.ttl),
                     mem, cache.Model(), cache.hashOf)
  {
    assert SnapshotOf(Config(cache.htCapacity, cache.capacity, cache.limits.maxKey + cache.limits.maxValue, cache.ttl),
                      mem, cache.Model(), cache.hashOf, cache.buckets[..], cache.slots[..], cache.limits);
  }

  /** The outcome of the lookup from l on, on a memory that stands still. */
  ghost function Outcome(c: Config, mem: Words, l: Local): Slabs.Outcome
    requires c.htCapacity > 0 && Checked(c, l)
    decreases ProbesLeft(c, l), LoadsLeft(c, l)
  {
    if l.at.Finished? then l.at.outcome
    else
      var w := SL.Load(mem, AddrOf(l).value);
      StepChecked(c, l, w);
      LoadsDecrease(c, l, w);
      Outcome(c, mem, StepLocal(c, l, w))
  }

  /** A program that has stopped has produced this outcome. */
  lemma {:induction false} AtomicOutcome(c: Config, mem: Words, q: Query, n: nat)
    requires c.htCapacity > 0
    ensures var l := SL.Atomically(Lookup(c), mem, Start(c, q), n);
            Checked(c, l) && l.q == q && Outcome(c, mem, l) == Outcome(c, mem, Start(c, q))
  {
    hide Outcome, StepLocal, Checked, AddrOf;
    if n > 0 {
      AtomicOutcome(c, mem, q, n - 1);
      OneAdvance(c, mem, SL.Atomically(Lookup(c), mem, Start(c, q), n - 1));
    } else {
      StartChecked(c, q);
    }
  }

  lemma OneAdvance(c: Config, mem: Words, l: Local)
    requires c.htCapacity > 0 && Checked(c, l)
    ensures var l' := SL.Advance(Lookup(c), mem, l);
            Checked(c, l') && l'.q == l.q && Outcome(c, mem, l') == Outcome(c, mem, l)
  {
    hide StepPlace;
    if AddrOf(l).Some? { OneStep(c, mem, l); }
  }

  // ---------------------------------------------------------------- the stages of the lookup

  lemma {:induction false} ValueStage(c: Config, mem: Words, q: Query, s: nat, slot: Slot, got: Bytes)
    requires c.htCapacity > 0 && s < c.capacity && SlotStored(mem, s, slot)
    requires |slot.key| + |slot.value| <= c.maxData && got <= slot.value
    ensures var l := Local(q, ReadValue(s, |slot.key|, |slot.value|, got));
            Checked(c, l) && Outcome(c, mem, l) == Hit(slot.value, s)
    decreases |slot.value| - |got|
  {
    if |got| < |slot.value| {
      var l := Local(q, AtValueByte(s, |slot.key|, |slot.value|, got));
      var w := SL.Load(mem, DataByte(s, |slot.key| + |got|));
      assert w == slot.value[|got|];
      var got' := got + [w % 256];
      assert got' == slot.value[..|got| + 1];
      ValueStage(c, mem, q, s, slot, got');
      assert StepLocal(c, l, w) == Local(q, ReadValue(s, |slot.key|, |slot.value|, got'));
    } else {
      assert got == slot.value;
    }
  }

  /** What the cache's own read answers for a matching slot. */
  ghost function Answer(c: Config, q: Query, s: nat, slot: Slot): Slabs.Outcome {
    if IsExpired(c.ttl, q.now, slot.created) then Expired(s) else Hit(slot.value, s)
  }

  lemma MatchedStage(c: Config, mem: Words, q: Query, s: nat, slot: Slot)
    requires c.htCapacity > 0 && s < c.capacity && SlotStored(mem, s, slot)
    requires |slot.key| + |slot.value| <= c.maxData
    ensures var l := Local(q, KeyMatched(c, s, |slot.key|, |slot.value|));
            Checked(c, l) && Outcome(c, mem, l) == Answer(c, q, s, slot)
  {
    ValueStage(c, mem, q, s, slot, []);
    if c.ttl > 0 {
      var l := Local(q, AtCreated(s, |slot.key|, |slot.value|));
      assert AddrOf(l) == Some(Created(s));
      assert StepLocal(c, l, slot.created).at ==
             if Elapsed(q.now, slot.created) > c.ttl then Finished(Expired(s)) else ReadValue(s, |slot.key|, |slot.value|, []);
    }
  }

  lemma {:induction false} KeyStage(c: Config, mem: Words, q: Query, n: nat, i: nat, s: nat, slot: Slot, k: nat)
    requires c.htCapacity > 0 && s < c.capacity && SlotStored(mem, s, slot) && n < c.htCapacity && i < c.htCapacity
    requires |slot.key| + |slot.value| <= c.maxData && |slot.key| == |q.key|
    requires k <= |q.key| && slot.key[..k] == q.key[..k]
    ensures var l := Local(q, CompareFrom(c, n, i, s, |slot.key|, |slot.value|, k));
            Checked(c, l) && Checked(c, Local(q, NextProbe(c, n, i)))
            && Outcome(c, mem, l) == if slot.key == q.key then Answer(c, q, s, slot) else Outcome(c, mem, Local(q, NextProbe(c, n, i)))
    decreases |q.key| - k
  {
    if k < |q.key| {
      var l := Local(q, AtKeyByte(n, i, s, |slot.key|, |slot.value|, k));
      var w := SL.Load(mem, DataByte(s, k));
      assert w == slot.key[k];
      if slot.key[k] == q.key[k] {
        assert slot.key[..k + 1] == slot.key[..k] + [slot.key[k]] == q.key[..k + 1];
        KeyStage(c, mem, q, n, i, s, slot, k + 1);
      }
      assert Outcome(c, mem, l) == Outcome(c, mem, StepLocal(c, l, w));
    } else {
      assert slot.key == q.key;
      MatchedStage(c, mem, q, s, slot);
    }
  }

  /** From the check of `occupied` on: either the slot matches, or the lookup goes on to the next probe. */
  lemma SlotStage(c: Config, mem: Words, q: Query, n: nat, i: nat, s: nat, slot: Slot)
    requires c.htCapacity > 0 && s < c.capacity && SlotStored(mem, s, slot) && n < c.htCapacity && i < c.htCapacity
    requires |slot.key| + |slot.value| <= c.maxData < U32
    ensures var l := Local(q, AtOccupied(n, i, s));
            Checked(c, l) && Checked(c, Local(q, NextProbe(c, n, i)))
            && Outcome(c, mem, l) == if slot.occupied && slot.key == q.key then Answer(c, q, s, slot)
                                     else Outcome(c, mem, Local(q, NextProbe(c, n, i)))
  {
    hide Outcome, NextProbe, CompareFrom;
    var next := Local(q, NextProbe(c, n, i));
    NextChecked(c, q, n, i);
    OneStep(c, mem, Local(q, AtOccupied(n, i, s)));
    OneStep(c, mem, Local(q, AtKeyLen(n, i, s)));
    if |slot.key| == |q.key| {
      OneStep(c, mem, Local(q, AtKeyLenAgain(n, i, s)));
      OneStep(c, mem, Local(q, AtValueLen(n, i, s, |slot.key|)));
      KeyStage(c, mem, q, n, i, s, slot, 0);
    }
  }

  lemma OneStep(c: Config, mem: Words, l: Local)
    requires c.htCapacity > 0 && Checked(c, l) && AddrOf(l).Some?
    ensures var l' := StepLocal(c, l, SL.Load(mem, AddrOf(l).value));
            Checked(c, l') && Outcome(c, mem, l) == Outcome(c, mem, l')
  {
    StepChecked(c, l, SL.Load(mem, AddrOf(l).value));
  }

  lemma NextChecked(c: Config, q: Query, n: nat, i: nat)
    requires c.htCapacity > 0 && n < c.htCapacity
    ensures Checked(c, Local(q, NextProbe(c, n, i)))
  {
  }

  /** The n-th probe, when it meets an entry. */
  lemma BucketStage(c: Config, mem: Words, q: Query, n: nat, i: nat, e: Bucket, slot: Slot)
    requires c.htCapacity > 0 && n < c.htCapacity && i < c.htCapacity && e.Used() && 0 <= e.slotIndex < c.capacity
    requires SL.Load(mem, BucketSlot(i)) == e.slotIndex && SL.Load(mem, BucketHash(i)) == e.hash
    requires SlotStored(mem, e.slotIndex, slot) && |slot.key| + |slot.value| <= c.maxData < U32
    ensures var l := Local(q, AtBucket(n, i));
            Checked(c, l) && Checked(c, Local(q, NextProbe(c, n, i)))
            && Outcome(c, mem, l) == if e.hash == q.keyHash && slot.occupied && slot.key == q.key then Answer(c, q, e.slotIndex, slot)
                                     else Outcome(c, mem, Local(q, NextProbe(c, n, i)))
  {
    hide Outcome, NextProbe;
    SlotStage(c, mem, q, n, i, e.slotIndex, slot);
    OneStep(c, mem, Local(q, AtBucket(n, i)));
    OneStep(c, mem, Local(q, AtHash(n, i)));
    OneStep(c, mem, Local(q, AtSlotIndex(n, i)));
  }

  lemma {:induction false} LookupFrom(c: Config, mem: Words, s: Slab, hashOf: Bytes -> nat, b: seq<Bucket>, slots: seq<Slot>,
                                      limits: Limits, q: Query, n: nat, i: nat)
    requires SnapshotOf(c, mem, s, hashOf, b, slots, limits) && q.keyHash == hashOf(q.key)
    requires n < |b| && AtProbe(i, |b|, q.keyHash, n) && Probed(b, slots, q.keyHash, q.key, n)
    ensures Checked(c, Local(q, AtBucket(n, i)))
    ensures Outcome(c, mem, Local(q, AtBucket(n, i))) == Slabs.Peek(s, q.key, q.now)
    decreases |b| - n
  {
    hide ProbeInv, Table, DistinctSlots, Live, EntriesOf, Filled, WF, CellsOf, Probed, Matches;
    TableFacts(s, hashOf, b, slots, limits);
    if !b[i].Used() {
      NoMatchPastEmpty(b, slots, q.keyHash, q.key, n, i);
      LookupIsFind(s, slots, b, q.keyHash, q.key, hashOf, limits, None);
      OneStep(c, mem, Local(q, AtBucket(n, i)));
    } else {
      EntryFacts(s, hashOf, b, slots, limits, i);
      BucketStage(c, mem, q, n, i, b[i], slots[b[i].slotIndex]);
      MatchFacts(s, slots, b, limits, q, hashOf, i);
      if !Matches(b[i], slots, q.keyHash, q.key) {
        NextIndexIsStep(i, |b|);
        ProbeAdvances(b, slots, q.keyHash, q.key, n, i);
        if n + 1 < |b| {
          LookupFrom(c, mem, s, hashOf, b, slots, limits, q, n + 1, NextIndex(i, |b|));
        } else {
          NoMatchPastEmpty(b, slots, q.keyHash, q.key, n + 1, i);
          LookupIsFind(s, slots, b, q.keyHash, q.key, hashOf, limits, None);
        }
      }
    }
  }

  lemma TableFacts(s: Slab, hashOf: Bytes -> nat, b: seq<Bucket>, slots: seq<Slot>, limits: Limits)
    requires Indexed(b, slots, s.order)
    ensures ProbeInv(b) && |b| > 1 && IsPow2(|b|)
  {
  }

  /** When the probed entry matches, it is the one that a search of the listed slots finds. */
  lemma MatchFacts(s: Slab, slots: seq<Slot>, b: seq<Bucket>, limits: Limits, q: Query, hashOf: Bytes -> nat, i: nat)
    requires WF(s) && s.cells == CellsOf(slots) && Indexed(b, slots, s.order)
    requires Filled(slots, s.order, s.free, hashOf, limits) && q.keyHash == hashOf(q.key)
    requires i < |b| && b[i].Used() && b[i] in Live(b) && 0 <= b[i].slotIndex < |slots|
    ensures var e, slot := b[i], slots[b[i].slotIndex];
            && (Matches(e, slots, q.keyHash, q.key) <==> e.hash == q.keyHash && slot.occupied && slot.key == q.key)
            && (Matches(e, slots, q.keyHash, q.key) ==>
                  Find(s, q.key) == e.slotIndex && e.slotIndex < |s.cells|
                  && s.cells[e.slotIndex].value == slot.value && s.cells[e.slotIndex].created == slot.created)
  {
    if Matches(b[i], slots, q.keyHash, q.key) {
      assert Finds(b, slots, q.keyHash, q.key, b[i].slotIndex);
      LookupIsFind(s, slots, b, q.keyHash, q.key, hashOf, limits, Some(b[i].slotIndex));
    }
  }

  lemma EntryFacts(s: Slab, hashOf: Bytes -> nat, b: seq<Bucket>, slots: seq<Slot>, limits: Limits, i: nat)
    requires Indexed(b, slots, s.order) && Filled(slots, s.order, s.free, hashOf, limits) && i < |b| && b[i].Used()
    ensures 0 <= b[i].slotIndex < |slots| && b[i] in Live(b)
    ensures |slots[b[i].slotIndex].key| <= limits.maxKey && |slots[b[i].slotIndex].value| <= limits.maxValue
  {
    assert b[i] in EntriesOf(slots, s.order);
  }

  /** The lookup on a quiet, well-formed memory answers as the cache does. */
  lemma LookupIsPeek(c: Config, mem: Words, s: Slab, hashOf: Bytes -> nat, q: Query)
    requires Snapshot(c, mem, s, hashOf) && q.keyHash == hashOf(q.key)
    ensures c.htCapacity > 0 && Outcome(c, mem, Start(c, q)) == Slabs.Peek(s, q.key, q.now)
  {
    var b, slots, limits :| SnapshotOf(c, mem, s, hashOf, b, slots, limits);
    LookupFrom(c, mem, s, hashOf, b, slots, limits, q, 0, Ideal(q.keyHash, c.htCapacity));
  }

  /** In every interleaving of any number of readers and writers: if each writer leaves a well-formed cache behind,
      the k-th committed one having the value states[k], then a reader that returns has the answer of the cache at
      the sequence number it took. */
  lemma ValidatedLookup(c: Config, mem: Words, sched: SL.Schedule<Addr, Local>, t: nat, q: Query,
                        states: seq<Slab>, hashOf: Bytes -> nat)
    requires c.htCapacity > 0 && q.keyHash == hashOf(q.key)
    requires var s := SL.Run(Lookup(c), mem, sched);
             |states| == |s.committed| && forall k :: 0 <= k < |states| ==> Snapshot(c, s.committed[k], states[k], hashOf)
    requires var pc := SL.PcOf(SL.Run(Lookup(c), mem, sched), t); pc.ReadDone? && pc.start == Start(c, q)
    ensures var pc := SL.PcOf(SL.Run(Lookup(c), mem, sched), t);
            pc.number / 2 < |states| && pc.local.at == Finished(Slabs.Peek(states[pc.number / 2], q.key, q.now))
  {
    SL.ValidatedReadIsAtomic(Lookup(c), mem, sched, t);
    var s, pc := SL.Run(Lookup(c), mem, sched), SL.PcOf(SL.Run(Lookup(c), mem, sched), t);
    var m := s.committed[pc.number / 2];
    AtomicOutcome(c, m, q, pc.loads);
    LookupIsPeek(c, m, states[pc.number / 2], hashOf, q);
  }

  // ---------------------------------------------------------------- histories

  /** Steps taken without the write lock: they touch no word that a lookup reads. */
  predicate LockFree(op: CT.Op) {
    op.DoMark? || op.DoCount? || op.DoSkip?
  }

  lemma RepresentsSame(mem: Words, b: seq<Bucket>, slots: seq<Slot>, slots': seq<Slot>)
    requires Represents(mem, b, slots) && SameData(slots, slots')
    ensures Represents(mem, b, slots')
  {
    hide SlotStored;
    forall s: nat | s < |slots'| ensures SlotStored(mem, s, slots'[s]) {
      StoredSame(mem, s, slots[s], slots'[s]);
    }
  }

  lemma StoredSame(mem: Words, s: nat, a: Slot, b: Slot)
    requires SlotStored(mem, s, a) && b == a.(visited := b.visited, prev := b.prev, next := b.next)
    ensures SlotStored(mem, s, b)
  {
  }

  /** Links and visited bits are no words that a lookup reads. */
  lemma SnapshotSame(c: Config, mem: Words, s: Slab, t: Slab, hashOf: Bytes -> nat, b: seq<Bucket>, slots: seq<Slot>,
                     slots': seq<Slot>, limits: Limits)
    requires SnapshotOf(c, mem, s, hashOf, b, slots, limits) && SameData(slots, slots') && WF(t)
    requires t.order == s.order && t.free == s.free && t.ttl == s.ttl && t.cells == CellsOf(slots')
    ensures Snapshot(c, mem, t, hashOf)
  {
    hide Table, ProbeInv, DistinctSlots, Live, EntriesOf, Filled, WF, CellsOf, Represents;
    SameDataKeeps(slots, slots', s.order, s.free, hashOf, limits);
    RepresentsSame(mem, b, slots, slots');
    assert SnapshotOf(c, mem, t, hashOf, b, slots', limits);
  }

  lemma LockFreeKeeps(c: Config, mem: Words, s: Slab, hashOf: Bytes -> nat, op: CT.Op)
    requires Snapshot(c, mem, s, hashOf) && WF(s) && LockFree(op)
    ensures Snapshot(c, mem, CT.StepOp(s, op), hashOf)
  {
    hide WF, Indexed, Filled, Represents;
    var b: seq<Bucket>, slots: seq<Slot>, limits: Limits :| SnapshotOf(c, mem, s, hashOf, b, slots, limits);
    CT.StepKeeps(s, op);
    var slots' := if op.DoMark? && op.slot < |slots| then slots[op.slot := slots[op.slot].(visited := true)] else slots;
    assert CT.StepOp(s, op).cells == CellsOf(slots');
    SnapshotSame(c, mem, s, CT.StepOp(s, op), hashOf, b, slots, slots', limits);
  }

  /** What a write section is asked to do, and what the methods of ShmCache are proved to do: begun on a well-formed
      memory with the value s, it commits a well-formed memory with the value that the operation gives s. */
  ghost predicate Performs(c: Config, before: Words, after: Words, s: Slab, op: CT.Op, hashOf: Bytes -> nat)
    requires WF(s)
  {
    Snapshot(c, before, s, hashOf) ==> Snapshot(c, after, CT.StepOp(s, op), hashOf)
  }

  lemma {:induction false} LockFreeStretch(c: Config, mem: Words, ops: seq<CT.Op>, i: nat, j: nat, hashOf: Bytes -> nat)
    requires c.capacity > 0 && i <= j <= |ops| && (forall x :: i <= x < j ==> LockFree(ops[x]))
    requires Snapshot(c, mem, CT.Run(c.capacity, c.ttl, ops[..i]), hashOf)
    ensures Snapshot(c, mem, CT.Run(c.capacity, c.ttl, ops[..j]), hashOf)
    decreases j - i
  {
    hide Snapshot, WF, CT.StepOp;
    if i < j {
      LockFreeStretch(c, mem, ops, i, j - 1, hashOf);
      assert ops[..j][..j - 1] == ops[..j - 1];
      LockFreeKeeps(c, mem, CT.Run(c.capacity, c.ttl, ops[..j - 1]), hashOf, ops[j - 1]);
    }
  }

  function ConfigOf(cache: ShmCache): Config {
    Config(cache.htCapacity, cache.capacity, cache.limits.maxKey + cache.limits.maxValue, cache.ttl)
  }

  /** The write sections of the code, run on the arrays, perform their operations: whatever words represent the arrays
      when the section ends are a commit as `Performs` describes it. */
  method WriteSection(cache: ShmCache, op: CT.Op, hash: nat)
    requires cache.Valid() && cache.limits.maxKey + cache.limits.maxValue < U32
    requires op.DoInsert? || op.DoReap? || op.DoClear?
    requires op.DoInsert? ==> |op.key| <= cache.limits.maxKey && |op.value| <= cache.limits.maxValue
    requires op.DoInsert? || op.DoReap? ==> hash == cache.hashOf(op.key)
    modifies cache, cache.header, cache.buckets, cache.slots
    ensures cache.Valid() && WF(old(cache.Model())) && cache.Model() == CT.StepOp(old(cache.Model()), op)
    ensures forall before: Words, after: Words :: Represents(after, cache.buckets[..], cache.slots[..]) ==>
              Performs(ConfigOf(cache), before, after, old(cache.Model()), op, cache.hashOf)
  {
    hide WF, ShmCache.Core, Slabs.Insert, Slabs.Reap, Slabs.Clear, Snapshot, Represents;
    match op {
      case DoInsert(key, value, now, marks) =>
        cache.Insert(hash, key, value, now, marks);
      case DoReap(slot, key) =>
        if slot < cache.slots.Length {
          cache.Reap(slot, hash, key);
        }
      case DoClear =>
        cache.Clear();
      case _ =>
    }
    forall after: Words | Represents(after, cache.buckets[..], cache.slots[..])
      ensures Snapshot(ConfigOf(cache), after, cache.Model(), cache.hashOf)
    {
      CacheIsSnapshot(cache, after);
    }
  }

  /** Between two commits of the history there are lock-free steps and then the k-th write section. */
  ghost predicate SectionOk(c: Config, committed: seq<Words>, ops: seq<CT.Op>, cuts: seq<nat>, hashOf: Bytes -> nat, k: nat)
    requires c.capacity > 0 && 0 < k < |cuts| == |committed|
  {
    && cuts[k - 1] < cuts[k] <= |ops|
    && (forall j :: cuts[k - 1] <= j < cuts[k] - 1 ==> LockFree(ops[j]))
    && Performs(c, committed[k - 1], committed[k], CT.Run(c.capacity, c.ttl, ops[..cuts[k] - 1]), ops[cuts[k] - 1], hashOf)
  }

  /** The history of a schedule: memory begins with an empty cache, and each section performs its operation. The k-th
      commit comes at position cuts[k]. */
  ghost predicate History(c: Config, mem: Words, committed: seq<Words>, ops: seq<CT.Op>, cuts: seq<nat>, hashOf: Bytes -> nat)
    requires c.capacity > 0
  {
    && |cuts| == |committed| > 0 && cuts[0] <= |ops|
    && (forall j :: 0 <= j < cuts[0] ==> LockFree(ops[j]))
    && Snapshot(c, mem, Create(c.capacity, c.ttl), hashOf)
    && forall k: nat :: 0 < k < |cuts| ==> SectionOk(c, committed, ops, cuts, hashOf, k)
  }

  lemma SectionStep(c: Config, committed: seq<Words>, ops: seq<CT.Op>, cuts: seq<nat>, hashOf: Bytes -> nat, k: nat)
    requires c.capacity > 0 && 0 < k < |cuts| == |committed| && SectionOk(c, committed, ops, cuts, hashOf, k)
    requires cuts[k - 1] <= |ops| && Snapshot(c, committed[k - 1], CT.Run(c.capacity, c.ttl, ops[..cuts[k - 1]]), hashOf)
    ensures cuts[k] <= |ops| && Snapshot(c, committed[k], CT.Run(c.capacity, c.ttl, ops[..cuts[k]]), hashOf)
  {
    hide Snapshot, WF, CT.StepOp, LockFree;
    var n := cuts[k] - 1;
    LockFreeStretch(c, committed[k - 1], ops, cuts[k - 1], n, hashOf);
    assert ops[..n + 1][..n] == ops[..n];
  }

  /** Section by section, every committed memory holds the cache of its prefix of the history. */
  lemma {:induction false} CommittedSnapshots(c: Config, mem: Words, committed: seq<Words>, ops: seq<CT.Op>, cuts: seq<nat>,
                                              hashOf: Bytes -> nat, k: nat)
    requires c.capacity > 0 && History(c, mem, committed, ops, cuts, hashOf) && k < |committed| && committed[0] == mem
    ensures cuts[k] <= |ops| && Snapshot(c, committed[k], CT.Run(c.capacity, c.ttl, ops[..cuts[k]]), hashOf)
  {
    hide Snapshot, SectionOk, WF, LockFree, CT.StepOp;
    if k == 0 {
      assert ops[..0] == [];
      LockFreeStretch(c, mem, ops, 0, cuts[0], hashOf);
    } else {
      CommittedSnapshots(c, mem, committed, ops, cuts, hashOf, k - 1);
      SectionStep(c, committed, ops, cuts, hashOf, k);
    }
  }

  lemma FirstCommitted(c: Config, mem: Words, sched: SL.Schedule<Addr, Local>)
    requires c.htCapacity > 0
    ensures SL.Run(Lookup(c), mem, sched).committed != [] && SL.Run(Lookup(c), mem, sched).committed[0] == mem
  {
    SL.RunMonotone(Lookup(c), mem, sched, 0, |sched|);
    assert sched[..|sched|] == sched;
    assert SL.Run(Lookup(c), mem, sched[..0]).committed == [mem];
  }

  /** In every interleaving, a validated lookup answers as the cache does after the history up to the sequence number the
      reader took. */
  lemma LookupInHistory(c: Config, mem: Words, sched: SL.Schedule<Addr, Local>, t: nat, q: Query,
                        ops: seq<CT.Op>, cuts: seq<nat>, hashOf: Bytes -> nat)
    requires c.htCapacity > 0 && c.capacity > 0 && q.keyHash == hashOf(q.key)
    requires History(c, mem, SL.Run(Lookup(c), mem, sched).committed, ops, cuts, hashOf)
    requires var pc := SL.PcOf(SL.Run(Lookup(c), mem, sched), t); pc.ReadDone? && pc.start == Start(c, q)
    ensures var pc := SL.PcOf(SL.Run(Lookup(c), mem, sched), t);
            var k := pc.number / 2;
            && k < |cuts| && cuts[k] <= |ops|
            && pc.local.at == Finished(Slabs.Peek(CT.Run(c.capacity, c.ttl, ops[..cuts[k]]), q.key, q.now))
  {
    hide Snapshot, SectionOk, SL.Run;
    FirstCommitted(c, mem, sched);
    var s := SL.Run(Lookup(c), mem, sched);
    forall k | 0 <= k < |cuts| ensures cuts[k] <= |ops| {
      CommittedSnapshots(c, mem, s.committed, ops, cuts, hashOf, k);
    }
    var states := seq(|cuts|, k requires 0 <= k < |cuts| => CT.Run(c.capacity, c.ttl, ops[..cuts[k]]));
    forall k | 0 <= k < |states| ensures Snapshot(c, s.committed[k], states[k], hashOf) {
      CommittedSnapshots(c, mem, s.committed, ops, cuts, hashOf, k);
    }
    ValidatedLookup(c, mem, sched, t, q, states, hashOf);
  }

  /** End to end, in every interleaving of any number of readers and writers, with readers' marks anywhere in it: if
      each write section performs some operation when it is begun on a well-formed cache, then a validated hit is the
      value last inserted for its key since the last clear, in the history up to the sequence number the reader took,
      and no older than the time-to-live. */
  lemma ValidatedHitIsFresh(c: Config, mem: Words, sched: SL.Schedule<Addr, Local>, t: nat, q: Query, value: Bytes, slot: nat,
                            ops: seq<CT.Op>, cuts: seq<nat>, hashOf: Bytes -> nat)
    requires c.htCapacity > 0 && c.capacity > 0 && q.keyHash == hashOf(q.key)
    requires History(c, mem, SL.Run(Lookup(c), mem, sched).committed, ops, cuts, hashOf)
    requires var pc := SL.PcOf(SL.Run(Lookup(c), mem, sched), t);
             pc.ReadDone? && pc.start == Start(c, q) && pc.local.at == Finished(Hit(value, slot))
    ensures var k := SL.PcOf(SL.Run(Lookup(c), mem, sched), t).number / 2;
            && k < |cuts|
            && cuts[k] <= |ops|
            && var e := CT.LastInsert(ops[..cuts[k]], q.key);
               e.Some? && e.value.value == value && (c.ttl > 0 ==> q.now <= e.value.created + c.ttl)
  {
    hide History, SL.Run, CT.Run;
    LookupInHistory(c, mem, sched, t, q, ops, cuts, hashOf);
    var k := SL.PcOf(SL.Run(Lookup(c), mem, sched), t).number / 2;
    CT.HitIsFresh(c.capacity, c.ttl, ops[..cuts[k]], q.key, q.now, value);
  }
}

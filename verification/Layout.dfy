/** Shared-memory layout (src/shm/layout.rs) and the table sizing of src/shm/region.rs. */
module Layout {

  const SLOT_NONE := -1
  const BUCKET_EMPTY := -1
  const HEADER_SIZE := 256
  const BUCKET_SIZE := 16
  const SLOT_HEADER_SIZE := 64
  const U32 := 0x1_0000_0000
  const U64 := 0x1_0000_0000_0000_0000
  const MAX_SHARED_MAX_SIZE := 0x4000_0000

  type byte = b: int | 0 <= b < 256
  type Bytes = seq<byte>

  datatype Option<+T> = None | Some(value: T)

  /** One bucket of the open-addressing table. */
  datatype Bucket = Bucket(hash: nat, slotIndex: int) {
    predicate Used() { slotIndex != BUCKET_EMPTY }
  }

  const EMPTY := Bucket(0, BUCKET_EMPTY)

  /** One slab slot: header fields plus the key and value bytes stored behind them. */
  datatype Slot = Slot(occupied: bool, keyHash: nat, key: Bytes, value: Bytes,
                       created: nat, visited: bool, prev: int, next: int)

  /** The mutable part of the region header. */
  class Header {
    var hits: nat
    var misses: nat
    var oversizeSkips: nat
    var currentSize: nat
    var listHead: int
    var listTail: int
    var freeHead: int
    var sieveHand: int

    constructor ()
      ensures hits == 0 && misses == 0 && oversizeSkips == 0 && currentSize == 0
      ensures listHead == listTail == sieveHand == SLOT_NONE && freeHead == 0
    {
      hits, misses, oversizeSkips, currentSize := 0, 0, 0, 0;
      listHead, listTail, sieveHand := SLOT_NONE, SLOT_NONE, SLOT_NONE;
      freeHead := 0;
    }
  }

  /** A saturating difference of clock readings. */
  function Elapsed(now: nat, created: nat): nat {
    if now < created then 0 else now - created
  }

  // ---------------------------------------------------------------- powers of two and masks

  function Pow2(k: nat): (p: nat)
    ensures p > 0
  {
    if k == 0 then 1 else 2 * Pow2(k - 1)
  }

  ghost predicate IsPow2(m: nat) {
    exists k: nat :: m == Pow2(k)
  }

  /** Bitwise "and" of two naturals. */
  function BitAnd(x: nat, y: nat): (r: nat)
    ensures r <= y
  {
    if x == 0 || y == 0 then 0
    else 2 * BitAnd(x / 2, y / 2) + (if x % 2 == 1 && y % 2 == 1 then 1 else 0)
  }

  lemma MulAtLeast(d: int, m: int)
    requires m > 0 && d != 0
    ensures d * m >= m || d * m <= -m
  {
    if d >= 1 {
      assert (d - 1) * m >= 0;
    } else {
      assert (-1 - d) * m >= 0;
    }
  }

  lemma ModUnique(x: int, m: int, q: int, r: int)
    requires m > 0 && x == q * m + r && 0 <= r < m
    ensures x % m == r
  {
    var d := q - x / m;
    assert d * m == x % m - r;
    if d != 0 { MulAtLeast(d, m); }
  }

  lemma ModOfDouble(x: nat, p: nat)
    requires p > 0
    ensures x % (2 * p) == 2 * ((x / 2) % p) + x % 2
  {
    var h := x / 2;
    var q, b := h / p, h % p;
    assert h == q * p + b;
    assert x == q * (2 * p) + (2 * b + x % 2);
    ModUnique(x, 2 * p, q, 2 * b + x % 2);
  }

  /** Masking with 2^k - 1 is reduction modulo 2^k. */
  lemma {:induction false} MaskIsMod(x: nat, k: nat)
    ensures BitAnd(x, Pow2(k) - 1) == x % Pow2(k)
  {
    if k > 0 {
      var p := Pow2(k - 1);
      MaskIsMod(x / 2, k - 1);
      ModOfDouble(x, p);
      if x > 0 { BitAndOddMask(x, p); }
    }
  }

  lemma BitAndOddMask(x: nat, p: nat)
    requires x > 0 && p > 0
    ensures BitAnd(x, 2 * p - 1) == 2 * BitAnd(x / 2, p - 1) + x % 2
  {
    assert (2 * p - 1) / 2 == p - 1 && (2 * p - 1) % 2 == 1;
  }

  /** `(hash as u32) & mask`: the first bucket probed for a hash. */
  function Ideal(hash: nat, m: nat): (i: nat)
    requires m > 0
    ensures i < m
  {
    BitAnd(hash % U32, m - 1)
  }

  /** `(idx + 1) & mask`. */
  function NextIndex(i: nat, m: nat): (r: nat)
    requires m > 0
    ensures r < m
  {
    BitAnd(i + 1, m - 1)
  }

  /** The cyclic successor that `NextIndex` computes on a table of power-of-two size. */
  function Step(i: nat, m: nat): (r: nat)
    requires i < m
    ensures r < m
  {
    if i + 1 == m then 0 else i + 1
  }

  lemma NextIndexIsStep(i: nat, m: nat)
    requires i < m && IsPow2(m)
    ensures NextIndex(i, m) == Step(i, m)
  {
    var k: nat :| m == Pow2(k);
    MaskIsMod(i + 1, k);
    if i + 1 == m { ModUnique(i + 1, m, 1, 0); } else { ModUnique(i + 1, m, 0, i + 1); }
  }

  lemma {:induction false} Pow2Divides(a: nat, b: nat)
    requires a <= b
    ensures exists c: nat :: Pow2(b) == c * Pow2(a)
  {
    if a == b {
      assert Pow2(b) == 1 * Pow2(a);
    } else {
      Pow2Divides(a, b - 1);
      var c: nat :| Pow2(b - 1) == c * Pow2(a);
      assert Pow2(b) == (2 * c) * Pow2(a);
    }
  }

  lemma {:induction false} Pow2Monotone(a: nat, b: nat)
    requires a <= b
    ensures Pow2(a) <= Pow2(b)
    decreases b - a
  {
    if a < b { Pow2Monotone(a, b - 1); }
  }

  lemma Pow2At32()
    ensures Pow2(32) == U32 && Pow2(31) == 0x8000_0000
  {
    assert Pow2(4) == 16;
    assert Pow2(8) == 256;
    assert Pow2(12) == 0x1000;
    assert Pow2(16) == 0x1_0000;
    assert Pow2(20) == 0x10_0000;
    assert Pow2(24) == 0x100_0000;
    assert Pow2(28) == 0x1000_0000;
  }

  lemma ModOfMod(x: nat, c: nat, m: nat)
    requires c > 0 && m > 0
    ensures c * m > 0 && (x % (c * m)) % m == x % m
  {
    MulAtLeast(c, m);
    var n := c * m;
    var q, t := x / n, x % n;
    var q1, r := t / m, t % m;
    assert q * n == (q * c) * m;
    assert x == (q * c + q1) * m + r;
    ModUnique(x, m, q * c + q1, r);
  }

  /** Truncating the hash to 32 bits first does not change the bucket: the table size divides 2^32. */
  lemma IdealIsMod(hash: nat, k: nat)
    requires k <= 32
    ensures Ideal(hash, Pow2(k)) == hash % Pow2(k)
  {
    MaskIsMod(hash % U32, k);
    Pow2At32();
    Pow2Divides(k, 32);
    var c: nat :| U32 == c * Pow2(k);
    if c > 0 { ModOfMod(hash, c, Pow2(k)); }
  }

  // ---------------------------------------------------------------- sizing

  /** Doubles p until it reaches n. */
  function DoubleUntil(p: nat, n: nat): (r: nat)
    requires p > 0
    decreases n - p
  {
    if p >= n then p else DoubleUntil(2 * p, n)
  }

  function NextPowerOfTwo(n: nat): nat {
    DoubleUntil(1, n)
  }

  /** `capacity.checked_mul(2).and_then(u32::checked_next_power_of_two)`. */
  function HtCapacity(capacity: nat): Option<nat> {
    if 2 * capacity >= U32 then None
    else
      var p := NextPowerOfTwo(2 * capacity);
      if p >= U32 then None else Some(p)
  }

  lemma {:induction false} DoubleUntilIsLeast(k: nat, n: nat)
    requires k == 0 || Pow2(k - 1) < n
    ensures exists j: nat :: DoubleUntil(Pow2(k), n) == Pow2(j) && n <= Pow2(j) && (j == 0 || Pow2(j - 1) < n)
    decreases n - Pow2(k)
  {
    if Pow2(k) >= n {
      assert DoubleUntil(Pow2(k), n) == Pow2(k);
    } else {
      assert Pow2(k + 1) == 2 * Pow2(k);
      DoubleUntilIsLeast(k + 1, n);
    }
  }

  /** The table is a power of two, at least twice and less than four times the capacity, and the
      construction succeeds exactly up to the limit that the shared backend checks beforehand. */
  lemma HtCapacitySpec(capacity: nat)
    requires capacity >= 1
    ensures HtCapacity(capacity).Some? <==> capacity <= MAX_SHARED_MAX_SIZE
    ensures HtCapacity(capacity).Some? ==>
              var m := HtCapacity(capacity).value;
              IsPow2(m) && 2 * capacity <= m < 4 * capacity && m < U32
  {
    var n := 2 * capacity;
    assert Pow2(0) == 1;
    DoubleUntilIsLeast(0, n);
    var j: nat :| NextPowerOfTwo(n) == Pow2(j) && n <= Pow2(j) && (j == 0 || Pow2(j - 1) < n);
    assert j > 0 && Pow2(j) == 2 * Pow2(j - 1);
    Pow2At32();
    if n <= 0x8000_0000 {
      if j >= 32 { Pow2Monotone(31, j - 1); }
      Pow2Monotone(j, 31);
    } else {
      if j <= 31 { Pow2Monotone(j, 31); }
      Pow2Monotone(32, j);
    }
  }

  function HtOffset(): nat { HEADER_SIZE }

  function SlabOffset(htCapacity: nat): nat {
    HEADER_SIZE + htCapacity * BUCKET_SIZE
  }

  function RegionSize(capacity: nat, htCapacity: nat, slotSize: nat): nat {
    HEADER_SIZE + htCapacity * BUCKET_SIZE + capacity * slotSize
  }

  /** Every byte of slot s lies behind the bucket array and inside the region. */
  lemma SlotInRegion(s: nat, capacity: nat, htCapacity: nat, slotSize: nat)
    requires s < capacity
    ensures SlabOffset(htCapacity) <= SlabOffset(htCapacity) + s * slotSize
    ensures SlabOffset(htCapacity) + s * slotSize + slotSize <= RegionSize(capacity, htCapacity, slotSize)
  {
    assert (s + 1) * slotSize <= capacity * slotSize;
    assert (s + 1) * slotSize == s * slotSize + slotSize;
  }
}

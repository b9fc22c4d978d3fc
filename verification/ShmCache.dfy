/** The shared-memory cache (src/shm/mod.rs, src/shm/region.rs): every operation does to the arrays what the
    operation of the same name does to the value `Model()`. */
module ShmCaches {
  import opened Layout
  import opened Collections
  import opened HashTable
  import opened Sieve
  import opened Ordering
  import opened Slabs

  // ---------------------------------------------------------------- relations between slots, list and buckets

  ghost function CellsOf(slots: seq<Slot>): (r: seq<Cell>)
    ensures |r| == |slots|
    ensures forall j :: 0 <= j < |slots| ==> r[j] == Cell(slots[j].key, slots[j].value, slots[j].created, slots[j].visited)
  {
    seq(|slots|, j requires 0 <= j < |slots| => Cell(slots[j].key, slots[j].value, slots[j].created, slots[j].visited))
  }

  /** The bucket entries that the listed slots call for. */
  ghost function EntriesOf(slots: seq<Slot>, order: seq<int>): set<Bucket> {
    set x | x in order && 0 <= x < |slots| :: Bucket(slots[x].keyHash, x)
  }

  /** The buckets index exactly the listed slots, under their hashes, by unbroken probe paths. */
  ghost predicate Indexed(b: seq<Bucket>, slots: seq<Slot>, order: seq<int>) {
    && Table(b, |slots|) && ProbeInv(b) && DistinctSlots(b)
    && Live(b) == EntriesOf(slots, order)
  }

  datatype Limits = Limits(maxKey: nat, maxValue: nat)

  /** Listed slots are occupied, carry the hash of their key and respect the size limits; free ones are not occupied. */
  ghost predicate Filled(slots: seq<Slot>, order: seq<int>, free: seq<int>, hashOf: Bytes -> nat, limits: Limits) {
    && (forall x :: x in order && 0 <= x < |slots| ==>
          slots[x].occupied && slots[x].keyHash == hashOf(slots[x].key)
          && |slots[x].key| <= limits.maxKey && |slots[x].value| <= limits.maxValue)
    && (forall x :: x in free && 0 <= x < |slots| ==> !slots[x].occupied)
  }

  /** Slots that agree on everything but links and visited bits. */
  ghost predicate SameData(a: seq<Slot>, b: seq<Slot>) {
    && |a| == |b|
    && forall s :: 0 <= s < |a| ==> b[s] == a[s].(visited := b[s].visited, prev := b[s].prev, next := b[s].next)
  }

  lemma SameDataKeeps(a: seq<Slot>, b: seq<Slot>, order: seq<int>, free: seq<int>, hashOf: Bytes -> nat, limits: Limits)
    requires SameData(a, b)
    ensures EntriesOf(a, order) == EntriesOf(b, order)
    ensures Filled(a, order, free, hashOf, limits) ==> Filled(b, order, free, hashOf, limits)
  {
    assert forall x :: 0 <= x < |a| ==> Bucket(a[x].keyHash, x) == Bucket(b[x].keyHash, x);
    forall e | e in EntriesOf(a, order) ensures e in EntriesOf(b, order) {
      var x :| x in order && 0 <= x < |a| && e == Bucket(a[x].keyHash, x);
      assert e == Bucket(b[x].keyHash, x);
    }
    forall e | e in EntriesOf(b, order) ensures e in EntriesOf(a, order) {
      var x :| x in order && 0 <= x < |b| && e == Bucket(b[x].keyHash, x);
      assert e == Bucket(a[x].keyHash, x);
    }
  }

  lemma FreeChainKept(a: seq<Slot>, b: seq<Slot>, free: seq<int>, head: int)
    requires FreeChain(a, free, head) && |a| == |b|
    requires forall x :: x in free && 0 <= x < |a| ==> b[x].next == a[x].next
    ensures FreeChain(b, free, head)
  {
    forall i | 0 <= i < |free| ensures b[free[i]].next == After(free, i) {
      assert free[i] in free;
    }
  }

  lemma LinkedKept(a: seq<Slot>, b: seq<Slot>, order: seq<int>, head: int, tail: int)
    requires Linked(a, order, head, tail) && |a| == |b|
    requires forall x :: x in order && 0 <= x < |a| ==> b[x].next == a[x].next && b[x].prev == a[x].prev
    ensures Linked(b, order, head, tail)
  {
    forall i | 0 <= i < |order|
      ensures b[order[i]].prev == Before(order, i) && b[order[i]].next == After(order, i)
    {
      assert order[i] in order;
    }
  }

  /** The table lookup finds what a search of the listed slots finds. */
  lemma LookupIsFind(s: Slab, slots: seq<Slot>, b: seq<Bucket>, keyHash: nat, key: Bytes,
                     hashOf: Bytes -> nat, limits: Limits, r: Option<int>)
    requires WF(s) && s.cells == CellsOf(slots) && Indexed(b, slots, s.order)
    requires Filled(slots, s.order, s.free, hashOf, limits) && keyHash == hashOf(key)
    requires r.None? ==> forall e :: e in Live(b) ==> !Matches(e, slots, keyHash, key)
    requires r.Some? ==> Finds(b, slots, keyHash, key, r.value)
    ensures r == if Find(s, key) == SLOT_NONE then None else Some(Find(s, key))
  {
    match r
    case Some(x) =>
      var e :| e in Live(b) && Matches(e, slots, keyHash, key) && e.slotIndex == x;
      assert e in EntriesOf(slots, s.order);
      FindUnique(s, x);
    case None =>
      var x := Find(s, key);
      if x != SLOT_NONE {
        var e := Bucket(slots[x].keyHash, x);
        assert e in EntriesOf(slots, s.order);
        assert Matches(e, slots, keyHash, key);
      }
  }

  /** All views of the stored entries agree, where the table indexes the slots `ix`; nothing is said about slots
      on neither list. */
  ghost predicate CoreOf(slots: seq<Slot>, b: seq<Bucket>, ix: seq<int>, order: seq<int>, free: seq<int>,
                         head: int, tail: int, freeHead: int, hashOf: Bytes -> nat, limits: Limits)
  {
    && 2 * |slots| <= |b| && |slots| > 0
    && Linked(slots, order, head, tail) && FreeChain(slots, free, freeHead)
    && Indexed(b, slots, ix) && Filled(slots, order, free, hashOf, limits)
  }

  /** What the table and list operations ask for. */
  lemma CoreFacts(slots: seq<Slot>, b: seq<Bucket>, ix: seq<int>, order: seq<int>, free: seq<int>,
                  head: int, tail: int, freeHead: int, hashOf: Bytes -> nat, limits: Limits)
    requires CoreOf(slots, b, ix, order, free, head, tail, freeHead, hashOf, limits)
    requires forall x :: x in ix ==> x in order
    ensures Linked(slots, order, head, tail) && FreeChain(slots, free, freeHead)
    ensures Table(b, |slots|) && ProbeInv(b) && DistinctSlots(b) && HasEmpty(b) && AllOccupied(b, slots)
    ensures Listed(order, |slots|) && Distinct(order)
  {
    FewEntriesLeaveRoom(b, |slots|);
    forall p | 0 <= p < |b| && b[p].Used()
      ensures 0 <= b[p].slotIndex < |slots| && slots[b[p].slotIndex].occupied
    {
      assert b[p] in Live(b);
    }
  }

  lemma CoreLists(slots: seq<Slot>, b: seq<Bucket>, ix: seq<int>, order: seq<int>, free: seq<int>,
                  head: int, tail: int, freeHead: int, hashOf: Bytes -> nat, limits: Limits)
    requires CoreOf(slots, b, ix, order, free, head, tail, freeHead, hashOf, limits)
    ensures Linked(slots, order, head, tail) && FreeChain(slots, free, freeHead)
    ensures freeHead == SLOT_NONE <==> free == []
  {
  }

  lemma RemoveAtSize<T>(s: seq<T>, i: nat)
    requires i < |s|
    ensures |RemoveAt(s, i)| == |s| - 1
  {
  }

  /** A change of visited bits disturbs no view. */
  lemma VisitedKeeps(a: seq<Slot>, s: seq<Slot>, b: seq<Bucket>, order: seq<int>, free: seq<int>,
                     head: int, tail: int, freeHead: int, hashOf: Bytes -> nat, limits: Limits)
    requires OnlyVisited(a, s)
    requires CoreOf(a, b, order, order, free, head, tail, freeHead, hashOf, limits)
    ensures CoreOf(s, b, order, order, free, head, tail, freeHead, hashOf, limits)
    ensures CellsOf(s) == WithVis(CellsOf(a), VisOf(s))
  {
    assert forall x :: 0 <= x < |a| ==> s[x].next == a[x].next && s[x].prev == a[x].prev;
    LinkedKept(a, s, order, head, tail);
    FreeChainKept(a, s, free, freeHead);
    SameDataKeeps(a, s, order, free, hashOf, limits);
  }

  lemma FoundIsFind(s: Slab, slots: seq<Slot>, b: seq<Bucket>, head: int, tail: int, freeHead: int, keyHash: nat, key: Bytes,
                    hashOf: Bytes -> nat, limits: Limits, r: Option<int>)
    requires WF(s) && s.cells == CellsOf(slots) && keyHash == hashOf(key)
    requires CoreOf(slots, b, s.order, s.order, s.free, head, tail, freeHead, hashOf, limits)
    requires r.None? ==> forall e :: e in Live(b) ==> !Matches(e, slots, keyHash, key)
    requires r.Some? ==> exists e :: e in Live(b) && Matches(e, slots, keyHash, key) && e.slotIndex == r.value
    ensures r == if Find(s, key) == SLOT_NONE then None else Some(Find(s, key))
  {
    LookupIsFind(s, slots, b, keyHash, key, hashOf, limits, r);
  }

  // ---------------------------------------------------------------- the cache

  class ShmCache {
    const capacity: nat
    const htCapacity: nat
    const ttl: nat
    const limits: Limits
    /** The hash of the key bytes, fixed for all processes. */
    ghost const hashOf: Bytes -> nat
    const header: Header
    const buckets: array<Bucket>
    const slots: array<Slot>
    ghost var order: seq<int>
    ghost var free: seq<int>

    ghost function Model(): Slab
      reads this, header, slots
    {
      Slab(ttl, order, free, CellsOf(slots[..]), header.sieveHand, header.hits, header.misses, header.oversizeSkips)
    }

    ghost predicate CoreIx(ix: seq<int>)
      reads this, header, buckets, slots
    {
      && slots.Length == capacity > 0 && buckets.Length == htCapacity
      && HtCapacity(capacity) == Some(htCapacity)
      && CoreOf(slots[..], buckets[..], ix, order, free, header.listHead, header.listTail, header.freeHead, hashOf, limits)
    }

    ghost predicate Core()
      reads this, header, buckets, slots
    {
      CoreIx(order) && header.currentSize == |order|
    }

    ghost predicate Valid()
      reads this, header, buckets, slots
    {
      Core() && WF(Model())
    }

    /** A fresh region, zeroed and then filled: empty buckets, all slots chained as free. */
    constructor (capacity: nat, ttl: nat, limits: Limits, ghost hashOf: Bytes -> nat)
      requires 1 <= capacity && HtCapacity(capacity).Some?
      ensures Valid() && Model() == Create(capacity, ttl)
      ensures this.capacity == capacity && this.ttl == ttl && this.limits == limits && this.hashOf == hashOf
      ensures fresh(header) && fresh(buckets) && fresh(slots)
    {
      HtCapacitySpec(capacity);
      var m := HtCapacity(capacity).value;
      this.capacity, this.htCapacity, this.ttl, this.limits := capacity, m, ttl, limits;
      this.hashOf := hashOf;
      header := new Header();
      buckets := new Bucket[m](_ => Bucket(0, 0));
      slots := new Slot[capacity](_ => ZERO_SLOT);
      order := [];
      free := UpTo(capacity);
      new;
      hide CoreOf, CellsOf, IsPow2;
      CreateWF(capacity, ttl);
      ghost var zeroed := slots[..];
      HtClear(buckets);
      ClearSlots();
      ClearedCore(zeroed, slots[..], buckets[..], hashOf, limits);
      ZeroCells(zeroed, ttl);
    }

    // -------------------------------------------------------------- reading

    /** One uninterrupted pass of the optimistic read. */
    method Peek(keyHash: nat, key: Bytes, now: nat) returns (r: Outcome)
      requires Valid() && keyHash == hashOf(key)
      ensures r == Slabs.Peek(Model(), key, now)
    {
      var x := HtLookup(buckets, slots, keyHash, key);
      LookupIsFind(Model(), slots[..], buckets[..], keyHash, key, hashOf, limits, x);
      match x
      case None => r := Miss;
      case Some(i) =>
        var slot := slots[i];
        if ttl > 0 && Elapsed(now, slot.created) > ttl {
          r := Expired(i);
        } else {
          r := Hit(slot.value, i);
        }
    }

    /** A reader's lock-free store. */
    method MarkVisited(slot: nat)
      requires Valid() && slot < slots.Length
      modifies slots
      ensures Valid() && Model() == Mark(old(Model()), slot)
    {
      slots[slot] := slots[slot].(visited := true);
      VisitedKeeps(old(slots[..]), slots[..], buckets[..], order, free, header.listHead, header.listTail,
                   header.freeHead, hashOf, limits);
      MarkWF(old(Model()), slot);
      assert CellsOf(slots[..]) == Mark(old(Model()), slot).cells;
    }

    // -------------------------------------------------------------- removal

    /** Takes the entry of the i-th listed slot out of the table. */
    method RemoveEntry(slotIdx: int, ghost i: nat)
      requires Core() && KeysDistinct(order, CellsOf(slots[..]))
      requires i < |order| && order[i] == slotIdx
      modifies buckets
      ensures CoreIx(RemoveAt(order, i))
    {
      ghost var b0 := buckets[..];
      CoreFacts(slots[..], b0, order, order, free, header.listHead, header.listTail, header.freeHead, hashOf, limits);
      hide Linked, FreeChain, Table, ProbeInv, DistinctSlots, HasEmpty, AllOccupied, KeysDistinct, EntriesOf, Live;
      var slot := slots[slotIdx];
      var found := HtRemove(buckets, slots, slot.keyHash, slot.key);
      RemovedEntry(b0, buckets[..], slots[..], order, i, found);
      EntriesWithout(slots[..], order, i);
    }

    /** Takes the i-th listed slot, which the table no longer indexes, out of the list. */
    method Delist(slotIdx: int, ghost i: nat)
      requires i < |order| && order[i] == slotIdx && CoreIx(RemoveAt(order, i)) && header.currentSize == |order|
      requires Distinct(order) && forall x :: x in order ==> x !in free
      modifies this`order, header`listHead, header`listTail, header`currentSize, slots
      ensures Core() && order == RemoveAt(old(order), i)
      ensures CellsOf(slots[..]) == old(CellsOf(slots[..]))
    {
      hide CoreOf, Linked, Distinct, RemoveAt, CellsOf, OnlyLinksOf;
      ghost var s0 := slots[..];
      CoreLists(s0, buckets[..], RemoveAt(order, i), order, free, header.listHead, header.listTail, header.freeHead, hashOf, limits);
      RemoveAtSize(order, i);
      ListRemove(header, slots, slotIdx, order, i);
      DelistKeeps(s0, slots[..], buckets[..], order, i, free, old(header.listHead), old(header.listTail),
                  header.listHead, header.listTail, header.freeHead, hashOf, limits);
      header.currentSize := header.currentSize - 1;
      order := RemoveAt(order, i);
    }

    /** Takes the i-th listed slot out of table and list; its slot ends on neither list. */
    method Unlink(slotIdx: int, ghost i: nat)
      requires Core() && Distinct(order) && KeysDistinct(order, CellsOf(slots[..]))
      requires i < |order| && order[i] == slotIdx
      requires forall x :: x in order ==> x !in free
      modifies this`order, header`listHead, header`listTail, header`currentSize, buckets, slots
      ensures Core() && order == RemoveAt(old(order), i)
      ensures CellsOf(slots[..]) == old(CellsOf(slots[..]))
    {
      hide CoreOf, CellsOf, KeysDistinct, Distinct, RemoveAt;
      ghost var s0 := slots[..];
      RemoveEntry(slotIdx, i);
      assert slots[..] == s0;
      Delist(slotIdx, i);
    }

    /** Puts a slot that is on neither list at the front of the free chain. */
    method FreeSlot(slotIdx: int)
      requires Core() && 0 <= slotIdx < slots.Length && slotIdx !in order && slotIdx !in free
      modifies this`free, header`freeHead, slots
      ensures Core() && free == [slotIdx] + old(free)
      ensures CellsOf(slots[..]) == old(CellsOf(slots[..]))
    {
      ghost var s0 := slots[..];
      slots[slotIdx] := slots[slotIdx].(occupied := false, next := header.freeHead, prev := SLOT_NONE);
      FreeKeeps(s0, slots[..], buckets[..], order, free, slotIdx, header.listHead, header.listTail,
                header.freeHead, hashOf, limits);
      header.freeHead := slotIdx;
      free := [slotIdx] + free;
    }

    method RemoveSlot(slotIdx: int)
      requires Valid() && slotIdx in order
      modifies this`order, this`free, header`listHead, header`listTail, header`freeHead, header`currentSize, buckets, slots
      ensures Valid() && Model() == Remove(old(Model()), slotIdx)
    {
      hide WF, CoreOf, CellsOf, KeysDistinct, Distinct, RemoveAt, IndexOf;
      ghost var i := IndexOf(order, slotIdx);
      RemoveFacts(Model(), slotIdx);
      Unlink(slotIdx, i);
      FreeSlot(slotIdx);
    }

    // -------------------------------------------------------------- get

    /** The write phase of an expired get, under the write lock: any state of the cache may have come meanwhile. */
    method Reap(slotIdx: nat, keyHash: nat, key: Bytes)
      requires Valid() && keyHash == hashOf(key) && slotIdx < slots.Length
      modifies this`order, this`free, header`listHead, header`listTail, header`freeHead, header`currentSize, buckets, slots
      ensures Valid() && Model() == Slabs.Reap(old(Model()), slotIdx, key)
    {
      var slot := slots[slotIdx];
      assert slotIdx in order || slotIdx in free;
      if slot.occupied && slot.keyHash == keyHash {
        if slot.key == key {
          RemoveSlot(slotIdx);
        }
      }
    }

    method CountHit()
      requires Valid()
      modifies header`hits
      ensures Valid() && Model() == Slabs.CountHit(old(Model()))
    {
      hide CoreOf, CellsOf, Partition, KeysDistinct;
      header.hits := header.hits + 1;
      assert slots[..] == old(slots[..]) && buckets[..] == old(buckets[..]);
    }

    method CountMiss()
      requires Valid()
      modifies header`misses
      ensures Valid() && Model() == Slabs.CountMiss(old(Model()))
    {
      hide CoreOf, CellsOf, Partition, KeysDistinct;
      header.misses := header.misses + 1;
      assert slots[..] == old(slots[..]) && buckets[..] == old(buckets[..]);
    }

    /** A get that nobody interrupts. */
    method Get(keyHash: nat, key: Bytes, now: nat) returns (r: GetResult)
      requires Valid() && keyHash == hashOf(key)
      modifies this`order, this`free, header, buckets, slots
      ensures Valid() && (r, Model()) == Slabs.Get(old(Model()), key, now)
    {
      hide CoreOf, WF, CellsOf, Slabs.Reap, Mark, FindIn;
      var o := Peek(keyHash, key, now);
      match o
      case Hit(value, slot) =>
        MarkVisited(slot);
        CountHit();
        r := Found(value);
      case Miss =>
        CountMiss();
        r := NotFound;
      case Expired(slot) =>
        Reap(slot, keyHash, key);
        CountMiss();
        r := NotFound;
    }

    // -------------------------------------------------------------- insert

    /** Updates the value of an existing entry in place. */
    method UpdateSlot(slotIdx: int, value: Bytes, now: nat)
      requires Valid() && slotIdx in order && |value| <= limits.maxValue
      modifies slots
      ensures Valid() && 0 <= slotIdx < |old(Model()).cells| && Model() == Update(old(Model()), slotIdx, value, now)
    {
      ghost var s0 := slots[..];
      UpdateWF(Model(), slotIdx, value, now);
      hide CoreOf, WF;
      slots[slotIdx] := slots[slotIdx].(value := value, created := now, visited := true);
      UpdateKeeps(s0, slots[..], buckets[..], order, free, slotIdx, header.listHead, header.listTail,
                  header.freeHead, hashOf, limits);
      assert CellsOf(slots[..]) == Update(old(Model()), slotIdx, value, now).cells;
    }

    /** Pops the free chain. */
    method PopFree() returns (slotIdx: int)
      requires Valid() && free != []
      modifies this`free, header`freeHead
      ensures Core() && slotIdx == old(free)[0] && free == old(free)[1..]
    {
      slotIdx := header.freeHead;
      header.freeHead := slots[slotIdx].next;
      ghost var f := free[1..];
      forall i | 0 <= i < |f| ensures slots[f[i]].next == After(f, i) {
        assert f[i] == free[i + 1];
      }
      free := f;
    }

    /** Evicts the SIEVE victim; its slot ends on neither list. */
    method EvictSlot(marks: Marks) returns (victim: int)
      requires Valid() && free == []
      modifies this`order, header`listHead, header`listTail, header`currentSize, header`sieveHand, buckets, slots
      ensures Core()
      ensures CanEvict(old(Model())) && Model() == Evict(old(Model()), marks) && victim == Victim(old(Model()), marks)
    {
      hide CoreOf, WF, Linked, Scan, Vis, VisOf, StartIndex, Distinct, Listed, RemoveAt, KeysDistinct, CellsOf, WithVis;
      ghost var m, s0 := Model(), slots[..];
      EvictFacts(m, marks);
      SameVis(s0);
      CoreFacts(s0, buckets[..], order, order, free, header.listHead, header.listTail, header.freeHead, hashOf, limits);
      ghost var r := EvictScan(m, marks);
      victim := SieveEvict(header, slots, marks, order);
      VisitedKeeps(s0, slots[..], buckets[..], order, free, header.listHead, header.listTail,
                   header.freeHead, hashOf, limits);
      SameKeys(order, m.cells, CellsOf(slots[..]), VisOf(slots[..]));
      Unlink(victim, r.index);
    }

    /** Writes a new entry into a slot that is on neither list. */
    method Fill(slotIdx: int, keyHash: nat, key: Bytes, value: Bytes, now: nat)
      requires Core() && Pushable(Model(), slotIdx, key) && keyHash == hashOf(key)
      requires |key| <= limits.maxKey && |value| <= limits.maxValue
      modifies this`order, header`listHead, header`listTail, header`currentSize, buckets, slots
      ensures Valid() && Model() == Push(old(Model()), slotIdx, key, value, now)
    {
      ghost var m := Model();
      PushWF(m, slotIdx, key, value, now);
      WriteSlot(slotIdx, keyHash, key, value, now);
      AddEntry(slotIdx, keyHash);
      Enlist(slotIdx);
      assert Model() == Push(m, slotIdx, key, value, now);
    }

    method WriteSlot(slotIdx: int, keyHash: nat, key: Bytes, value: Bytes, now: nat)
      requires Core() && 0 <= slotIdx < slots.Length && slotIdx !in order && slotIdx !in free
      modifies slots
      ensures Core() && slots[..] == old(slots[..])[slotIdx := Slot(true, keyHash, key, value, now, false, SLOT_NONE, SLOT_NONE)]
      ensures CellsOf(slots[..]) == CellsOf(old(slots[..]))[slotIdx := Cell(key, value, now, false)]
    {
      ghost var s0 := slots[..];
      slots[slotIdx] := Slot(true, keyHash, key, value, now, false, SLOT_NONE, SLOT_NONE);
      WriteKeeps(s0, slots[..], buckets[..], order, free, slotIdx, header.listHead, header.listTail,
                 header.freeHead, hashOf, limits);
    }

    method AddEntry(slotIdx: int, keyHash: nat)
      requires Core() && 0 <= slotIdx < slots.Length && slotIdx !in order && slots[slotIdx].keyHash == keyHash
      modifies buckets
      ensures CoreIx(order + [slotIdx])
    {
      CoreFacts(slots[..], buckets[..], order, order, free, header.listHead, header.listTail, header.freeHead, hashOf, limits);
      EntriesWith(slots[..], order, slotIdx);
      hide Linked, FreeChain, Table, ProbeInv, DistinctSlots, HasEmpty, AllOccupied, Filled;
      HtInsert(buckets, slots.Length, keyHash, slotIdx);
    }

    method Enlist(slotIdx: int)
      requires CoreIx(order + [slotIdx]) && header.currentSize == |order|
      requires 0 <= slotIdx < slots.Length && slotIdx !in order && slotIdx !in free
      requires var s := slots[slotIdx]; s.occupied && s.keyHash == hashOf(s.key) && |s.key| <= limits.maxKey && |s.value| <= limits.maxValue
      requires forall x :: x in order ==> x !in free
      modifies this`order, header`listHead, header`listTail, header`currentSize, slots
      ensures Core() && order == old(order) + [slotIdx]
      ensures CellsOf(slots[..]) == old(CellsOf(slots[..]))
    {
      ghost var s0 := slots[..];
      ListPushTail(header, slots, slotIdx, order);
      EnlistKeeps(s0, slots[..], buckets[..], order, slotIdx, free, old(header.listHead), old(header.listTail),
                  header.listHead, header.listTail, header.freeHead, hashOf, limits);
      header.currentSize := header.currentSize + 1;
      order := order + [slotIdx];
    }

    /** Inserts or updates an entry; `marks` are the visited bits that readers set during an eviction scan. */
    method Insert(keyHash: nat, key: Bytes, value: Bytes, now: nat, marks: Marks)
      requires Valid() && keyHash == hashOf(key) && |key| <= limits.maxKey && |value| <= limits.maxValue
      modifies this`order, this`free, header, buckets, slots
      ensures Valid() && Model() == Slabs.Insert(old(Model()), key, value, now, marks)
    {
      hide CoreOf, WF, CellsOf, FindIn, Pushable, Linked, FreeChain;
      ghost var m := Model();
      CoreFacts(slots[..], buckets[..], order, order, free, header.listHead, header.listTail, header.freeHead, hashOf, limits);
      CoreLists(slots[..], buckets[..], order, order, free, header.listHead, header.listTail, header.freeHead, hashOf, limits);
      var existing := HtLookup(buckets, slots, keyHash, key);
      FoundIsFind(m, slots[..], buckets[..], header.listHead, header.listTail, header.freeHead, keyHash, key, hashOf, limits, existing);
      if existing.Some? {
        FoundInRange(m, key);
        UpdateSlot(existing.value, value, now);
        return;
      }
      var slotIdx;
      if header.freeHead != SLOT_NONE {
        PopPushable(m, key);
        slotIdx := PopFree();
      } else if header.currentSize >= capacity {
        FullListHasHand(m);
        EvictPushable(m, marks, key);
        slotIdx := EvictSlot(marks);
      } else {
        FullListHasHand(m);
        assert false; // a cache without free slots is full
      }
      Fill(slotIdx, keyHash, key, value, now);
    }

    // -------------------------------------------------------------- clear

    method Clear()
      requires Valid()
      modifies this`order, this`free, header, buckets, slots
      ensures Valid() && Model() == Slabs.Clear(old(Model()))
    {
      hide CoreOf, WF, CellsOf, Table, IsPow2, EntriesOf, Live, Linked, FreeChain;
      ghost var m, s0 := Model(), slots[..];
      ClearWF(m);
      TableSize(s0, buckets[..], order, free, header.listHead, header.listTail, header.freeHead, hashOf, limits);
      HtClear(buckets);
      ClearSlots();
      ResetHeader();
      order, free := [], UpTo(capacity);
      ClearedCore(s0, slots[..], buckets[..], hashOf, limits);
    }

    method ResetHeader()
      modifies header
      ensures header.currentSize == header.hits == header.misses == header.oversizeSkips == header.freeHead == 0
      ensures header.listHead == header.listTail == header.sieveHand == SLOT_NONE
    {
      header.currentSize := 0;
      header.hits, header.misses, header.oversizeSkips := 0, 0, 0;
      header.listHead, header.listTail, header.sieveHand := SLOT_NONE, SLOT_NONE, SLOT_NONE;
      header.freeHead := 0;
    }

    /** Chains every slot as free. */
    method ClearSlots()
      modifies slots
      ensures forall j :: 0 <= j < slots.Length ==> slots[j] == Freed(old(slots[..])[j], j, slots.Length)
    {
      for i := 0 to slots.Length
        invariant forall j :: 0 <= j < i ==> slots[j] == Freed(old(slots[..])[j], j, slots.Length)
        invariant forall j :: i <= j < slots.Length ==> slots[j] == old(slots[..])[j]
      {
        slots[i] := slots[i].(occupied := false, prev := SLOT_NONE,
                              next := if i + 1 < slots.Length then i + 1 else SLOT_NONE);
      }
    }

    method RecordOversizeSkip()
      requires Valid()
      modifies header`oversizeSkips
      ensures Valid() && Model() == RecordOversize(old(Model()))
    {
      header.oversizeSkips := header.oversizeSkips + 1;
    }
  }

  /** The entry that the deletion took out of the table is the one of the slot in question. */
  lemma RemovedEntry(b: seq<Bucket>, b': seq<Bucket>, slots: seq<Slot>, order: seq<int>, i: nat, found: bool)
    requires Indexed(b, slots, order) && Listed(order, |slots|) && i < |order|
    requires forall x :: x in order ==> slots[x].occupied
    requires KeysDistinct(order, CellsOf(slots))
    requires !found ==> forall e :: e in Live(b) ==> !Matches(e, slots, slots[order[i]].keyHash, slots[order[i]].key)
    requires found ==> exists e :: e in Live(b) && Matches(e, slots, slots[order[i]].keyHash, slots[order[i]].key) &&
                                   Live(b') == Live(b) - {e}
    ensures found && Live(b') == Live(b) - {Bucket(slots[order[i]].keyHash, order[i])}
  {
    var x := order[i];
    var own := Bucket(slots[x].keyHash, x);
    assert own in EntriesOf(slots, order);
    assert Matches(own, slots, slots[x].keyHash, slots[x].key);
    var e :| e in Live(b) && Matches(e, slots, slots[x].keyHash, slots[x].key) && Live(b') == Live(b) - {e};
    assert e in EntriesOf(slots, order);
    assert CellsOf(slots)[e.slotIndex].key == CellsOf(slots)[x].key;
  }

  lemma EntriesWithout(a: seq<Slot>, order: seq<int>, i: nat)
    requires i < |order| && Distinct(order) && Listed(order, |a|)
    ensures EntriesOf(a, RemoveAt(order, i)) == EntriesOf(a, order) - {Bucket(a[order[i]].keyHash, order[i])}
  {
    RemoveAtFacts(order, i);
    var r := RemoveAt(order, i);
    var own := Bucket(a[order[i]].keyHash, order[i]);
    forall e | e in EntriesOf(a, r) ensures e in EntriesOf(a, order) - {own} {
      var x :| x in r && 0 <= x < |a| && e == Bucket(a[x].keyHash, x);
    }
    forall e | e in EntriesOf(a, order) - {own} ensures e in EntriesOf(a, r) {
      var x :| x in order && 0 <= x < |a| && e == Bucket(a[x].keyHash, x);
    }
  }

  lemma IndexedKept(a: seq<Slot>, s: seq<Slot>, b: seq<Bucket>, order: seq<int>)
    requires Indexed(b, a, order) && SameData(a, s)
    ensures Indexed(b, s, order)
  {
    SameDataKeeps(a, s, order, [], _ => 0, Limits(0, 0));
  }

  /** The views agree again after the slot has left the list. */
  lemma DelistKeeps(a: seq<Slot>, s: seq<Slot>, b: seq<Bucket>, order: seq<int>, i: nat, free: seq<int>,
                    head: int, tail: int, head': int, tail': int, freeHead: int, hashOf: Bytes -> nat, limits: Limits)
    requires i < |order| && CoreOf(a, b, RemoveAt(order, i), order, free, head, tail, freeHead, hashOf, limits)
    requires Distinct(order) && forall x :: x in order ==> x !in free
    requires OnlyLinksOf(a, s, order) && Linked(s, RemoveAt(order, i), head', tail')
    ensures CoreOf(s, b, RemoveAt(order, i), RemoveAt(order, i), free, head', tail', freeHead, hashOf, limits)
    ensures CellsOf(s) == CellsOf(a)
  {
    hide Linked, Table, ProbeInv, DistinctSlots, Live, EntriesOf;
    RemoveAtFacts(order, i);
    FreeChainKept(a, s, free, freeHead);
    SameDataKeeps(a, s, RemoveAt(order, i), free, hashOf, limits);
    IndexedKept(a, s, b, RemoveAt(order, i));
  }

  ghost function Freed(slot: Slot, j: nat, n: nat): Slot {
    slot.(occupied := false, prev := SLOT_NONE, next := if j + 1 < n then j + 1 else SLOT_NONE)
  }

  const ZERO_SLOT := Slot(false, 0, [], [], 0, false, 0, 0)

  lemma ZeroCells(slots: seq<Slot>, ttl: nat)
    requires forall j :: 0 <= j < |slots| ==> slots[j] == ZERO_SLOT
    ensures CellsOf(slots) == Create(|slots|, ttl).cells
  {
  }

  /** The views after everything has been freed. */
  lemma ClearedCore(a: seq<Slot>, s: seq<Slot>, b: seq<Bucket>, hashOf: Bytes -> nat, limits: Limits)
    requires 0 < |a| == |s| && 2 * |s| <= |b| && IsPow2(|b|)
    requires forall p :: 0 <= p < |b| ==> b[p] == EMPTY
    requires forall j :: 0 <= j < |s| ==> s[j] == Freed(a[j], j, |s|)
    ensures CoreOf(s, b, [], [], UpTo(|s|), SLOT_NONE, SLOT_NONE, 0, hashOf, limits)
    ensures CellsOf(s) == CellsOf(a)
  {
    assert Live(b) == {};
    assert EntriesOf(s, []) == {};
  }

  lemma TableSize(s: seq<Slot>, b: seq<Bucket>, order: seq<int>, free: seq<int>,
                  head: int, tail: int, freeHead: int, hashOf: Bytes -> nat, limits: Limits)
    requires CoreOf(s, b, order, order, free, head, tail, freeHead, hashOf, limits)
    ensures IsPow2(|b|) && 2 * |s| <= |b|
  {
  }

  lemma SameVis(s: seq<Slot>)
    ensures VisOf(s) == Vis(CellsOf(s))
  {
  }

  lemma RemoveFacts(s: Slab, slotIdx: int)
    requires WF(s) && slotIdx in s.order
    ensures WF(Remove(s, slotIdx)) && Distinct(s.order) && KeysDistinct(s.order, s.cells)
    ensures forall x :: x in s.order ==> x !in s.free
    ensures 0 <= slotIdx < |s.cells| && slotIdx !in RemoveAt(s.order, IndexOf(s.order, slotIdx))
  {
    RemoveWF(s, slotIdx);
    RemoveAtFacts(s.order, IndexOf(s.order, slotIdx));
  }

  lemma EvictFacts(s: Slab, marks: Marks)
    requires WF(s) && s.free == []
    ensures CanEvict(s) && Distinct(s.order) && KeysDistinct(s.order, s.cells) && s.order != []
    ensures s.hand == SLOT_NONE || s.hand in s.order
  {
    FullListHasHand(s);
  }

  /** Unchanged keys stay distinct. */
  lemma SameKeys(order: seq<int>, a: seq<Cell>, b: seq<Cell>, vis: seq<bool>)
    requires KeysDistinct(order, a) && |a| == |vis| && b == WithVis(a, vis)
    ensures KeysDistinct(order, b)
  {
  }

  lemma ChainGrows(a: seq<Slot>, s: seq<Slot>, free: seq<int>, freeHead: int, slotIdx: int)
    requires FreeChain(a, free, freeHead)
    requires 0 <= slotIdx < |a| && slotIdx !in free
    requires s == a[slotIdx := a[slotIdx].(occupied := false, next := freeHead, prev := SLOT_NONE)]
    ensures FreeChain(s, [slotIdx] + free, slotIdx)
  {
    FreeChainKept(a, s, free, freeHead);
    var f := [slotIdx] + free;
    forall i | 0 <= i < |f| ensures 0 <= f[i] < |s| && s[f[i]].next == After(f, i) {
      if i > 0 { assert f[i] == free[i - 1]; }
    }
  }

  lemma FreeKeeps(a: seq<Slot>, s: seq<Slot>, b: seq<Bucket>, order: seq<int>, free: seq<int>, slotIdx: int,
                  head: int, tail: int, freeHead: int, hashOf: Bytes -> nat, limits: Limits)
    requires CoreOf(a, b, order, order, free, head, tail, freeHead, hashOf, limits)
    requires 0 <= slotIdx < |a| && slotIdx !in order && slotIdx !in free
    requires s == a[slotIdx := a[slotIdx].(occupied := false, next := freeHead, prev := SLOT_NONE)]
    ensures CoreOf(s, b, order, order, [slotIdx] + free, head, tail, slotIdx, hashOf, limits)
    ensures CellsOf(s) == CellsOf(a)
  {
    hide Table, ProbeInv, DistinctSlots, Live, Linked, FreeChain, EntriesOf;
    LinkedKept(a, s, order, head, tail);
    ChainGrows(a, s, free, freeHead, slotIdx);
    EntriesKept(a, s, order);
  }

  lemma UpdateKeeps(a: seq<Slot>, s: seq<Slot>, b: seq<Bucket>, order: seq<int>, free: seq<int>, slotIdx: int,
                    head: int, tail: int, freeHead: int, hashOf: Bytes -> nat, limits: Limits)
    requires CoreOf(a, b, order, order, free, head, tail, freeHead, hashOf, limits)
    requires 0 <= slotIdx < |a| && |s| == |a| && |s[slotIdx].value| <= limits.maxValue
    requires s == a[slotIdx := a[slotIdx].(value := s[slotIdx].value, created := s[slotIdx].created, visited := s[slotIdx].visited)]
    ensures CoreOf(s, b, order, order, free, head, tail, freeHead, hashOf, limits)
  {
    hide Table, ProbeInv, DistinctSlots, Live, EntriesOf, Linked, FreeChain;
    LinkedKept(a, s, order, head, tail);
    FreeChainKept(a, s, free, freeHead);
    EntriesKept(a, s, order);
  }

  lemma WrittenCells(a: seq<Slot>, s: seq<Slot>, slotIdx: nat)
    requires slotIdx < |a| == |s| && s == a[slotIdx := s[slotIdx]]
    ensures CellsOf(s) == CellsOf(a)[slotIdx := CellsOf(s)[slotIdx]]
  {
    assert forall j :: 0 <= j < |a| && j != slotIdx ==> s[j] == a[j];
  }

  lemma WriteKeeps(a: seq<Slot>, s: seq<Slot>, b: seq<Bucket>, order: seq<int>, free: seq<int>, slotIdx: int,
                   head: int, tail: int, freeHead: int, hashOf: Bytes -> nat, limits: Limits)
    requires CoreOf(a, b, order, order, free, head, tail, freeHead, hashOf, limits)
    requires 0 <= slotIdx < |a| && slotIdx !in order && slotIdx !in free && |s| == |a|
    requires s == a[slotIdx := s[slotIdx]]
    ensures CoreOf(s, b, order, order, free, head, tail, freeHead, hashOf, limits)
    ensures CellsOf(s) == CellsOf(a)[slotIdx := CellsOf(s)[slotIdx]]
  {
    hide Table, ProbeInv, DistinctSlots, Live, EntriesOf, Linked, FreeChain, CellsOf;
    LinkedKept(a, s, order, head, tail);
    FreeChainKept(a, s, free, freeHead);
    EntriesKept(a, s, order);
    WrittenCells(a, s, slotIdx);
  }

  lemma EntriesKept(a: seq<Slot>, s: seq<Slot>, order: seq<int>)
    requires |a| == |s| && forall x :: x in order && 0 <= x < |a| ==> s[x].keyHash == a[x].keyHash
    ensures EntriesOf(s, order) == EntriesOf(a, order)
  {
    forall e | e in EntriesOf(a, order) ensures e in EntriesOf(s, order) {
      var x :| x in order && 0 <= x < |a| && e == Bucket(a[x].keyHash, x);
      assert e == Bucket(s[x].keyHash, x);
    }
    forall e | e in EntriesOf(s, order) ensures e in EntriesOf(a, order) {
      var x :| x in order && 0 <= x < |s| && e == Bucket(s[x].keyHash, x);
      assert e == Bucket(a[x].keyHash, x);
    }
  }

  lemma EntriesWith(a: seq<Slot>, order: seq<int>, slotIdx: int)
    requires 0 <= slotIdx < |a| && slotIdx !in order
    ensures EntriesOf(a, order + [slotIdx]) == EntriesOf(a, order) + {Bucket(a[slotIdx].keyHash, slotIdx)}
    ensures forall e :: e in EntriesOf(a, order) ==> e.slotIndex != slotIdx
  {
    var o := order + [slotIdx];
    assert forall x :: x in o <==> x in order || x == slotIdx;
    forall e | e in EntriesOf(a, order) + {Bucket(a[slotIdx].keyHash, slotIdx)} ensures e in EntriesOf(a, o) {
      if e in EntriesOf(a, order) {
        var x :| x in order && 0 <= x < |a| && e == Bucket(a[x].keyHash, x);
        assert x in o;
      } else {
        assert slotIdx in o;
      }
    }
  }

  /** The views agree again after the slot has joined the list. */
  lemma EnlistKeeps(a: seq<Slot>, s: seq<Slot>, b: seq<Bucket>, order: seq<int>, slotIdx: int, free: seq<int>,
                    head: int, tail: int, head': int, tail': int, freeHead: int, hashOf: Bytes -> nat, limits: Limits)
    requires CoreOf(a, b, order + [slotIdx], order, free, head, tail, freeHead, hashOf, limits)
    requires 0 <= slotIdx < |a| && slotIdx !in free && forall x :: x in order ==> x !in free
    requires var t := a[slotIdx]; t.occupied && t.keyHash == hashOf(t.key) && |t.key| <= limits.maxKey && |t.value| <= limits.maxValue
    requires OnlyLinksOf(a, s, order + [slotIdx]) && Linked(s, order + [slotIdx], head', tail')
    ensures CoreOf(s, b, order + [slotIdx], order + [slotIdx], free, head', tail', freeHead, hashOf, limits)
    ensures CellsOf(s) == CellsOf(a)
  {
    hide Linked, Table, ProbeInv, DistinctSlots, Live, EntriesOf;
    var o := order + [slotIdx];
    assert forall x :: x in o <==> x in order || x == slotIdx;
    FreeChainKept(a, s, free, freeHead);
    assert Filled(a, o, free, hashOf, limits);
    SameDataKeeps(a, s, o, free, hashOf, limits);
    IndexedKept(a, s, b, o);
  }

  /** `ShmRegion::create`: refused exactly for a capacity of zero or beyond the limit of the table size. */
  method CreateRegion(capacity: nat, ttl: nat, limits: Limits, ghost hashOf: Bytes -> nat) returns (r: Option<ShmCache>)
    ensures r.Some? <==> 1 <= capacity <= MAX_SHARED_MAX_SIZE
    ensures r.Some? ==> r.value.Valid() && r.value.Model() == Create(capacity, ttl) && r.value.hashOf == hashOf
    ensures r.Some? ==> fresh(r.value) && fresh(r.value.header) && fresh(r.value.buckets) && fresh(r.value.slots)
  {
    if capacity == 0 {
      return None;
    }
    HtCapacitySpec(capacity);
    if HtCapacity(capacity).None? {
      return None;
    }
    var cache := new ShmCache(capacity, ttl, limits, hashOf);
    return Some(cache);
  }
}

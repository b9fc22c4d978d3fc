/** The shared cache as a value: which slots are listed, which are free, what each holds, where the hand points.
    The operations of ShmCache (src/shm/mod.rs) without links, buckets and counters that repeat this. */
module Slabs {
  import opened Layout
  import opened Collections
  import opened HashTable
  import opened Sieve
  import opened Ordering

  datatype Cell = Cell(key: Bytes, value: Bytes, created: nat, visited: bool)

  datatype Slab = Slab(ttl: nat, order: seq<int>, free: seq<int>, cells: seq<Cell>, hand: int,
                       hits: nat, misses: nat, skips: nat)

  /** What the optimistic read phase reports. */
  datatype Outcome = Hit(value: Bytes, slot: nat) | Miss | Expired(slot: nat)

  datatype GetResult = Found(value: Bytes) | NotFound

  // ---------------------------------------------------------------- well-formedness

  /** The eviction list and the free chain are duplicate-free and partition the slots. */
  ghost predicate Partition(order: seq<int>, free: seq<int>, n: nat) {
    && Distinct(order) && Distinct(free)
    && (forall x :: x in order ==> x !in free)
    && (forall x :: x in order || x in free <==> 0 <= x < n)
  }

  ghost predicate KeysDistinct(order: seq<int>, cells: seq<Cell>) {
    forall x, y :: x in order && y in order && x != y && 0 <= x < |cells| && 0 <= y < |cells|
                   ==> cells[x].key != cells[y].key
  }

  ghost predicate WF(s: Slab) {
    && |s.cells| > 0
    && Partition(s.order, s.free, |s.cells|)
    && KeysDistinct(s.order, s.cells)
    && (s.hand == SLOT_NONE || 0 <= s.hand < |s.cells|)
  }

  /** With an empty free chain every slot is listed, so a hand that an earlier removal left stale is a list member. */
  lemma FullListHasHand(s: Slab)
    requires WF(s) && s.free == []
    ensures s.order != [] && |s.order| == |s.cells|
    ensures Listed(s.order, |s.cells|)
    ensures s.hand == SLOT_NONE || s.hand in s.order
  {
    assert 0 in s.order;
    DistinctCover(s.order, |s.cells|);
    forall i | 0 <= i < |s.order| ensures 0 <= s.order[i] < |s.cells| {
      assert s.order[i] in s.order;
    }
  }

  /** Slots are conserved. */
  lemma SlotCount(s: Slab)
    requires WF(s)
    ensures |s.order| + |s.free| == |s.cells|
  {
    var all := s.order + s.free;
    assert forall x :: x in all <==> x in s.order || x in s.free;
    forall p, q | 0 <= p < q < |all| ensures all[p] != all[q] {
      assert all[p] in (if p < |s.order| then s.order else s.free);
      assert all[q] in (if q < |s.order| then s.order else s.free);
    }
    DistinctCover(all, |s.cells|);
  }

  // ---------------------------------------------------------------- searching

  /** The listed slot that holds `key`, or SLOT_NONE. */
  function FindIn(order: seq<int>, cells: seq<Cell>, key: Bytes): (x: int)
    ensures x != SLOT_NONE ==> x in order && 0 <= x < |cells| && cells[x].key == key
    ensures x == SLOT_NONE ==> forall y :: y in order && 0 <= y < |cells| ==> cells[y].key != key
  {
    if order == [] then SLOT_NONE
    else if 0 <= order[0] < |cells| && cells[order[0]].key == key then order[0]
    else FindIn(order[1..], cells, key)
  }

  function Find(s: Slab, key: Bytes): int {
    FindIn(s.order, s.cells, key)
  }

  lemma FoundInRange(s: Slab, key: Bytes)
    requires Find(s, key) != SLOT_NONE
    ensures 0 <= Find(s, key) < |s.cells| && Find(s, key) in s.order && s.cells[Find(s, key)].key == key
  {
  }

  lemma FindUnique(s: Slab, x: int)
    requires WF(s) && x in s.order
    ensures 0 <= x < |s.cells| && Find(s, s.cells[x].key) == x
  {
    assert 0 <= x < |s.cells|;
    assert Find(s, s.cells[x].key) != SLOT_NONE;
  }

  // ---------------------------------------------------------------- operations

  predicate IsExpired(ttl: nat, now: nat, created: nat) {
    ttl > 0 && Elapsed(now, created) > ttl
  }

  /** The read phase: it changes nothing. */
  function Peek(s: Slab, key: Bytes, now: nat): Outcome {
    var x := Find(s, key);
    if x == SLOT_NONE then Miss
    else if IsExpired(s.ttl, now, s.cells[x].created) then Expired(x)
    else Hit(s.cells[x].value, x)
  }

  /** A reader's store to `visited`, of any slot at any time. */
  function Mark(s: Slab, slot: nat): Slab
    requires slot < |s.cells|
  {
    s.(cells := s.cells[slot := s.cells[slot].(visited := true)])
  }

  /** Removal of a listed slot; the hand stays as it is. */
  function Remove(s: Slab, slot: int): Slab
    requires slot in s.order
  {
    s.(order := RemoveAt(s.order, IndexOf(s.order, slot)), free := [slot] + s.free)
  }

  /** The write phase of an expired get: it looks at the key again, but not at the age. */
  function Reap(s: Slab, slot: nat, key: Bytes): Slab
    requires slot < |s.cells|
  {
    if slot in s.order && s.cells[slot].key == key then Remove(s, slot) else s
  }

  function CountHit(s: Slab): Slab { s.(hits := s.hits + 1) }

  function CountMiss(s: Slab): Slab { s.(misses := s.misses + 1) }

  /** A get that nobody interrupts. */
  function Get(s: Slab, key: Bytes, now: nat): (r: (GetResult, Slab)) {
    match Peek(s, key, now)
    case Hit(value, slot) => (Found(value), CountHit(Mark(s, slot)))
    case Miss => (NotFound, CountMiss(s))
    case Expired(slot) => (NotFound, CountMiss(Reap(s, slot, key)))
  }

  function Vis(cells: seq<Cell>): (v: seq<bool>)
    ensures |v| == |cells|
    ensures forall j :: 0 <= j < |cells| ==> v[j] == cells[j].visited
  {
    seq(|cells|, j requires 0 <= j < |cells| => cells[j].visited)
  }

  function WithVis(cells: seq<Cell>, vis: seq<bool>): (r: seq<Cell>)
    requires |vis| == |cells|
    ensures |r| == |cells|
    ensures forall j :: 0 <= j < |cells| ==> r[j] == cells[j].(visited := vis[j])
  {
    seq(|cells|, j requires 0 <= j < |cells| => cells[j].(visited := vis[j]))
  }

  ghost predicate CanEvict(s: Slab) {
    && s.order != [] && Distinct(s.order) && Listed(s.order, |s.cells|)
    && (s.hand == SLOT_NONE || s.hand in s.order)
  }

  /** The scan that an eviction runs. */
  ghost function EvictScan(s: Slab, marks: Marks): (r: ScanResult)
    requires CanEvict(s)
    ensures r.index < |s.order| && |r.vis| == |s.cells|
  {
    Scan(s.order, Vis(s.cells), StartIndex(s.order, s.hand), marks, 0, 2 * |s.cells|)
  }

  ghost function Victim(s: Slab, marks: Marks): (x: int)
    requires CanEvict(s)
    ensures x in s.order && 0 <= x < |s.cells|
  {
    s.order[EvictScan(s, marks).index]
  }

  /** The state after the victim has left the list; its slot is on neither list. */
  ghost function Evict(s: Slab, marks: Marks): Slab
    requires CanEvict(s)
  {
    var r := EvictScan(s, marks);
    s.(order := RemoveAt(s.order, r.index), cells := WithVis(s.cells, r.vis),
       hand := if r.found then s.order[Step(r.index, |s.order|)] else SLOT_NONE)
  }

  /** A new entry goes into an unlisted slot and to the tail of the list, unvisited. */
  function Push(s: Slab, slot: int, key: Bytes, value: Bytes, now: nat): Slab
    requires 0 <= slot < |s.cells|
  {
    s.(order := s.order + [slot], cells := s.cells[slot := Cell(key, value, now, false)])
  }

  function Update(s: Slab, slot: int, value: Bytes, now: nat): Slab
    requires 0 <= slot < |s.cells|
  {
    s.(cells := s.cells[slot := Cell(s.cells[slot].key, value, now, true)])
  }

  ghost function Insert(s: Slab, key: Bytes, value: Bytes, now: nat, marks: Marks): (t: Slab)
    requires WF(s)
    ensures |t.cells| == |s.cells| && t.ttl == s.ttl
  {
    var x := Find(s, key);
    if x != SLOT_NONE then Update(s, x, value, now)
    else if s.free != [] then
      assert s.free[0] in s.free;
      Push(s.(free := s.free[1..]), s.free[0], key, value, now)
    else
      FullListHasHand(s);
      Push(Evict(s, marks), Victim(s, marks), key, value, now)
  }

  function Clear(s: Slab): Slab {
    Slab(s.ttl, [], UpTo(|s.cells|), s.cells, SLOT_NONE, 0, 0, 0)
  }

  function Create(capacity: nat, ttl: nat): Slab {
    Slab(ttl, [], UpTo(capacity), seq(capacity, _ => Cell([], [], 0, false)), SLOT_NONE, 0, 0, 0)
  }

  function RecordOversize(s: Slab): Slab { s.(skips := s.skips + 1) }

  // ---------------------------------------------------------------- every operation keeps WF

  lemma CreateWF(capacity: nat, ttl: nat)
    requires capacity > 0
    ensures WF(Create(capacity, ttl))
  {
    UpToMembers(capacity);
  }

  lemma ClearWF(s: Slab)
    requires WF(s)
    ensures WF(Clear(s))
  {
    UpToMembers(|s.cells|);
  }

  lemma MarkWF(s: Slab, slot: nat)
    requires WF(s) && slot < |s.cells|
    ensures WF(Mark(s, slot))
  {
  }

  lemma UpdateWF(s: Slab, slot: int, value: Bytes, now: nat)
    requires WF(s) && slot in s.order
    ensures 0 <= slot < |s.cells| && WF(Update(s, slot, value, now))
  {
  }

  lemma RemoveWF(s: Slab, slot: int)
    requires WF(s) && slot in s.order
    ensures WF(Remove(s, slot))
    ensures forall x :: x in Remove(s, slot).order <==> x in s.order && x != slot
  {
    var i := IndexOf(s.order, slot);
    RemoveAtFacts(s.order, i);
    var t := Remove(s, slot);
    assert forall x :: x in t.free <==> x == slot || x in s.free;
  }

  lemma ReapWF(s: Slab, slot: nat, key: Bytes)
    requires WF(s) && slot < |s.cells|
    ensures WF(Reap(s, slot, key))
  {
    if slot in s.order && s.cells[slot].key == key { RemoveWF(s, slot); }
  }

  lemma GetWF(s: Slab, key: Bytes, now: nat)
    requires WF(s)
    ensures WF(Get(s, key, now).1)
  {
    match Peek(s, key, now)
    case Hit(_, slot) => MarkWF(s, slot);
    case Miss =>
    case Expired(slot) => ReapWF(s, slot, key);
  }

  /** What Push needs: the slot is on neither list, every other slot is on one, and the key is new. */
  ghost predicate Pushable(s: Slab, slot: int, key: Bytes) {
    && 0 <= slot < |s.cells|
    && Distinct(s.order) && Distinct(s.free)
    && (forall x :: x in s.order ==> x !in s.free)
    && (forall x :: x in s.order || x in s.free <==> 0 <= x < |s.cells| && x != slot)
    && KeysDistinct(s.order, s.cells)
    && (forall x :: x in s.order && 0 <= x < |s.cells| ==> s.cells[x].key != key)
    && (s.hand == SLOT_NONE || 0 <= s.hand < |s.cells|)
  }

  lemma PushWF(s: Slab, slot: int, key: Bytes, value: Bytes, now: nat)
    requires Pushable(s, slot, key)
    ensures WF(Push(s, slot, key, value, now))
  {
    var t := Push(s, slot, key, value, now);
    assert slot !in s.order;
    assert forall x :: x in t.order <==> x in s.order || x == slot;
  }

  lemma PopPushable(s: Slab, key: Bytes)
    requires WF(s) && s.free != [] && Find(s, key) == SLOT_NONE
    ensures Pushable(s.(free := s.free[1..]), s.free[0], key)
  {
    assert s.free == [s.free[0]] + s.free[1..];
    assert s.free[0] in s.free;
    assert forall x :: x in s.free <==> x == s.free[0] || x in s.free[1..];
  }

  lemma EvictPushable(s: Slab, marks: Marks, key: Bytes)
    requires WF(s) && s.free == [] && Find(s, key) == SLOT_NONE
    requires CanEvict(s)
    ensures Pushable(Evict(s, marks), Victim(s, marks), key)
    ensures forall x :: x in Evict(s, marks).order <==> x in s.order && x != Victim(s, marks)
  {
    var r := EvictScan(s, marks);
    RemoveAtFacts(s.order, r.index);
    assert s.order[Step(r.index, |s.order|)] in s.order;
  }

  lemma InsertWF(s: Slab, key: Bytes, value: Bytes, now: nat, marks: Marks)
    requires WF(s)
    ensures WF(Insert(s, key, value, now, marks))
  {
    if Find(s, key) == SLOT_NONE {
      if s.free != [] {
        PopPushable(s, key);
        assert s.free[0] in s.free;
        PushWF(s.(free := s.free[1..]), s.free[0], key, value, now);
      } else {
        FullListHasHand(s);
        EvictPushable(s, marks, key);
        PushWF(Evict(s, marks), Victim(s, marks), key, value, now);
      }
    }
  }
}

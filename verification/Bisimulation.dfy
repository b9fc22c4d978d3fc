/** Without time-to-live the shared cache and a single shard of the in-process cache are SIEVE queues. */
module SieveQueues {
  import opened Layout
  import opened Collections
  import opened HashTable
  import opened Sieve

  datatype Item = Item(key: Bytes, value: Bytes, visited: bool)

  /** Entries in insertion order and the position at which the next scan begins. */
  datatype Queue = Queue(items: seq<Item>, hand: nat)

  function Bits(items: seq<Item>): (v: seq<bool>)
    ensures |v| == |items|
    ensures forall i :: 0 <= i < |items| ==> v[i] == items[i].visited
  {
    seq(|items|, i requires 0 <= i < |items| => items[i].visited)
  }

  function WithBits(items: seq<Item>, v: seq<bool>): (r: seq<Item>)
    requires |v| == |items|
    ensures |r| == |items|
    ensures forall i :: 0 <= i < |items| ==> r[i] == items[i].(visited := v[i])
  {
    seq(|items|, i requires 0 <= i < |items| => items[i].(visited := v[i]))
  }

  ghost predicate HandIn(q: Queue) {
    q.items != [] ==> q.hand < |q.items|
  }

  ghost function QueueScan(q: Queue): (r: ScanResult)
    requires q.items != [] && HandIn(q)
    ensures r.index < |q.items| && |r.vis| == |q.items|
  {
    Scan(UpTo(|q.items|), Bits(q.items), q.hand, [], 0, |q.items| + 1)
  }

  /** Drops the entry at index i; the next scan begins at its successor. */
  ghost function DropItem(items: seq<Item>, i: nat): Queue
    requires i < |items|
  {
    Queue(RemoveAt(items, i), if i + 1 == |items| then 0 else i)
  }

  ghost function QueueEvict(q: Queue): Queue
    requires q.items != [] && HandIn(q)
  {
    DropItem(WithBits(q.items, QueueScan(q).vis), QueueScan(q).index)
  }

  /** The position of a key, or the length of the queue. */
  function Position(items: seq<Item>, key: Bytes): (p: nat)
    ensures p <= |items|
    ensures p < |items| ==> items[p].key == key
    ensures p == |items| ==> forall i :: 0 <= i < |items| ==> items[i].key != key
  {
    if items == [] then 0 else if items[0].key == key then 0 else 1 + Position(items[1..], key)
  }

  /** A call: a hit marks its entry, a miss stores the function's value, evicting one entry when the queue is full. */
  ghost function QueueCall(q: Queue, capacity: nat, key: Bytes, value: Bytes): (Option<Bytes>, Queue)
    requires HandIn(q) && capacity > 0
  {
    var p := Position(q.items, key);
    if p < |q.items| then
      (Some(q.items[p].value), q.(items := q.items[p := q.items[p].(visited := true)]))
    else
      var room := if |q.items| >= capacity then QueueEvict(q) else q;
      (None, room.(items := room.items + [Item(key, value, false)]))
  }

  // ---------------------------------------------------------------- scans of different representations

  /** More budget changes nothing for a scan that stops. */
  lemma {:induction false} ScanBudget(order: seq<int>, vis: seq<bool>, i: nat, k: nat, small: nat, large: nat)
    requires i < |order| && k <= small <= large && Listed(order, |vis|)
    requires Scan(order, vis, i, [], k, small).found
    ensures Scan(order, vis, i, [], k, large) == Scan(order, vis, i, [], k, small)
    decreases small - k
  {
    var v := Marked(vis, MarksAt([], k));
    if k < small && v[order[i]] {
      ScanBudget(order, v[order[i] := false], Step(i, |order|), k + 1, small, large);
    }
  }

  /** The visited bits in list order. */
  ghost function InOrder(order: seq<int>, vis: seq<bool>): (r: seq<bool>)
    requires Listed(order, |vis|)
    ensures |r| == |order| && forall p :: 0 <= p < |order| ==> r[p] == vis[order[p]]
  {
    seq(|order|, p requires 0 <= p < |order| => vis[order[p]])
  }

  /** Scanning slots through the list is scanning positions. */
  lemma {:induction false} ScanProjects(order: seq<int>, vis: seq<bool>, i: nat, k: nat, budget: nat)
    requires i < |order| && k <= budget && Listed(order, |vis|) && Distinct(order)
    ensures var r := Scan(order, vis, i, [], k, budget);
            Scan(UpTo(|order|), InOrder(order, vis), i, [], k, budget) == ScanResult(r.index, InOrder(order, r.vis), r.found)
    decreases budget - k
  {
    assert Marked(vis, MarksAt([], k)) == vis;
    assert Marked(InOrder(order, vis), MarksAt([], k)) == InOrder(order, vis);
    if k < budget && vis[order[i]] {
      var vis' := vis[order[i] := false];
      forall p | 0 <= p < |order| ensures vis'[order[p]] == InOrder(order, vis)[i := false][p] {
        if p != i { assert order[p] != order[i]; }
      }
      assert InOrder(order, vis') == InOrder(order, vis)[i := false];
      ScanProjects(order, vis', Step(i, |order|), k + 1, budget);
    }
  }

  lemma UpToDistinct(n: nat)
    ensures Distinct(UpTo(n)) && Listed(UpTo(n), n)
  {
  }

  lemma QueueScanStops(q: Queue)
    requires q.items != [] && HandIn(q)
    ensures QueueScan(q).found
  {
    UpToDistinct(|q.items|);
    QuietScan(UpTo(|q.items|), Bits(q.items), q.hand, |q.items| + 1);
  }
}

/** The shared cache is the queue. */
module SharedIsQueue {
  import opened Layout
  import opened Collections
  import opened HashTable
  import opened Sieve
  import opened Ordering
  import opened Slabs
  import opened SieveQueues

  /** Reachable states without removals: the hand is never stale. */
  ghost predicate Steady(s: Slab) {
    WF(s) && s.ttl == 0 && Listed(s.order, |s.cells|) && (s.hand == SLOT_NONE || s.hand in s.order)
  }

  ghost function ItemsOf(order: seq<int>, cells: seq<Cell>): (r: seq<Item>)
    requires Listed(order, |cells|)
    ensures |r| == |order|
    ensures forall i :: 0 <= i < |order| ==> r[i] == Item(cells[order[i]].key, cells[order[i]].value, cells[order[i]].visited)
  {
    seq(|order|, i requires 0 <= i < |order| => Item(cells[order[i]].key, cells[order[i]].value, cells[order[i]].visited))
  }

  ghost function QueueOf(s: Slab): Queue
    requires Steady(s)
  {
    Queue(ItemsOf(s.order, s.cells), if s.hand == SLOT_NONE then 0 else IndexOf(s.order, s.hand))
  }

  /** A call on the shared cache that nobody interrupts: get, and on a miss insert the function's value. */
  ghost function SharedCall(s: Slab, key: Bytes, value: Bytes, now: nat): (Option<Bytes>, Slab)
    requires WF(s)
  {
    GetWF(s, key, now);
    var (r, t) := Get(s, key, now);
    match r
    case Found(v) => (Some(v), t)
    case NotFound => (None, Insert(t, key, value, now, []))
  }

  lemma {:induction false} PositionIsFind(order: seq<int>, cells: seq<Cell>, key: Bytes)
    requires Listed(order, |cells|)
    ensures var x, p := FindIn(order, cells, key), Position(ItemsOf(order, cells), key);
            if x == SLOT_NONE then p == |order| else p < |order| && order[p] == x
  {
    if order != [] && cells[order[0]].key != key {
      assert ItemsOf(order, cells)[1..] == ItemsOf(order[1..], cells);
      PositionIsFind(order[1..], cells, key);
    }
  }

  lemma MarkIsMark(s: Slab, p: nat)
    requires Steady(s) && p < |s.order|
    ensures Steady(Mark(s, s.order[p]))
    ensures var q := QueueOf(s); QueueOf(Mark(s, s.order[p])) == q.(items := q.items[p := q.items[p].(visited := true)])
  {
    var t := Mark(s, s.order[p]);
    MarkWF(s, s.order[p]);
    var a, b := ItemsOf(t.order, t.cells), ItemsOf(s.order, s.cells)[p := ItemsOf(s.order, s.cells)[p].(visited := true)];
    forall i | 0 <= i < |s.order| ensures a[i] == b[i] {
      if i != p { assert s.order[i] != s.order[p]; }
    }
    assert a == b;
  }

  /** The scan of the shared cache, by positions. */
  lemma EvictScanIsQueueScan(s: Slab)
    requires Steady(s) && s.free == [] && CanEvict(s)
    ensures QueueOf(s).items != [] && HandIn(QueueOf(s))
    ensures var r, u := EvictScan(s, []), QueueScan(QueueOf(s));
            u.index == r.index && r.found && u.vis == InOrder(s.order, r.vis)
  {
    hide FirstUnvisited, ClearedPassed, Scan, Distinct, ItemsOf, Bits, InOrder, Vis, Partition, KeysDistinct;
    var i, vis, n := StartIndex(s.order, s.hand), Vis(s.cells), |s.order|;
    FullListHasHand(s);
    QuietScan(s.order, vis, i, n + 1);
    ScanBudget(s.order, vis, i, 0, n + 1, 2 * |s.cells|);
    ScanProjects(s.order, vis, i, 0, n + 1);
    BitsInOrder(s.order, s.cells);
  }

  lemma BitsInOrder(order: seq<int>, cells: seq<Cell>)
    requires Listed(order, |cells|)
    ensures InOrder(order, Vis(cells)) == Bits(ItemsOf(order, cells))
  {
  }

  lemma EvictedItems(order: seq<int>, cells: seq<Cell>, vis: seq<bool>, i: nat, cells': seq<Cell>)
    requires Listed(order, |cells|) && Distinct(order) && |vis| == |cells| == |cells'| && i < |order|
    requires forall x :: 0 <= x < |cells| && x != order[i] ==> cells'[x] == cells[x].(visited := vis[x])
    ensures Listed(RemoveAt(order, i) + [order[i]], |cells'|)
    ensures var c := cells'[order[i]];
            ItemsOf(RemoveAt(order, i) + [order[i]], cells') ==
            RemoveAt(WithBits(ItemsOf(order, cells), InOrder(order, vis)), i) + [Item(c.key, c.value, c.visited)]
  {
    var o := RemoveAt(order, i) + [order[i]];
    var c := cells'[order[i]];
    var b := RemoveAt(WithBits(ItemsOf(order, cells), InOrder(order, vis)), i) + [Item(c.key, c.value, c.visited)];
    forall j | 0 <= j < |o|
      ensures 0 <= o[j] < |cells'| && Item(cells'[o[j]].key, cells'[o[j]].value, cells'[o[j]].visited) == b[j]
    {
      if j < |order| - 1 {
        var k := if j < i then j else j + 1;
        assert o[j] == order[k] && order[k] != order[i];
      }
    }
    assert |ItemsOf(o, cells')| == |b|;
  }

  lemma SuccessorIndex(order: seq<int>, i: nat)
    requires Distinct(order) && i < |order|
    ensures var o := RemoveAt(order, i) + [order[i]];
            order[Step(i, |order|)] in o && IndexOf(o, order[Step(i, |order|)]) == if i + 1 == |order| then 0 else i
  {
    var o := RemoveAt(order, i) + [order[i]];
    RemoveAtFacts(order, i);
    assert Distinct(o);
    var p := if i + 1 == |order| then 0 else i;
    assert o[p] == order[Step(i, |order|)];
    IndexOfDistinct(o, p);
  }

  lemma PushAtEnd(s: Slab, key: Bytes, value: Bytes, now: nat)
    requires Steady(s) && s.free != [] && Find(s, key) == SLOT_NONE
    requires s.order == [] ==> s.hand == SLOT_NONE
    ensures var t, q := Insert(s, key, value, now, []), QueueOf(s);
            Steady(t) && QueueOf(t) == q.(items := q.items + [Item(key, value, false)])
  {
    InsertWF(s, key, value, now, []);
    var x := s.free[0];
    assert x in s.free && x !in s.order;
    var t := Insert(s, key, value, now, []);
    assert t.order == s.order + [x];
    forall i | 0 <= i < |t.order| ensures 0 <= t.order[i] < |t.cells| {
      assert t.order[i] in t.order;
    }
    assert ItemsOf(t.order, t.cells) == ItemsOf(s.order, s.cells) + [Item(key, value, false)];
    if s.hand != SLOT_NONE {
      var i := IndexOf(s.order, s.hand);
      assert t.order[i] == s.hand;
      IndexOfDistinct(t.order, i);
    }
  }

  lemma EvictAndPush(s: Slab, key: Bytes, value: Bytes, now: nat)
    requires Steady(s) && s.free == [] && Find(s, key) == SLOT_NONE
    ensures HandIn(QueueOf(s)) && QueueOf(s).items != []
    ensures var t, q := Insert(s, key, value, now, []), QueueEvict(QueueOf(s));
            Steady(t) && QueueOf(t) == q.(items := q.items + [Item(key, value, false)])
  {
    FullListHasHand(s);
    InsertWF(s, key, value, now, []);
    EvictScanIsQueueScan(s);
    var r := EvictScan(s, []);
    var t := Insert(s, key, value, now, []);
    EvictedItems(s.order, s.cells, r.vis, r.index, t.cells);
    SuccessorIndex(s.order, r.index);
    assert t.order == RemoveAt(s.order, r.index) + [s.order[r.index]];
  }

  /** A call on the shared cache is a call on its queue. */
  lemma SharedCallIsQueueCall(s: Slab, key: Bytes, value: Bytes, now: nat)
    requires Steady(s) && (s.order == [] ==> s.hand == SLOT_NONE)
    ensures HandIn(QueueOf(s))
    ensures var (r, t) := SharedCall(s, key, value, now);
            && Steady(t) && t.order != [] && |t.cells| == |s.cells|
            && (r, QueueOf(t)) == QueueCall(QueueOf(s), |s.cells|, key, value)
  {
    PositionIsFind(s.order, s.cells, key);
    SlotCount(s);
    GetWF(s, key, now);
    if Find(s, key) != SLOT_NONE {
      MarkIsMark(s, Position(QueueOf(s).items, key));
    } else {
      var t := CountMiss(s);
      assert QueueOf(t) == QueueOf(s);
      if s.free != [] { PushAtEnd(t, key, value, now); } else { EvictAndPush(t, key, value, now); }
    }
  }
}

/** A shard of the in-process cache is the queue. */
module ShardIsQueue {
  import opened Layout
  import opened Collections
  import opened HashTable
  import opened Sieve
  import opened ShardModel
  import opened ShardTheorems
  import opened SieveQueues

  type State = ShardState<Bytes, Bytes>

  ghost predicate Steady(s: State) {
    Clean(s) && Bounded(s) && s.capacity > 0
  }

  ghost function ItemsOf(s: State): (r: seq<Item>)
    requires Clean(s)
    ensures |r| == |s.order|
    ensures forall i :: 0 <= i < |s.order| ==>
              r[i] == Item(s.order[i], s.entries[s.order[i]].value, s.entries[s.order[i]].visited)
  {
    seq(|s.order|, i requires 0 <= i < |s.order| => Item(s.order[i], s.entries[s.order[i]].value, s.entries[s.order[i]].visited))
  }

  ghost function QueueOf(s: State): (q: Queue)
    requires Clean(s)
    ensures HandIn(q)
  {
    Queue(ItemsOf(s), Wrapped(s))
  }

  /** A call without time-to-live that nobody interrupts: the read phase and, on a miss, the write phase. */
  function MemoryCall(s: State, key: Bytes, value: Bytes, now: nat): (Option<Bytes>, State)
    requires Covered(s)
  {
    var (r, t) := Probe(s, None, key, now);
    if r.Some? then (r, t) else (None, Store(t, None, key, value, now))
  }

  /** The hand of a shard between operations: inside the deque, or 0. */
  ghost predicate HandSettled(s: State) {
    s.hand < |s.order| || s.hand == 0
  }

  lemma ExhaustedScan(order: seq<int>, vis: seq<bool>, i: nat, budget: nat)
    requires i < |order| && Listed(order, |vis|)
    ensures !Scan(order, vis, i, [], budget, budget).found
  {
  }

  lemma OrderSize(s: State)
    requires Clean(s)
    ensures |s.order| == |s.entries|
  {
    ElementsSize(s.order);
    assert Elements(s.order) == s.entries.Keys;
  }

  lemma {:induction false} EvictScanIsQueueScan(s: State, scanned: nat)
    requires Clean(s) && s.order != [] && scanned <= |s.order|
    requires Scan(UpTo(|s.order|), Bits(ItemsOf(s)), Wrapped(s), [], scanned, |s.order| + 1).found
    ensures var r := Scan(UpTo(|s.order|), Bits(ItemsOf(s)), Wrapped(s), [], scanned, |s.order| + 1);
            var t := EvictScan(s, scanned, |s.order|);
            && Clean(t) && HandSettled(t) && QueueOf(t) == DropItem(WithBits(ItemsOf(s), r.vis), r.index)
    decreases |s.order| + 1 - scanned
  {
    hide Clean, HandSettled, ItemsOf, Bits, WithBits, UpTo, Marked, Scan, EvictScan, DropAt, DropItem;
    var n, h := |s.order|, Wrapped(s);
    ItemAt(s, h);
    ScanUnfolds(UpTo(n), Bits(ItemsOf(s)), h, scanned, n + 1);
    EvictUnfolds(s, scanned);
    if s.entries[s.order[h]].visited {
      var u := Passing(s);
      ClearedItems(s, u, h);
      ExhaustedScan(UpTo(n), Bits(ItemsOf(s))[h := false], Step(h, n), n + 1);
      EvictScanIsQueueScan(u, scanned + 1);
      SameBase(ItemsOf(s), h, Scan(UpTo(n), Bits(ItemsOf(u)), Wrapped(u), [], scanned + 1, n + 1).vis);
    } else {
      DroppedItems(s, h);
      OwnBits(ItemsOf(s));
    }
  }

  /** The state after one step of the eviction loop at a visited entry. */
  ghost function Passing(s: State): State
    requires s.order != [] && s.order[Wrapped(s)] in s.entries
  {
    var key := s.order[Wrapped(s)];
    s.(entries := s.entries[key := s.entries[key].(visited := false)], hand := Wrapped(s) + 1)
  }

  lemma EvictUnfolds(s: State, scanned: nat)
    requires s.order != [] && scanned <= |s.order| && s.order[Wrapped(s)] in s.entries
    ensures var key := s.order[Wrapped(s)];
            EvictScan(s, scanned, |s.order|) ==
            if s.entries[key].visited then EvictScan(Passing(s), scanned + 1, |s.order|)
            else DropAt(s.(entries := s.entries - {key}), Wrapped(s))
    ensures Wrapped(Passing(s)) == Step(Wrapped(s), |s.order|)
  {
  }

  lemma ScanUnfolds(order: seq<int>, vis: seq<bool>, i: nat, k: nat, budget: nat)
    requires i < |order| && k < budget && Listed(order, |vis|)
    ensures Scan(order, vis, i, [], k, budget) ==
            if vis[order[i]] then Scan(order, vis[order[i] := false], Step(i, |order|), [], k + 1, budget)
            else ScanResult(i, vis, true)
  {
    assert Marked(vis, MarksAt([], k)) == vis;
  }

  lemma ItemAt(s: State, h: nat)
    requires Clean(s) && h < |s.order|
    ensures s.order[h] in s.entries && Bits(ItemsOf(s))[h] == s.entries[s.order[h]].visited
    ensures UpTo(|s.order|)[h] == h
  {
    assert s.order[h] in s.order;
  }

  lemma SameBase(items: seq<Item>, h: nat, v: seq<bool>)
    requires h < |items| && |v| == |items|
    ensures WithBits(items[h := items[h].(visited := false)], v) == WithBits(items, v)
  {
  }

  lemma OwnBits(items: seq<Item>)
    ensures WithBits(items, Bits(items)) == items
  {
  }

  lemma ClearedItems(s: State, u: State, h: nat)
    requires Clean(s) && h < |s.order|
    requires s.order[h] in s.entries && u == s.(entries := s.entries[s.order[h] := s.entries[s.order[h]].(visited := false)], hand := h + 1)
    ensures Clean(u) && ItemsOf(u) == ItemsOf(s)[h := ItemsOf(s)[h].(visited := false)]
    ensures Bits(ItemsOf(u)) == Bits(ItemsOf(s))[h := false]
  {
    var b := ItemsOf(s)[h := ItemsOf(s)[h].(visited := false)];
    forall i | 0 <= i < |s.order| ensures ItemsOf(u)[i] == b[i] {
      if i != h { assert s.order[i] != s.order[h]; }
    }
    assert ItemsOf(u) == b;
  }

  ghost function Dropping(s: State, h: nat): State
    requires h < |s.order|
  {
    DropAt(s.(entries := s.entries - {s.order[h]}), h)
  }

  lemma DroppedClean(s: State, h: nat)
    requires Clean(s) && h < |s.order|
    ensures Clean(Dropping(s, h)) && HandSettled(Dropping(s, h))
    ensures Wrapped(Dropping(s, h)) == if h + 1 == |s.order| then 0 else h
  {
    RemoveAtFacts(s.order, h);
  }

  lemma DroppedItem(s: State, h: nat, i: nat)
    requires Clean(s) && h < |s.order| && Clean(Dropping(s, h)) && i + 1 < |s.order|
    ensures ItemsOf(Dropping(s, h))[i] == RemoveAt(ItemsOf(s), h)[i]
  {
    var k := if i < h then i else i + 1;
    assert Dropping(s, h).order[i] == s.order[k];
    assert s.order[k] != s.order[h];
  }

  lemma DroppedItems(s: State, h: nat)
    requires Clean(s) && h < |s.order|
    ensures var t := DropAt(s.(entries := s.entries - {s.order[h]}), h);
            Clean(t) && HandSettled(t) && QueueOf(t) == DropItem(ItemsOf(s), h)
  {
    hide Clean, HandSettled, ItemsOf;
    DroppedClean(s, h);
    forall i | 0 <= i < |s.order| - 1
      ensures ItemsOf(Dropping(s, h))[i] == RemoveAt(ItemsOf(s), h)[i]
    {
      DroppedItem(s, h, i);
    }
    assert ItemsOf(Dropping(s, h)) == RemoveAt(ItemsOf(s), h);
  }

  /** Making room evicts as the queue does, once. */
  lemma MakeRoomIsQueueEvict(s: State)
    requires Steady(s) && |s.entries| >= s.capacity
    ensures QueueOf(s).items != []
    ensures Clean(MakeRoom(s)) && HandSettled(MakeRoom(s)) && QueueOf(MakeRoom(s)) == QueueEvict(QueueOf(s))
  {
    hide EvictScan, Scan, ItemsOf, Bits, WithBits, Clean, Covered, UpTo, DropItem;
    OrderSize(s);
    QueueScanStops(QueueOf(s));
    EvictScanIsQueueScan(s, 0);
    EvictOneSpec(s);
    OneRound(s);
  }

  lemma PushAtEnd(s: State, key: Bytes, value: Bytes, now: nat)
    requires Clean(s) && key !in s.entries
    ensures var t, q := PushBack(s, key, value, now), QueueOf(s);
            Clean(t) && ItemsOf(t) == q.items + [Item(key, value, false)]
            && (s.hand < |s.order| || s.hand == 0 ==> QueueOf(t).hand == q.hand)
  {
    PushClean(s, key, value, now);
    var t := PushBack(s, key, value, now);
    assert forall i :: 0 <= i < |s.order| ==> t.order[i] == s.order[i] && s.order[i] != key;
    assert ItemsOf(t) == ItemsOf(s) + [Item(key, value, false)];
  }

  lemma PositionIsMember(s: State, key: Bytes)
    requires Clean(s)
    ensures var p := Position(ItemsOf(s), key);
            if key in s.entries then p < |s.order| && s.order[p] == key else p == |s.order|
  {
    if key in s.entries {
      var i :| 0 <= i < |s.order| && s.order[i] == key;
      assert ItemsOf(s)[i].key == key;
    }
  }

  lemma MarkIsMark(s: State, p: nat)
    requires Clean(s) && p < |s.order|
    ensures var t, q := s.(entries := s.entries[s.order[p] := s.entries[s.order[p]].(visited := true)]), QueueOf(s);
            Clean(t) && QueueOf(t) == q.(items := q.items[p := q.items[p].(visited := true)])
  {
    var t := s.(entries := s.entries[s.order[p] := s.entries[s.order[p]].(visited := true)]);
    var b := ItemsOf(s)[p := ItemsOf(s)[p].(visited := true)];
    forall i | 0 <= i < |s.order| ensures ItemsOf(t)[i] == b[i] {
      if i != p { assert s.order[i] != s.order[p]; }
    }
    assert ItemsOf(t) == b;
  }

  /** A call on a shard is a call on its queue. */
  lemma MemoryCallIsQueueCall(s: State, key: Bytes, value: Bytes, now: nat)
    requires Steady(s) && HandSettled(s)
    ensures var (r, t) := MemoryCall(s, key, value, now);
            && Steady(t) && HandSettled(t) && t.capacity == s.capacity
            && (r, QueueOf(t)) == QueueCall(QueueOf(s), s.capacity, key, value)
  {
    hide Clean, Bounded, MakeRoom, ItemsOf, Wrapped, QueueEvict, Position;
    PositionIsMember(s, key);
    ProbeSpec(s, None, key, now);
    OrderSize(s);
    if key in s.entries {
      var p := Position(QueueOf(s).items, key);
      MarkIsMark(s, p);
      KeepsSteady(s, Probe(s, None, key, now).1);
    } else {
      StoreIsQueuePush(s, key, value, now);
    }
  }

  lemma KeepsSteady(s: State, t: State)
    requires t.order == s.order && t.hand == s.hand && HandSettled(s)
    ensures HandSettled(t)
  {
  }

  lemma StoreIsQueuePush(s: State, key: Bytes, value: Bytes, now: nat)
    requires Steady(s) && HandSettled(s) && key !in s.entries
    ensures var t := Store(s, None, key, value, now);
            var q := if |s.order| >= s.capacity then QueueEvict(QueueOf(s)) else QueueOf(s);
            && Steady(t) && HandSettled(t) && t.capacity == s.capacity
            && QueueOf(t) == q.(items := q.items + [Item(key, value, false)])
  {
    hide MakeRoom, ItemsOf, QueueEvict;
    OrderSize(s);
    assert s.(entries := s.entries - {key}) == s;
    StoreSpec(s, None, key, value, now);
    MakeRoomSpec(s);
    if |s.entries| >= s.capacity { MakeRoomIsQueueEvict(s); }
    PushAtEnd(MakeRoom(s), key, value, now);
  }

}

/** The shared cache beside one shard of the same capacity, without time-to-live: what keeps them alike. */
module Bisimulation {
  import opened Layout
  import opened Slabs
  import opened SieveQueues
  import S = SharedIsQueue
  import M = ShardIsQueue
  import SM = ShardModel
  import ST = ShardTheorems

  /** What callers ask for: whole calls, look-ups and sets (of which async calls consist), and clears. */
  datatype Request =
    | Call(key: Bytes, value: Bytes, now: nat)
    | Look(key: Bytes, now: nat)
    | Assign(key: Bytes, value: Bytes, now: nat)
    | ClearAll

  /** Both are the same queue: the same keys and values in the same order, the same visited bits, the same next victim. */
  ghost predicate Alike(s: Slab, m: M.State) {
    && S.Steady(s) && (s.order == [] ==> s.hand == SLOT_NONE)
    && M.Steady(m) && M.HandSettled(m)
    && m.capacity == |s.cells|
    && S.QueueOf(s) == M.QueueOf(m)
  }

  ghost function SharedStep(s: Slab, r: Request): (Option<Bytes>, Slab)
    requires WF(s)
  {
    match r
    case Call(k, v, now) => S.SharedCall(s, k, v, now)
    case Look(k, now) => (var (r, t) := Get(s, k, now); (if r.Found? then Some(r.value) else None, t))
    case Assign(k, v, now) => (None, Insert(s, k, v, now, []))
    case ClearAll => (None, Clear(s))
  }

  ghost function MemoryStep(m: M.State, r: Request): (Option<Bytes>, M.State)
    requires SM.Covered(m)
  {
    match r
    case Call(k, v, now) => M.MemoryCall(m, k, v, now)
    case Look(k, now) => SM.Probe(m, None, k, now)
    case Assign(k, v, now) => (None, SM.SetValue(m, k, v, now))
    case ClearAll => (None, SM.Cleared(m))
  }

  /** The present keys are the same. */
  lemma SameKeys(s: Slab, m: M.State, key: Bytes)
    requires Alike(s, m)
    ensures key in m.entries <==> Find(s, key) != SLOT_NONE
    ensures var p := Position(S.ItemsOf(s.order, s.cells), key);
            key in m.entries ==> p < |s.order| == |m.order| && s.order[p] == Find(s, key) && m.order[p] == key
  {
    S.PositionIsFind(s.order, s.cells, key);
    M.PositionIsMember(m, key);
    assert M.QueueOf(m).items == M.ItemsOf(m);
  }

  lemma LookAlike(s: Slab, m: M.State, key: Bytes, now: nat)
    requires Alike(s, m)
    ensures var (a, s'), (b, m') := SharedStep(s, Look(key, now)), MemoryStep(m, Look(key, now)); a == b && Alike(s', m')
  {
    hide Insert, M.QueueOf, M.Steady, QueueCall;
    SameKeys(s, m, key);
    if key in m.entries {
      S.SharedCallIsQueueCall(s, key, [], now);
      M.MemoryCallIsQueueCall(m, key, [], now);
    } else {
      assert S.QueueOf(CountMiss(s)) == S.QueueOf(s);
    }
  }

  /** A set of a key that neither has is the miss of a call. */
  lemma NewKeyAlike(s: Slab, m: M.State, key: Bytes, value: Bytes, now: nat)
    requires Alike(s, m) && key !in m.entries
    ensures Alike(Insert(s, key, value, now, []), SM.SetValue(m, key, value, now))
  {
    hide S.QueueOf, S.ItemsOf, M.QueueOf, M.ItemsOf, M.Steady, QueueEvict;
    SameKeys(s, m, key);
    M.StoreIsQueuePush(m, key, value, now);
    assert m.(entries := m.entries - {key}) == m;
    InsertIsQueuePush(s, key, value, now);
    QueueSizes(s, m);
  }

  lemma QueueSizes(s: Slab, m: M.State)
    requires Alike(s, m)
    ensures |s.order| == |m.order| && (s.free == [] <==> |m.order| >= m.capacity)
  {
    SlotCount(s);
    assert |S.QueueOf(s).items| == |s.order| && |M.QueueOf(m).items| == |m.order|;
  }

  lemma InsertIsQueuePush(s: Slab, key: Bytes, value: Bytes, now: nat)
    requires S.Steady(s) && (s.order == [] ==> s.hand == SLOT_NONE) && Find(s, key) == SLOT_NONE
    ensures s.free == [] ==> S.QueueOf(s).items != [] && HandIn(S.QueueOf(s))
    ensures var t := Insert(s, key, value, now, []);
            var q := if s.free == [] then QueueEvict(S.QueueOf(s)) else S.QueueOf(s);
            && S.Steady(t) && t.order != [] && |t.cells| == |s.cells|
            && S.QueueOf(t) == q.(items := q.items + [Item(key, value, false)])
  {
    hide S.QueueOf, QueueEvict;
    if s.free != [] { S.PushAtEnd(s, key, value, now); } else { S.EvictAndPush(s, key, value, now); }
  }

  /** Setting a key that is present is where shard and shared cache part: the shared one leaves the entry visited, the
      in-process one unvisited. */
  lemma SetsDiffer(s: Slab, m: M.State, key: Bytes, value: Bytes, now: nat)
    requires Alike(s, m) && key in m.entries
    ensures Find(s, key) != SLOT_NONE
    ensures var t := Insert(s, key, value, now, []); t.cells[Find(s, key)].visited
    ensures !SM.SetValue(m, key, value, now).entries[key].visited
    ensures !Alike(Insert(s, key, value, now, []), SM.SetValue(m, key, value, now))
  {
    SameKeys(s, m, key);
    var p := Position(S.ItemsOf(s.order, s.cells), key);
    PartedBits(Insert(s, key, value, now, []), SM.SetValue(m, key, value, now), p);
  }

  lemma PartedBits(t: Slab, n: M.State, p: nat)
    requires p < |t.order| && 0 <= t.order[p] < |t.cells| && t.cells[t.order[p]].visited
    requires p < |n.order| && n.order[p] in n.entries && !n.entries[n.order[p]].visited
    ensures !Alike(t, n)
  {
    if S.Steady(t) && ST.Clean(n) { assert S.QueueOf(t).items[p].visited != M.QueueOf(n).items[p].visited; }
  }

  /** A set keeps the two alike exactly when its key is absent. */
  lemma SetAlikeIff(s: Slab, m: M.State, key: Bytes, value: Bytes, now: nat)
    requires Alike(s, m)
    ensures Alike(Insert(s, key, value, now, []), SM.SetValue(m, key, value, now)) <==> key !in m.entries
  {
    if key in m.entries { SetsDiffer(s, m, key, value, now); } else { NewKeyAlike(s, m, key, value, now); }
  }

  /** Every request but a set of a present key. */
  ghost predicate Neutral(m: M.State, r: Request) {
    r.Assign? ==> r.key !in m.entries
  }

  /** Neutral requests, and only they, keep equal queues equal; their answers are equal too. */
  lemma StepAlike(s: Slab, m: M.State, r: Request)
    requires Alike(s, m)
    ensures var (a, s'), (b, m') := SharedStep(s, r), MemoryStep(m, r); a == b && (Alike(s', m') <==> Neutral(m, r))
  {
    hide S.QueueOf, M.QueueOf, QueueCall, S.SharedCall, M.MemoryCall, Insert, Get, SM.Probe, SM.SetValue;
    hide Clear, SM.Cleared, S.Steady, M.Steady;
    match r
    case Call(k, v, now) =>
      S.SharedCallIsQueueCall(s, k, v, now);
      M.MemoryCallIsQueueCall(m, k, v, now);
    case Look(k, now) => LookAlike(s, m, k, now);
    case Assign(k, v, now) => SetAlikeIff(s, m, k, v, now);
    case ClearAll => ClearAlike(s, m);
  }

  lemma ClearAlike(s: Slab, m: M.State)
    requires Alike(s, m)
    ensures Alike(Clear(s), SM.Cleared(m))
  {
    hide WF, QueueCall;
    ClearWF(s);
    assert S.ItemsOf(Clear(s).order, Clear(s).cells) == [] == M.ItemsOf(SM.Cleared(m));
  }

  ghost function SharedAnswers(s: Slab, rs: seq<Request>): (seq<Option<Bytes>>, Slab)
    requires WF(s)
    decreases |rs|
  {
    if rs == [] then ([], s)
    else
      var (a, t) := SharedStep(s, rs[0]);
      StepWF(s, rs[0]);
      var (rest, u) := SharedAnswers(t, rs[1..]);
      ([a] + rest, u)
  }

  lemma StepWF(s: Slab, r: Request)
    requires WF(s)
    ensures WF(SharedStep(s, r).1)
  {
    match r
    case Call(k, v, now) =>
      GetWF(s, k, now);
      InsertWF(Get(s, k, now).1, k, v, now, []);
    case Look(k, now) => GetWF(s, k, now);
    case Assign(k, v, now) => InsertWF(s, k, v, now, []);
    case ClearAll => ClearWF(s);
  }

  ghost function MemoryAnswers(m: M.State, rs: seq<Request>): (seq<Option<Bytes>>, M.State)
    requires ST.Bounded(m)
    decreases |rs|
  {
    if rs == [] then ([], m)
    else
      var (a, t) := MemoryStep(m, rs[0]);
      StepBounded(m, rs[0]);
      var (rest, u) := MemoryAnswers(t, rs[1..]);
      ([a] + rest, u)
  }

  lemma StepBounded(m: M.State, r: Request)
    requires ST.Bounded(m)
    ensures ST.Bounded(MemoryStep(m, r).1)
  {
    match r
    case Call(k, v, now) =>
      ST.ProbeSpec(m, None, k, now);
      ST.StoreSpec(SM.Probe(m, None, k, now).1, None, k, v, now);
    case Look(k, now) => ST.ProbeSpec(m, None, k, now);
    case Assign(k, v, now) => ST.SetSpec(m, k, v, now);
    case ClearAll =>
  }

  /** No request of the run sets a key that is present at that time. */
  ghost predicate AllNeutral(m: M.State, rs: seq<Request>)
    requires ST.Bounded(m)
    decreases |rs|
  {
    StepBoundedIfAny(m, rs);
    rs == [] || (Neutral(m, rs[0]) && AllNeutral(MemoryStep(m, rs[0]).1, rs[1..]))
  }

  lemma StepBoundedIfAny(m: M.State, rs: seq<Request>)
    requires ST.Bounded(m)
    ensures rs != [] ==> ST.Bounded(MemoryStep(m, rs[0]).1)
  {
    if rs != [] { StepBounded(m, rs[0]); }
  }

  /** The two are alike before, between and after the requests. */
  ghost predicate AlikeThroughout(s: Slab, m: M.State, rs: seq<Request>)
    requires WF(s) && ST.Bounded(m)
    decreases |rs|
  {
    StepBoundedIfAny(m, rs);
    StepWFIfAny(s, rs);
    Alike(s, m) && (rs == [] || AlikeThroughout(SharedStep(s, rs[0]).1, MemoryStep(m, rs[0]).1, rs[1..]))
  }

  lemma StepWFIfAny(s: Slab, rs: seq<Request>)
    requires WF(s)
    ensures rs != [] ==> WF(SharedStep(s, rs[0]).1)
  {
    if rs != [] { StepWF(s, rs[0]); }
  }

  lemma {:induction false} AnswersAlike(s: Slab, m: M.State, rs: seq<Request>)
    requires Alike(s, m) && WF(s) && ST.Bounded(m)
    ensures AlikeThroughout(s, m, rs) <==> AllNeutral(m, rs)
    ensures AllNeutral(m, rs) ==>
              var (a, s'), (b, m') := SharedAnswers(s, rs), MemoryAnswers(m, rs); a == b && Alike(s', m')
    decreases |rs|
  {
    hide Alike, SharedStep, MemoryStep;
    if rs != [] {
      StepAlike(s, m, rs[0]);
      StepWF(s, rs[0]);
      StepBounded(m, rs[0]);
      if Neutral(m, rs[0]) {
        AnswersAlike(SharedStep(s, rs[0]).1, MemoryStep(m, rs[0]).1, rs[1..]);
      } else {
        NotAlikeThroughout(SharedStep(s, rs[0]).1, MemoryStep(m, rs[0]).1, rs[1..]);
      }
    }
  }

  lemma NotAlikeThroughout(s: Slab, m: M.State, rs: seq<Request>)
    requires WF(s) && ST.Bounded(m) && !Alike(s, m)
    ensures !AlikeThroughout(s, m, rs)
  {
  }

  lemma EmptyAlike(capacity: nat)
    requires capacity > 0
    ensures WF(Create(capacity, 0)) && ST.Bounded(SM.NewShard<Bytes, Bytes>(capacity))
    ensures Alike(Create(capacity, 0), SM.NewShard(capacity))
  {
    CreateWF(capacity, 0);
    var s, m := Create(capacity, 0), SM.NewShard<Bytes, Bytes>(capacity);
    assert S.QueueOf(s) == Queue([], 0) == M.QueueOf(m);
  }

  /** From an empty shard and an empty shared cache of its capacity, every run of calls, look-ups, sets of absent keys and clears gets the same
      hits, misses and values from both, and leaves them with the same entries, visited bits and next victim. */
  lemma OneShardAgrees(capacity: nat, rs: seq<Request>)
    requires capacity > 0
    ensures WF(Create(capacity, 0)) && ST.Bounded(SM.NewShard<Bytes, Bytes>(capacity))
    ensures AllNeutral(SM.NewShard(capacity), rs) ==>
              var (a, s), (b, m) := SharedAnswers(Create(capacity, 0), rs), MemoryAnswers(SM.NewShard(capacity), rs);
              a == b && Alike(s, m)
  {
    EmptyAlike(capacity);
    AnswersAlike(Create(capacity, 0), SM.NewShard(capacity), rs);
  }

  /** And only these runs keep them alike all the way: a set of a present key tells them apart at once. */
  lemma OneShardAgreesIff(capacity: nat, rs: seq<Request>)
    requires capacity > 0
    ensures WF(Create(capacity, 0)) && ST.Bounded(SM.NewShard<Bytes, Bytes>(capacity))
    ensures AlikeThroughout(Create(capacity, 0), SM.NewShard(capacity), rs) <==> AllNeutral(SM.NewShard(capacity), rs)
  {
    EmptyAlike(capacity);
    AnswersAlike(Create(capacity, 0), SM.NewShard(capacity), rs);
  }
}

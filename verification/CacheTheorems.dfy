/** What the shared cache does as a bounded map with time-to-live, for every state and every run. */
module CacheTheorems {
  import opened Layout
  import opened Collections
  import opened HashTable
  import opened Sieve
  import opened Ordering
  import opened Slabs

  datatype Stored = Stored(value: Bytes, created: nat)

  type Contents = map<Bytes, Stored>

  ghost function KeySet(s: Slab): set<Bytes> {
    set x | x in s.order && 0 <= x < |s.cells| :: s.cells[x].key
  }

  /** The map that the cache stands for. */
  ghost function ContentsOf(s: Slab): Contents {
    map k | k in KeySet(s) && Find(s, k) != SLOT_NONE :: Stored(s.cells[Find(s, k)].value, s.cells[Find(s, k)].created)
  }

  lemma ContentsAt(s: Slab, k: Bytes)
    requires WF(s)
    ensures k in ContentsOf(s) <==> Find(s, k) != SLOT_NONE
    ensures k in ContentsOf(s) ==> ContentsOf(s)[k] == Stored(s.cells[Find(s, k)].value, s.cells[Find(s, k)].created)
  {
    var x := Find(s, k);
    if x != SLOT_NONE { assert s.cells[x].key in KeySet(s); }
  }

  lemma ContentsOfSlot(s: Slab, x: int)
    requires WF(s) && x in s.order
    ensures 0 <= x < |s.cells| && s.cells[x].key in ContentsOf(s)
    ensures ContentsOf(s)[s.cells[x].key] == Stored(s.cells[x].value, s.cells[x].created)
  {
    FindUnique(s, x);
    ContentsAt(s, s.cells[x].key);
  }

  /** Two states hold the same under k when the same listed cell answers for it. */
  lemma SameAnswer(s: Slab, t: Slab, k: Bytes)
    requires WF(s) && WF(t) && |s.cells| == |t.cells|
    requires forall x :: 0 <= x < |s.cells| && s.cells[x].key == k && x in s.order ==>
               x in t.order && t.cells[x].key == k && t.cells[x].value == s.cells[x].value && t.cells[x].created == s.cells[x].created
    requires forall x :: 0 <= x < |s.cells| && t.cells[x].key == k && x in t.order ==> x in s.order && s.cells[x].key == k
    ensures k in ContentsOf(t) <==> k in ContentsOf(s)
    ensures k in ContentsOf(s) ==> ContentsOf(t)[k] == ContentsOf(s)[k]
  {
    ContentsAt(s, k);
    ContentsAt(t, k);
    if Find(s, k) != SLOT_NONE { ContentsOfSlot(t, Find(s, k)); }
  }

  ghost function KeysOf(s: Slab): (keys: seq<Bytes>)
    requires Listed(s.order, |s.cells|)
    ensures |keys| == |s.order|
  {
    seq(|s.order|, i requires 0 <= i < |s.order| => s.cells[s.order[i]].key)
  }

  lemma KeysOfFacts(s: Slab)
    requires WF(s)
    ensures Listed(s.order, |s.cells|) && Distinct(KeysOf(s))
  {
    forall i | 0 <= i < |s.order| ensures 0 <= s.order[i] < |s.cells| {
      assert s.order[i] in s.order;
    }
    forall p, q | 0 <= p < q < |s.order| ensures KeysOf(s)[p] != KeysOf(s)[q] {
      assert s.order[p] in s.order && s.order[q] in s.order;
    }
  }

  lemma KeyIsListed(s: Slab, k: Bytes)
    requires WF(s) && Listed(s.order, |s.cells|)
    ensures k in KeysOf(s) <==> k in ContentsOf(s)
  {
    ContentsAt(s, k);
    if k in KeysOf(s) {
      var p :| 0 <= p < |s.order| && KeysOf(s)[p] == k;
      assert s.order[p] in s.order;
      ContentsOfSlot(s, s.order[p]);
    }
    if Find(s, k) != SLOT_NONE {
      var p :| 0 <= p < |s.order| && s.order[p] == Find(s, k);
      assert KeysOf(s)[p] == k;
    }
  }

  /** The number of keys is the length of the eviction list. */
  lemma ContentsSize(s: Slab)
    requires WF(s)
    ensures |ContentsOf(s)| == |s.order| <= |s.cells|
  {
    hide WF, ContentsOf, Listed, KeysOf, Distinct;
    SlotCount(s);
    KeysOfFacts(s);
    ElementsSize(KeysOf(s));
    forall k ensures k in Elements(KeysOf(s)) <==> k in ContentsOf(s).Keys {
      KeyIsListed(s, k);
    }
    assert Elements(KeysOf(s)) == ContentsOf(s).Keys;
  }

  // ---------------------------------------------------------------- single operations

  lemma MarkSpec(s: Slab, slot: nat)
    requires WF(s) && slot < |s.cells|
    ensures WF(Mark(s, slot)) && ContentsOf(Mark(s, slot)) == ContentsOf(s)
  {
    MarkWF(s, slot);
    forall k ensures k in ContentsOf(Mark(s, slot)) <==> k in ContentsOf(s)
             ensures k in ContentsOf(s) ==> ContentsOf(Mark(s, slot))[k] == ContentsOf(s)[k]
    {
      SameAnswer(s, Mark(s, slot), k);
    }
  }

  lemma RemoveAnswer(s: Slab, slot: int, k: Bytes)
    requires WF(s) && slot in s.order && 0 <= slot < |s.cells| && WF(Remove(s, slot))
    requires forall x :: x in Remove(s, slot).order <==> x in s.order && x != slot
    ensures k in ContentsOf(Remove(s, slot)) <==> k in ContentsOf(s) && k != s.cells[slot].key
    ensures k in ContentsOf(Remove(s, slot)) ==> ContentsOf(Remove(s, slot))[k] == ContentsOf(s)[k]
  {
    hide ContentsOf, Partition;
    if k != s.cells[slot].key {
      SameAnswer(s, Remove(s, slot), k);
    } else {
      ContentsAt(Remove(s, slot), k);
    }
  }

  lemma RemoveSpec(s: Slab, slot: int)
    requires WF(s) && slot in s.order
    ensures 0 <= slot < |s.cells|
    ensures WF(Remove(s, slot)) && ContentsOf(Remove(s, slot)) == ContentsOf(s) - {s.cells[slot].key}
  {
    hide ContentsOf, WF, Remove;
    RemoveWF(s, slot);
    FindUnique(s, slot);
    forall k ensures k in ContentsOf(Remove(s, slot)) <==> k in ContentsOf(s) && k != s.cells[slot].key
             ensures k in ContentsOf(Remove(s, slot)) ==> ContentsOf(Remove(s, slot))[k] == ContentsOf(s)[k]
    {
      RemoveAnswer(s, slot, k);
    }
  }

  /** The write phase of an expired get takes away its own key, if the slot still holds it, and nothing else.
      It does so whatever the age of the entry. */
  lemma ReapSpec(s: Slab, slot: nat, key: Bytes)
    requires WF(s) && slot < |s.cells|
    ensures WF(Reap(s, slot, key))
    ensures ContentsOf(Reap(s, slot, key)) ==
            if slot in s.order && s.cells[slot].key == key then ContentsOf(s) - {key} else ContentsOf(s)
  {
    ReapWF(s, slot, key);
    if slot in s.order && s.cells[slot].key == key { RemoveSpec(s, slot); }
  }

  /** Counters and the hand do not matter for what is stored. */
  lemma SameStore(s: Slab, t: Slab)
    requires s.order == t.order && s.cells == t.cells
    ensures ContentsOf(s) == ContentsOf(t)
  {
    assert KeySet(s) == KeySet(t);
  }

  /** A get answers from the map, deletes its key exactly when that is expired, and counts one hit or one miss. */
  lemma GetSpec(s: Slab, key: Bytes, now: nat)
    requires WF(s)
    ensures var c, (r, t) := ContentsOf(s), Get(s, key, now);
            var expired := key in c && IsExpired(s.ttl, now, c[key].created);
            && WF(t)
            && r == (if key in c && !expired then Found(c[key].value) else NotFound)
            && ContentsOf(t) == (if expired then c - {key} else c)
            && t.hits == s.hits + (if r.Found? then 1 else 0)
            && t.misses == s.misses + (if r.Found? then 0 else 1)
  {
    hide ContentsOf, WF, FindIn, RemoveAt, IndexOf;
    GetWF(s, key, now);
    ContentsAt(s, key);
    match Peek(s, key, now)
    case Hit(_, slot) =>
      FoundInRange(s, key);
      MarkSpec(s, slot);
      SameStore(CountHit(Mark(s, slot)), Mark(s, slot));
    case Miss =>
      SameStore(CountMiss(s), s);
    case Expired(slot) =>
      FoundInRange(s, key);
      ReapSpec(s, slot, key);
      SameStore(CountMiss(Reap(s, slot, key)), Reap(s, slot, key));
  }

  /** When an entry is too old: without a time-to-live never, with one as soon as more time than that has passed since
      its creation. A clock that runs behind the creation does not expire it. */
  lemma ExpiredWhen(ttl: nat, now: nat, created: nat)
    ensures IsExpired(ttl, now, created) <==> ttl > 0 && now > created + ttl
  {
  }

  /** A stored key is hit exactly while its time-to-live lasts, with its value; then the entry is marked visited, and
      nothing else changes but the counter. After that it misses, and the key is gone. */
  lemma GetInTime(s: Slab, key: Bytes, now: nat)
    requires WF(s) && key in ContentsOf(s)
    ensures var e, (r, t) := ContentsOf(s)[key], Get(s, key, now);
            && (r == Found(e.value) <==> s.ttl == 0 || now <= e.created + s.ttl)
            && (s.ttl == 0 || now <= e.created + s.ttl ==> key in ContentsOf(t))
            && (s.ttl > 0 && now > e.created + s.ttl ==> r == NotFound && key !in ContentsOf(t))
  {
    hide ContentsOf, WF, FindIn;
    GetSpec(s, key, now);
  }

  /** The whole state after a get: only a hit touches a cell, and there only the visited bit. */
  lemma GetWhole(s: Slab, key: Bytes, now: nat, x: nat)
    requires WF(s) && x in s.order && x < |s.cells| && s.cells[x].key == key
    ensures var t := Get(s, key, now).1;
            && t.ttl == s.ttl && t.hand == s.hand && t.skips == s.skips && |t.cells| == |s.cells|
            && (forall y :: 0 <= y < |s.cells| && y != x ==> t.cells[y] == s.cells[y])
            && if s.ttl == 0 || now <= s.cells[x].created + s.ttl then
                 && t.order == s.order && t.free == s.free
                 && t.cells[x] == s.cells[x].(visited := true) && t.hits == s.hits + 1 && t.misses == s.misses
               else
                 && t.cells[x] == s.cells[x] && t.hits == s.hits && t.misses == s.misses + 1
                 && t.free == [x] + s.free
                 && exists i: nat :: i < |s.order| && s.order[i] == x && t.order == s.order[..i] + s.order[i + 1..]
  {
    FindUnique(s, x);
    var i := IndexOf(s.order, x);
    assert s.order[i] == x;
  }

  lemma MissWhole(s: Slab, key: Bytes, now: nat)
    requires WF(s) && forall x :: x in s.order && 0 <= x < |s.cells| ==> s.cells[x].key != key
    ensures Get(s, key, now) == (NotFound, s.(misses := s.misses + 1))
  {
    if Find(s, key) != SLOT_NONE { FoundInRange(s, key); }
  }

  /** What a new entry does to the map, when its slot may have held a victim that was dropped from s to get t. */
  ghost predicate Dropped(s: Slab, t: Slab, slot: int, key: Bytes) {
    && WF(s) && Pushable(t, slot, key) && |t.cells| == |s.cells|
    && (forall x :: x in t.order ==> x in s.order)
    && (forall x :: x in s.order && x !in t.order ==> x == slot)
    && (forall x :: 0 <= x < |s.cells| ==> t.cells[x] == s.cells[x].(visited := t.cells[x].visited))
    && Find(s, key) == SLOT_NONE
  }

  lemma PushAnswer(s: Slab, t: Slab, slot: int, key: Bytes, value: Bytes, now: nat, k: Bytes)
    requires Dropped(s, t, slot, key) && WF(Push(t, slot, key, value, now)) && k != key
    ensures var u := Push(t, slot, key, value, now);
            && (k in ContentsOf(u) <==> k in ContentsOf(s) && !(slot in s.order && k == s.cells[slot].key))
            && (k in ContentsOf(u) ==> ContentsOf(u)[k] == ContentsOf(s)[k])
  {
    hide ContentsOf, Partition, FindIn;
    var u := Push(t, slot, key, value, now);
    assert forall x :: x in u.order <==> x in t.order || x == slot;
    if slot in s.order && k == s.cells[slot].key {
      ContentsAt(u, k);
      if Find(u, k) != SLOT_NONE {
        FoundInRange(u, k);
        assert false;
      }
    } else {
      SameAnswer(s, u, k);
    }
  }

  lemma PushSpec(s: Slab, t: Slab, slot: int, key: Bytes, value: Bytes, now: nat)
    requires Dropped(s, t, slot, key)
    ensures 0 <= slot < |t.cells| == |s.cells| && WF(Push(t, slot, key, value, now))
    ensures ContentsOf(Push(t, slot, key, value, now)) ==
            (if slot in s.order then ContentsOf(s) - {s.cells[slot].key} else ContentsOf(s))[key := Stored(value, now)]
  {
    hide ContentsOf, WF, KeysDistinct;
    PushWF(t, slot, key, value, now);
    var u := Push(t, slot, key, value, now);
    ContentsAt(s, key);
    assert u.order[|t.order|] == slot;
    ContentsOfSlot(u, slot);
    forall k | k != key
      ensures k in ContentsOf(u) <==> k in ContentsOf(s) && !(slot in s.order && k == s.cells[slot].key)
      ensures k in ContentsOf(u) ==> ContentsOf(u)[k] == ContentsOf(s)[k]
    {
      PushAnswer(s, t, slot, key, value, now, k);
    }
  }

  /** An insert adds or replaces its key. It loses another key only when its own was new and the cache full, and
      then exactly one: the victim of the SIEVE scan. */
  lemma InsertSpec(s: Slab, key: Bytes, value: Bytes, now: nat, marks: Marks)
    requires WF(s)
    ensures var c, t := ContentsOf(s), Insert(s, key, value, now, marks);
            && WF(t)
            && (key in c || |c| < |s.cells| ==> ContentsOf(t) == c[key := Stored(value, now)])
            && (key !in c && |c| == |s.cells| ==>
                  CanEvict(s) && var v := s.cells[Victim(s, marks)].key;
                  v in c && ContentsOf(t) == (c - {v})[key := Stored(value, now)])
  {
    hide ContentsOf, WF, KeysDistinct, Partition, FindIn;
    InsertWF(s, key, value, now, marks);
    ContentsAt(s, key);
    ContentsSize(s);
    SlotCount(s);
    if Find(s, key) != SLOT_NONE {
      FoundInRange(s, key);
      UpdateSpec(s, Find(s, key), value, now);
    } else if s.free != [] {
      PopDropped(s, key);
      PushSpec(s, s.(free := s.free[1..]), s.free[0], key, value, now);
    } else {
      EvictDropped(s, marks, key);
      PushSpec(s, Evict(s, marks), Victim(s, marks), key, value, now);
      ContentsOfSlot(s, Victim(s, marks));
    }
  }

  lemma PopDropped(s: Slab, key: Bytes)
    requires WF(s) && s.free != [] && Find(s, key) == SLOT_NONE
    ensures Dropped(s, s.(free := s.free[1..]), s.free[0], key) && s.free[0] !in s.order
  {
    assert s.free[0] in s.free;
    PopPushable(s, key);
  }

  lemma EvictDropped(s: Slab, marks: Marks, key: Bytes)
    requires WF(s) && s.free == [] && Find(s, key) == SLOT_NONE
    ensures CanEvict(s) && Dropped(s, Evict(s, marks), Victim(s, marks), key)
  {
    FullListHasHand(s);
    EvictPushable(s, marks, key);
  }

  lemma UpdateSpec(s: Slab, x: int, value: Bytes, now: nat)
    requires WF(s) && x in s.order
    ensures 0 <= x < |s.cells|
    ensures ContentsOf(Update(s, x, value, now)) == ContentsOf(s)[s.cells[x].key := Stored(value, now)]
  {
    hide ContentsOf;
    UpdateWF(s, x, value, now);
    var t := Update(s, x, value, now);
    ContentsOfSlot(s, x);
    ContentsOfSlot(t, x);
    forall k | k != s.cells[x].key
      ensures k in ContentsOf(t) <==> k in ContentsOf(s)
      ensures k in ContentsOf(t) ==> ContentsOf(t)[k] == ContentsOf(s)[k]
    {
      SameAnswer(s, t, k);
    }
  }

  lemma ClearSpec(s: Slab)
    requires WF(s)
    ensures WF(Clear(s)) && ContentsOf(Clear(s)) == map[]
  {
    ClearWF(s);
  }

  // ---------------------------------------------------------------- the victim

  /** Nobody interfering, the victim is the first unvisited entry in cyclic list order from the hand, exactly the
      bits passed are cleared, and the hand comes to rest on the victim's successor. */
  lemma QuietEviction(s: Slab)
    requires WF(s) && s.free == []
    ensures CanEvict(s)
    ensures var r, i := EvictScan(s, []), StartIndex(s.order, s.hand);
            && r.found
            && FirstUnvisited(s.order, Vis(s.cells), i, r.index)
            && ClearedPassed(s.order, Vis(s.cells), i, r.index, r.vis)
            && Evict(s, []).hand == s.order[Step(r.index, |s.order|)]
  {
    FullListHasHand(s);
    QuietScan(s.order, Vis(s.cells), StartIndex(s.order, s.hand), 2 * |s.cells|);
  }

  /** The state after an insert of a listed key: its slot has the new value and time, and is marked visited. */
  lemma InsertPresent(s: Slab, key: Bytes, value: Bytes, now: nat, marks: Marks, x: nat)
    requires WF(s) && x in s.order && x < |s.cells| && s.cells[x].key == key
    ensures Insert(s, key, value, now, marks) == s.(cells := s.cells[x := Cell(key, value, now, true)])
  {
    FindUnique(s, x);
  }

  /** The state after an insert of a new key while a slot is free: the first free slot goes to the tail of the list, with
      the entry unvisited; the hand stays. */
  lemma InsertWithRoom(s: Slab, key: Bytes, value: Bytes, now: nat, marks: Marks)
    requires WF(s) && s.free != [] && forall x :: x in s.order && 0 <= x < |s.cells| ==> s.cells[x].key != key
    ensures 0 <= s.free[0] < |s.cells|
    ensures Insert(s, key, value, now, marks) ==
            s.(order := s.order + [s.free[0]], free := s.free[1..], cells := s.cells[s.free[0] := Cell(key, value, now, false)])
  {
    assert s.free[0] in s.free;
    if Find(s, key) != SLOT_NONE { FoundInRange(s, key); }
  }

  /** The hand stands at position i of the list: it is there, or it is unset and i is the head. */
  ghost predicate HandAt(s: Slab, i: nat) {
    i < |s.order| && (if s.hand == -1 then i == 0 else s.order[i] == s.hand)
  }

  /** The slot at position p gives way to a new entry, in a scan that began at position i: its slot moves to the tail with
      the entry unvisited, the hand goes on to its successor, and the entries passed have lost their bit. */
  ghost predicate Replaced(s: Slab, t: Slab, i: nat, p: nat, key: Bytes, value: Bytes, now: nat)
    requires Listed(s.order, |s.cells|) && i < |s.order|
  {
    && FirstUnvisited(s.order, Vis(s.cells), i, p)
    && t.order == s.order[..p] + s.order[p + 1..] + [s.order[p]]
    && t.free == s.free && t.hand == s.order[if p + 1 == |s.order| then 0 else p + 1]
    && t.ttl == s.ttl && t.hits == s.hits && t.misses == s.misses && t.skips == s.skips && |t.cells| == |s.cells|
    && forall y :: 0 <= y < |s.cells| ==>
         t.cells[y] == if y == s.order[p] then Cell(key, value, now, false)
                       else s.cells[y].(visited := s.cells[y].visited && !Passed(s.order, Vis(s.cells), i, p, y))
  }

  /** The state after an insert of a new key into a full cache that nobody disturbs. */
  lemma InsertFull(s: Slab, key: Bytes, value: Bytes, now: nat, i: nat)
    requires WF(s) && s.free == [] && forall x :: x in s.order && 0 <= x < |s.cells| ==> s.cells[x].key != key
    requires HandAt(s, i)
    ensures Listed(s.order, |s.cells|)
    ensures exists p: nat :: Replaced(s, Insert(s, key, value, now, []), i, p, key, value, now)
  {
    hide WF, FindIn, FirstUnvisited, ClearedPassed, Insert, EvictScan;
    if Find(s, key) != SLOT_NONE { FoundInRange(s, key); }
    FullListHasHand(s);
    QuietEviction(s);
    StartsAtHand(s, i);
    FullInsert(s, key, value, now);
    EvictReplaces(s, i, key, value, now);
  }

  lemma FullInsert(s: Slab, key: Bytes, value: Bytes, now: nat)
    requires WF(s) && s.free == [] && Find(s, key) == SLOT_NONE
    ensures CanEvict(s) && Insert(s, key, value, now, []) == Push(Evict(s, []), Victim(s, []), key, value, now)
  {
    FullListHasHand(s);
  }

  lemma EvictReplaces(s: Slab, i: nat, key: Bytes, value: Bytes, now: nat)
    requires CanEvict(s) && StartIndex(s.order, s.hand) == i
    requires var r := EvictScan(s, []);
             r.found && FirstUnvisited(s.order, Vis(s.cells), i, r.index) && ClearedPassed(s.order, Vis(s.cells), i, r.index, r.vis)
    ensures Replaced(s, Push(Evict(s, []), Victim(s, []), key, value, now), i, EvictScan(s, []).index, key, value, now)
  {
    hide EvictScan, FirstUnvisited, Passed;
  }

  lemma StartsAtHand(s: Slab, i: nat)
    requires WF(s) && HandAt(s, i) && CanEvict(s)
    ensures StartIndex(s.order, s.hand) == i
  {
    if s.hand != SLOT_NONE { IndexOfDistinct(s.order, i); }
  }

  /** The write phase of an expired get: nothing, or its slot becomes the first free one. */
  lemma ReapWhole(s: Slab, slot: nat, key: Bytes)
    requires WF(s) && slot < |s.cells|
    ensures var t := Reap(s, slot, key);
            if slot !in s.order || s.cells[slot].key != key then t == s
            else exists i: nat :: i < |s.order| && s.order[i] == slot
                                  && t == s.(order := s.order[..i] + s.order[i + 1..], free := [slot] + s.free)
  {
    if slot in s.order {
      var i := IndexOf(s.order, slot);
      assert s.order[i] == slot;
    }
  }

  /** A clear frees all slots, in order, forgets the hand and sets the counters to zero. */
  lemma ClearWhole(s: Slab)
    ensures var t := Clear(s);
            && t.order == [] && t.hand == -1 && t.hits == t.misses == t.skips == 0 && t.ttl == s.ttl
            && |t.free| == |t.cells| == |s.cells| && forall i :: 0 <= i < |t.free| ==> t.free[i] == i
  {
  }

  lemma CreateWhole(capacity: nat, ttl: nat)
    ensures var t := Create(capacity, ttl);
            && t.order == [] && t.hand == -1 && t.hits == t.misses == t.skips == 0 && t.ttl == ttl
            && |t.free| == |t.cells| == capacity && forall i :: 0 <= i < |t.free| ==> t.free[i] == i
  {
  }

  lemma CountsOnly(s: Slab)
    ensures RecordOversize(s) == s.(skips := s.skips + 1)
    ensures CountHit(s) == s.(hits := s.hits + 1) && CountMiss(s) == s.(misses := s.misses + 1)
  {
  }

  /** With readers interfering, the eviction falls back to the entry it has come to, and forgets the hand, exactly when
      at each of its 2 x capacity steps the bit it looks at was set before the start or anew since it last passed. */
  lemma EvictionFallsBackIff(s: Slab, marks: Marks)
    requires WF(s) && s.free == []
    ensures CanEvict(s)
    ensures Evict(s, marks).hand == SLOT_NONE <==>
            forall k: nat :: k < 2 * |s.cells| ==> FoundVisited(s.order, Vis(s.cells), StartIndex(s.order, s.hand), marks, k)
  {
    FullListHasHand(s);
    FallbackIff(s.order, Vis(s.cells), StartIndex(s.order, s.hand), marks, 2 * |s.cells|);
    var r := EvictScan(s, marks);
    assert s.order[Step(r.index, |s.order|)] in s.order;
  }

  // ---------------------------------------------------------------- runs

  /** The atomic steps of any number of processes: whole gets, the separate phases of interrupted gets (the
      read phase changes nothing; a mark or a reap; the count), inserts (with the marks that readers make during their
      scan), clears and oversize skips. */
  datatype Op =
    | DoGet(key: Bytes, now: nat)
    | DoMark(slot: nat)
    | DoReap(slot: nat, key: Bytes)
    | DoCount(hit: bool)
    | DoInsert(key: Bytes, value: Bytes, now: nat, marks: Marks)
    | DoClear
    | DoSkip

  ghost function StepOp(s: Slab, op: Op): Slab
    requires WF(s)
  {
    match op
    case DoGet(k, now) => Get(s, k, now).1
    case DoMark(slot) => if slot < |s.cells| then Mark(s, slot) else s
    case DoReap(slot, k) => if slot < |s.cells| then Reap(s, slot, k) else s
    case DoCount(hit) => if hit then CountHit(s) else CountMiss(s)
    case DoInsert(k, v, now, marks) => Insert(s, k, v, now, marks)
    case DoClear => Clear(s)
    case DoSkip => RecordOversize(s)
  }

  lemma StepKeeps(s: Slab, op: Op)
    requires WF(s)
    ensures WF(StepOp(s, op)) && |StepOp(s, op).cells| == |s.cells| && StepOp(s, op).ttl == s.ttl
  {
    match op
    case DoGet(k, now) => GetWF(s, k, now);
    case DoMark(slot) => if slot < |s.cells| { MarkWF(s, slot); }
    case DoReap(slot, k) => if slot < |s.cells| { ReapWF(s, slot, k); }
    case DoCount(_) =>
    case DoInsert(k, v, now, marks) =>
      InsertWF(s, k, v, now, marks);
    case DoClear => ClearWF(s);
    case DoSkip =>
  }

  ghost function Run(capacity: nat, ttl: nat, ops: seq<Op>): (s: Slab)
    requires capacity > 0
    ensures WF(s) && |s.cells| == capacity && s.ttl == ttl
  {
    if ops == [] then
      CreateWF(capacity, ttl);
      Create(capacity, ttl)
    else
      var s := Run(capacity, ttl, ops[..|ops| - 1]);
      StepKeeps(s, ops[|ops| - 1]);
      StepOp(s, ops[|ops| - 1])
  }

  /** The last value inserted for a key since the last clear, with its time. */
  function LastInsert(ops: seq<Op>, key: Bytes): Option<Stored> {
    if ops == [] then None
    else
      match ops[|ops| - 1]
      case DoClear => None
      case DoInsert(k, v, now, _) => if k == key then Some(Stored(v, now)) else LastInsert(ops[..|ops| - 1], key)
      case _ => LastInsert(ops[..|ops| - 1], key)
  }

  /** No step but an insert of the key itself changes what the key stands for while it is present. */
  lemma StepAnswer(s: Slab, op: Op, key: Bytes)
    requires WF(s) && WF(StepOp(s, op)) && key in ContentsOf(StepOp(s, op))
    ensures match op
            case DoClear => false
            case DoInsert(k, v, now, _) =>
              if k == key then ContentsOf(StepOp(s, op))[key] == Stored(v, now)
              else key in ContentsOf(s) && ContentsOf(StepOp(s, op))[key] == ContentsOf(s)[key]
            case _ => key in ContentsOf(s) && ContentsOf(StepOp(s, op))[key] == ContentsOf(s)[key]
  {
    hide ContentsOf, WF, KeysDistinct, Partition, FindIn;
    match op
    case DoGet(k, now) => GetSpec(s, k, now);
    case DoMark(slot) => if slot < |s.cells| { MarkSpec(s, slot); }
    case DoReap(slot, k) => if slot < |s.cells| { ReapSpec(s, slot, k); }
    case DoCount(_) => SameStore(StepOp(s, op), s);
    case DoInsert(k, v, now, marks) =>
      ContentsSize(s);
      InsertSpec(s, k, v, now, marks);
    case DoClear => ClearSpec(s);
    case DoSkip => SameStore(RecordOversize(s), s);
  }

  /** In every reachable state whatever is stored is what was last inserted. */
  lemma {:induction false} HoldsLastInsert(capacity: nat, ttl: nat, ops: seq<Op>, key: Bytes)
    requires capacity > 0
    ensures var c := ContentsOf(Run(capacity, ttl, ops));
            key in c ==> LastInsert(ops, key) == Some(c[key])
  {
    if ops != [] {
      var s, op := Run(capacity, ttl, ops[..|ops| - 1]), ops[|ops| - 1];
      HoldsLastInsert(capacity, ttl, ops[..|ops| - 1], key);
      StepKeeps(s, op);
      if key in ContentsOf(StepOp(s, op)) { StepAnswer(s, op, key); }
    }
  }

  /** After any run, a get that hits returns the value last inserted for its key since the last clear, and that
      value is no older than the time-to-live. */
  lemma HitIsFresh(capacity: nat, ttl: nat, ops: seq<Op>, key: Bytes, now: nat, value: Bytes)
    requires capacity > 0
    requires Get(Run(capacity, ttl, ops), key, now).0 == Found(value)
    ensures LastInsert(ops, key).Some?
    ensures var e := LastInsert(ops, key).value;
            e.value == value && (ttl > 0 ==> now <= e.created + ttl)
  {
    HoldsLastInsert(capacity, ttl, ops, key);
    GetSpec(Run(capacity, ttl, ops), key, now);
  }

  /** A stored, unexpired key survives every step except a clear, a reap of its own slot, and being the victim of
      an insert of a new key into a full cache. */
  lemma Retained(s: Slab, op: Op, key: Bytes, now: nat)
    requires WF(s) && key in ContentsOf(s) && !IsExpired(s.ttl, now, ContentsOf(s)[key].created)
    requires key !in ContentsOf(StepOp(s, op))
    ensures match op
            case DoClear => true
            case DoGet(k, t) => k == key && IsExpired(s.ttl, t, ContentsOf(s)[key].created)
            case DoReap(slot, k) => k == key && slot == Find(s, key)
            case DoInsert(k, _, _, marks) =>
              k !in ContentsOf(s) && |ContentsOf(s)| == |s.cells| && CanEvict(s) && Victim(s, marks) == Find(s, key)
            case _ => false
  {
    hide ContentsOf, WF, KeysDistinct, Partition, FindIn;
    StepKeeps(s, op);
    ContentsSize(s);
    match op
    case DoGet(k, t) => GetSpec(s, k, t);
    case DoMark(slot) => if slot < |s.cells| { MarkSpec(s, slot); }
    case DoReap(slot, k) => if slot < |s.cells| { ReapSpec(s, slot, k); if slot in s.order { FindUnique(s, slot); } }
    case DoCount(_) => SameStore(StepOp(s, op), s);
    case DoInsert(k, v, t, marks) =>
      InsertSpec(s, k, v, t, marks);
      FindUnique(s, Victim(s, marks));
    case DoClear =>
    case DoSkip => SameStore(RecordOversize(s), s);
  }

  /** An expired get interrupted by another process's insert of the same key deletes the fresh entry: between
      the read and the write phase the age is not looked at again. */
  lemma ReapMayDropFresh(s: Slab, key: Bytes, before: nat, value: Bytes, now: nat, marks: Marks)
    requires WF(s) && Peek(s, key, before).Expired?
    ensures var x, t := Peek(s, key, before).slot, Insert(s, key, value, now, marks);
            && WF(t) && x < |t.cells|
            && key in ContentsOf(t) && ContentsOf(t)[key] == Stored(value, now)
            && key !in ContentsOf(Reap(t, x, key))
  {
    InsertSpec(s, key, value, now, marks);
    ContentsAt(s, key);
    ReapSpec(Insert(s, key, value, now, marks), Find(s, key), key);
  }

  /** What any steps make of a state. */
  ghost function RunFrom(s: Slab, ops: seq<Op>): (t: Slab)
    requires WF(s)
    ensures WF(t) && |t.cells| == |s.cells| && t.ttl == s.ttl
  {
    if ops == [] then s
    else
      var u := RunFrom(s, ops[..|ops| - 1]);
      StepKeeps(u, ops[|ops| - 1]);
      StepOp(u, ops[|ops| - 1])
  }

  /** What is stored after these steps was stored by them, or was there before. */
  lemma {:induction false} HoldsSince(s: Slab, ops: seq<Op>, key: Bytes)
    requires WF(s) && key in ContentsOf(RunFrom(s, ops))
    ensures match LastInsert(ops, key)
            case Some(e) => ContentsOf(RunFrom(s, ops))[key] == e
            case None => key in ContentsOf(s) && ContentsOf(RunFrom(s, ops))[key] == ContentsOf(s)[key]
  {
    hide WF, ContentsOf, StepOp;
    if ops != [] {
      var u, op := RunFrom(s, ops[..|ops| - 1]), ops[|ops| - 1];
      StepKeeps(u, op);
      StepAnswer(u, op, key);
      if !op.DoClear? && !(op.DoInsert? && op.key == key) { HoldsSince(s, ops[..|ops| - 1], key); }
    }
  }

  /** An expired get, with any steps of others between its two phases. Its write phase deletes whatever is stored for its
      key exactly when that sits in the slot the read phase saw; and what it deletes is an entry that has not expired
      exactly when the key was inserted again in between and that insert has not expired. */
  lemma ReapDropsFreshIff(s: Slab, key: Bytes, before: nat, ops: seq<Op>, now: nat)
    requires WF(s) && Peek(s, key, before).Expired? && before <= now
    ensures var slot, u := Peek(s, key, before).slot, RunFrom(s, ops);
            && slot < |u.cells|
            && var c, t := ContentsOf(u), ContentsOf(Reap(u, slot, key));
               && (key in c && key !in t <==> Find(u, key) == slot)
               && (key in c && !IsExpired(s.ttl, now, c[key].created) && key !in t <==>
                     Find(u, key) == slot && LastInsert(ops, key).Some?
                     && !IsExpired(s.ttl, now, LastInsert(ops, key).value.created))
  {
    hide ContentsOf, WF, FindIn;
    var slot, u := Peek(s, key, before).slot, RunFrom(s, ops);
    FoundInRange(s, key);
    ContentsAt(s, key);
    ContentsAt(u, key);
    ReapSpec(u, slot, key);
    if slot in u.order { FindUnique(u, slot); }
    if Find(u, key) == slot { FoundInRange(u, key); }
    if key in ContentsOf(u) { HoldsSince(s, ops, key); }
  }

  /** The gets since the last clear that have come to their count; a get is counted as its last step. */
  function CountedGets(ops: seq<Op>): nat {
    if ops == [] then 0
    else
      match ops[|ops| - 1]
      case DoClear => 0
      case DoGet(_, _) => CountedGets(ops[..|ops| - 1]) + 1
      case DoCount(_) => CountedGets(ops[..|ops| - 1]) + 1
      case _ => CountedGets(ops[..|ops| - 1])
  }

  /** Every get, whole or in phases with anything in between, is counted exactly once, as a hit or as a miss. */
  lemma {:induction false} GetsAreCounted(capacity: nat, ttl: nat, ops: seq<Op>)
    requires capacity > 0
    ensures Run(capacity, ttl, ops).hits + Run(capacity, ttl, ops).misses == CountedGets(ops)
  {
    if ops != [] {
      var s, op := Run(capacity, ttl, ops[..|ops| - 1]), ops[|ops| - 1];
      GetsAreCounted(capacity, ttl, ops[..|ops| - 1]);
      if op.DoGet? { GetSpec(s, op.key, op.now); }
    }
  }

  /** The phases of a get, with nothing in between, are the whole get. */
  function PhasesOf(s: Slab, key: Bytes, now: nat): seq<Op> {
    match Peek(s, key, now)
    case Hit(_, slot) => [DoMark(slot), DoCount(true)]
    case Miss => [DoCount(false)]
    case Expired(slot) => [DoReap(slot, key), DoCount(false)]
  }

  lemma PhasesAreGet(s: Slab, key: Bytes, now: nat)
    requires WF(s)
    ensures var ph := PhasesOf(s, key, now);
            && 1 <= |ph| <= 2 && WF(StepOp(s, ph[0]))
            && Get(s, key, now).1 == if |ph| == 1 then StepOp(s, ph[0]) else StepOp(StepOp(s, ph[0]), ph[1])
  {
    StepKeeps(s, PhasesOf(s, key, now)[0]);
    if Find(s, key) != SLOT_NONE { FoundInRange(s, key); }
  }

  /** In every reachable state the two lists share out the slots, no key is listed twice, the size stays within
      the capacity, and an eviction never starts from a stale hand. */
  lemma Conservation(capacity: nat, ttl: nat, ops: seq<Op>)
    requires capacity > 0
    ensures var s := Run(capacity, ttl, ops);
            && |s.order| + |s.free| == capacity
            && |ContentsOf(s)| == |s.order| <= capacity
            && Partition(s.order, s.free, capacity)
            && (s.free == [] ==> CanEvict(s))
  {
    var s := Run(capacity, ttl, ops);
    SlotCount(s);
    ContentsSize(s);
    if s.free == [] { FullListHasHand(s); }
  }
}

/** Gets that take their phases one at a time. */
module GetRuns {
  import opened Layout
  import opened Slabs
  import opened CacheTheorems

  /** Where a process stands with its get: the read phase has decided, then the write or mark phase has acted. */
  datatype Getter = Ready | Decided(key: Bytes, outcome: Outcome) | Acted(hit: bool)

  /** The cache's steps so far, the processes, and the answers of the gets that have ended since the last clear. */
  datatype State = State(ops: seq<Op>, getters: map<nat, Getter>, answers: seq<bool>)

  datatype Action =
    | Read(p: nat, key: Bytes, now: nat)
    | Write(p: nat)
    | Finish(p: nat)
    | Other(op: Op)

  function GetterOf(s: State, p: nat): Getter {
    if p in s.getters then s.getters[p] else Ready
  }

  /** Steps that are not a phase of some get. */
  predicate Whole(op: Op) {
    !op.DoMark? && !op.DoReap? && !op.DoCount?
  }

  ghost function Step(capacity: nat, ttl: nat, s: State, a: Action): State
    requires capacity > 0
  {
    match a
    case Read(p, key, now) =>
      if GetterOf(s, p).Ready? then s.(getters := s.getters[p := Decided(key, Peek(Run(capacity, ttl, s.ops), key, now))]) else s
    case Write(p) =>
      (match GetterOf(s, p)
       case Decided(key, Hit(_, slot)) => State(s.ops + [DoMark(slot)], s.getters[p := Acted(true)], s.answers)
       case Decided(key, Miss) => s.(getters := s.getters[p := Acted(false)])
       case Decided(key, Expired(slot)) => State(s.ops + [DoReap(slot, key)], s.getters[p := Acted(false)], s.answers)
       case _ => s)
    case Finish(p) =>
      (match GetterOf(s, p)
       case Acted(hit) => State(s.ops + [DoCount(hit)], s.getters[p := Ready], s.answers + [hit])
       case _ => s)
    case Other(op) =>
      if !Whole(op) then s
      else if op.DoClear? then State(s.ops + [op], s.getters, [])
      else if op.DoGet? then
        State(s.ops + [op], s.getters, s.answers + [Get(Run(capacity, ttl, s.ops), op.key, op.now).0.Found?])
      else s.(ops := s.ops + [op])
  }

  ghost function RunGets(capacity: nat, ttl: nat, acts: seq<Action>): State
    requires capacity > 0
  {
    if acts == [] then State([], map[], [])
    else Step(capacity, ttl, RunGets(capacity, ttl, acts[..|acts| - 1]), acts[|acts| - 1])
  }

  function Count(answers: seq<bool>, hit: bool): nat {
    if answers == [] then 0 else Count(answers[..|answers| - 1], hit) + (if answers[|answers| - 1] == hit then 1 else 0)
  }

  lemma CountMore(answers: seq<bool>, a: bool, hit: bool)
    ensures Count(answers + [a], hit) == Count(answers, hit) + (if a == hit then 1 else 0)
  {
    assert (answers + [a])[..|answers|] == answers;
  }

  lemma OneMoreOp(capacity: nat, ttl: nat, ops: seq<Op>, op: Op)
    requires capacity > 0
    ensures Run(capacity, ttl, ops + [op]) == StepOp(Run(capacity, ttl, ops), op)
  {
    assert (ops + [op])[..|ops|] == ops;
  }

  /** The counters that a step of the cache moves. */
  lemma StepCounts(s: Slab, op: Op)
    requires WF(s)
    ensures var t := StepOp(s, op);
            && t.hits == (if op.DoClear? then 0
                          else if op == DoCount(true) || (op.DoGet? && Get(s, op.key, op.now).0.Found?) then s.hits + 1 else s.hits)
            && t.misses == (if op.DoClear? then 0
                            else if op == DoCount(false) || (op.DoGet? && !Get(s, op.key, op.now).0.Found?) then s.misses + 1
                            else s.misses)
  {
    hide WF, ContentsOf;
    if op.DoGet? { GetSpec(s, op.key, op.now); }
  }

  /** The counters are those of the answers. */
  ghost predicate Counted(capacity: nat, ttl: nat, ops: seq<Op>, answers: seq<bool>)
    requires capacity > 0
  {
    && Run(capacity, ttl, ops).hits == Count(answers, true)
    && Run(capacity, ttl, ops).misses == Count(answers, false)
  }

  lemma OneMoreAnswer(capacity: nat, ttl: nat, ops: seq<Op>, answers: seq<bool>, op: Op, answers': seq<bool>)
    requires capacity > 0 && Counted(capacity, ttl, ops, answers)
    requires answers' == match op
                         case DoClear => []
                         case DoCount(hit) => answers + [hit]
                         case DoGet(k, now) => answers + [Get(Run(capacity, ttl, ops), k, now).0.Found?]
                         case _ => answers
    ensures Counted(capacity, ttl, ops + [op], answers')
  {
    hide Run, StepOp, Get, Count;
    OneMoreOp(capacity, ttl, ops, op);
    StepCounts(Run(capacity, ttl, ops), op);
    if op.DoClear? { NoAnswers(); }
    if op.DoCount? {
      CountMore(answers, op.hit, true);
      CountMore(answers, op.hit, false);
    }
    if op.DoGet? {
      CountMore(answers, Get(Run(capacity, ttl, ops), op.key, op.now).0.Found?, true);
      CountMore(answers, Get(Run(capacity, ttl, ops), op.key, op.now).0.Found?, false);
    }
  }

  lemma NoAnswers()
    ensures Count([], true) == 0 && Count([], false) == 0
  {
  }

  /** In every interleaving of gets in phases with each other and with all other steps: the hit counter is the number of
      gets that have ended with a hit since the last clear, the miss counter that of the others. */
  lemma {:induction false} EachGetCountsOnce(capacity: nat, ttl: nat, acts: seq<Action>)
    requires capacity > 0
    ensures var s := RunGets(capacity, ttl, acts);
            && Run(capacity, ttl, s.ops).hits == Count(s.answers, true)
            && Run(capacity, ttl, s.ops).misses == Count(s.answers, false)
  {
    if acts == [] {
      EmptyCounts(capacity, ttl);
    } else {
      EachGetCountsOnce(capacity, ttl, acts[..|acts| - 1]);
      StepCounted(capacity, ttl, RunGets(capacity, ttl, acts[..|acts| - 1]), acts[|acts| - 1]);
    }
  }

  lemma StepCounted(capacity: nat, ttl: nat, s: State, a: Action)
    requires capacity > 0 && Counted(capacity, ttl, s.ops, s.answers)
    ensures Counted(capacity, ttl, Step(capacity, ttl, s, a).ops, Step(capacity, ttl, s, a).answers)
  {
    hide Counted, Run, Get, Peek;
    match a
    case Read(p, key, now) =>
    case Write(p) =>
      var g := GetterOf(s, p);
      if g.Decided? && g.outcome.Hit? { OneMoreAnswer(capacity, ttl, s.ops, s.answers, DoMark(g.outcome.slot), s.answers); }
      if g.Decided? && g.outcome.Expired? { OneMoreAnswer(capacity, ttl, s.ops, s.answers, DoReap(g.outcome.slot, g.key), s.answers); }
    case Finish(p) =>
      var g := GetterOf(s, p);
      if g.Acted? { OneMoreAnswer(capacity, ttl, s.ops, s.answers, DoCount(g.hit), s.answers + [g.hit]); }
    case Other(op) =>
      if Whole(op) { OneMoreAnswer(capacity, ttl, s.ops, s.answers, op, Step(capacity, ttl, s, a).answers); }
  }

  // ---------------------------------------------------------------- the gets of a run, read off its actions

  /** The read phase of the get that process p has under way: its position among the actions. */
  function ReadAt(acts: seq<Action>, p: nat): (r: Option<nat>)
    ensures r.Some? ==> r.value < |acts| && acts[r.value].Read? && acts[r.value].p == p
  {
    if acts == [] then None
    else
      var before := acts[..|acts| - 1];
      var a := acts[|acts| - 1];
      if a.Read? && a.p == p && ReadAt(before, p).None? then Some(|acts| - 1)
      else if a.Finish? && a.p == p && WroteSince(before, p) then None
      else ReadAt(before, p)
  }

  /** Whether that get has had its write phase. */
  function WroteSince(acts: seq<Action>, p: nat): bool {
    if acts == [] then false
    else
      var before := acts[..|acts| - 1];
      var a := acts[|acts| - 1];
      if a.Write? && a.p == p then ReadAt(before, p).Some?
      else if a.Finish? && a.p == p then false
      else WroteSince(before, p)
  }

  /** The key is stored, and its time-to-live lasts. */
  ghost predicate InTime(s: Slab, key: Bytes, now: nat) {
    key in ContentsOf(s) && (s.ttl == 0 || now <= ContentsOf(s)[key].created + s.ttl)
  }

  /** What the cache held when the read phase at position i of the actions took place. */
  ghost function Seen(capacity: nat, ttl: nat, acts: seq<Action>, i: nat): (s: Slab)
    requires capacity > 0 && i <= |acts|
    ensures WF(s)
  {
    Run(capacity, ttl, RunGets(capacity, ttl, acts[..i]).ops)
  }

  ghost predicate WasHit(capacity: nat, ttl: nat, acts: seq<Action>, i: nat)
    requires capacity > 0 && i < |acts| && acts[i].Read?
  {
    InTime(Seen(capacity, ttl, acts, i), acts[i].key, acts[i].now)
  }

  /** Where every process stands, as its actions tell. */
  ghost predicate Stands(capacity: nat, ttl: nat, acts: seq<Action>, p: nat)
    requires capacity > 0
  {
    var g := GetterOf(RunGets(capacity, ttl, acts), p);
    match ReadAt(acts, p)
    case None => g == Ready && !WroteSince(acts, p)
    case Some(i) =>
      if WroteSince(acts, p) then g == Acted(WasHit(capacity, ttl, acts, i))
      else g == Decided(acts[i].key, Peek(Seen(capacity, ttl, acts, i), acts[i].key, acts[i].now))
  }

  lemma PeekHits(s: Slab, key: Bytes, now: nat)
    requires WF(s)
    ensures Peek(s, key, now).Hit? <==> InTime(s, key, now)
    ensures Peek(s, key, now).Expired? <==> key in ContentsOf(s) && !InTime(s, key, now)
    ensures Get(s, key, now).0.Found? <==> InTime(s, key, now)
  {
    hide ContentsOf, WF, FindIn;
    ContentsAt(s, key);
  }

  lemma SeenBefore(capacity: nat, ttl: nat, acts: seq<Action>, i: nat)
    requires capacity > 0 && i < |acts|
    ensures Seen(capacity, ttl, acts, i) == Seen(capacity, ttl, acts[..|acts| - 1], i)
  {
    assert acts[..|acts| - 1][..i] == acts[..i];
  }

  predicate Concerns(a: Action, p: nat) {
    !a.Other? && a.p == p
  }

  lemma OthersStand(capacity: nat, ttl: nat, acts: seq<Action>, p: nat)
    requires capacity > 0 && acts != [] && !Concerns(acts[|acts| - 1], p)
    ensures var before := acts[..|acts| - 1];
            && GetterOf(RunGets(capacity, ttl, acts), p) == GetterOf(RunGets(capacity, ttl, before), p)
            && ReadAt(acts, p) == ReadAt(before, p) && WroteSince(acts, p) == WroteSince(before, p)
  {
    hide Run, Get, Peek;
  }

  /** The getter's step, as its state before and its action tell. */
  lemma OwnStep(capacity: nat, ttl: nat, acts: seq<Action>, p: nat)
    requires capacity > 0 && acts != [] && Concerns(acts[|acts| - 1], p)
    ensures var n := |acts| - 1;
            var g, h := GetterOf(RunGets(capacity, ttl, acts[..n]), p), GetterOf(RunGets(capacity, ttl, acts), p);
            match acts[n]
            case Read(_, key, now) =>
              h == if g.Ready? then Decided(key, Peek(Seen(capacity, ttl, acts, n), key, now)) else g
            case Write(_) => h == if g.Decided? then Acted(g.outcome.Hit?) else g
            case Finish(_) => h == if g.Acted? then Ready else g
            case _ => false
  {
    hide Run, Get, Peek;
  }

  lemma {:induction false} EachStands(capacity: nat, ttl: nat, acts: seq<Action>, p: nat)
    requires capacity > 0
    ensures Stands(capacity, ttl, acts, p)
  {
    hide Run, Get, Peek, InTime, RunGets, Seen;
    if acts == [] {
      NobodyAtFirst(capacity, ttl, p);
    } else {
      var n := |acts| - 1;
      EachStands(capacity, ttl, acts[..n], p);
      if ReadAt(acts[..n], p).Some? {
        var i := ReadAt(acts[..n], p).value;
        SeenBefore(capacity, ttl, acts, i);
        PeekHits(Seen(capacity, ttl, acts, i), acts[i].key, acts[i].now);
      }
      if Concerns(acts[n], p) { OwnStep(capacity, ttl, acts, p); } else { OthersStand(capacity, ttl, acts, p); }
    }
  }

  lemma NobodyAtFirst(capacity: nat, ttl: nat, p: nat)
    requires capacity > 0
    ensures GetterOf(RunGets(capacity, ttl, []), p) == Ready
  {
  }

  /** The answer of a get is a hit exactly when, at its read phase, the key was stored and in time; a finish without a
      get that has had its write phase answers nothing. */
  lemma AnswerIsTruthful(capacity: nat, ttl: nat, acts: seq<Action>, p: nat)
    requires capacity > 0
    ensures WroteSince(acts, p) ==> ReadAt(acts, p).Some?
    ensures var s, t := RunGets(capacity, ttl, acts), RunGets(capacity, ttl, acts + [Finish(p)]);
            t.answers == if WroteSince(acts, p) then s.answers + [WasHit(capacity, ttl, acts, ReadAt(acts, p).value)] else s.answers
  {
    hide Run, Get, Peek, InTime;
    EachStands(capacity, ttl, acts, p);
    assert (acts + [Finish(p)])[..|acts|] == acts;
    WroteAfterRead(acts, p);
  }

  /** What the phases do to the cache: the read phase nothing; the write phase marks the slot of the hit, or reaps the slot
      of the expired entry, as the read phase saw it; the end counts. */
  lemma PhasesAct(capacity: nat, ttl: nat, acts: seq<Action>, p: nat, key: Bytes, now: nat)
    requires capacity > 0
    ensures RunGets(capacity, ttl, acts + [Read(p, key, now)]).ops == RunGets(capacity, ttl, acts).ops
    ensures WroteSince(acts, p) ==> ReadAt(acts, p).Some?
    ensures var s, t := RunGets(capacity, ttl, acts), RunGets(capacity, ttl, acts + [Finish(p)]);
            t.ops == if WroteSince(acts, p) then s.ops + [DoCount(WasHit(capacity, ttl, acts, ReadAt(acts, p).value))] else s.ops
    ensures var ops, after := RunGets(capacity, ttl, acts).ops, RunGets(capacity, ttl, acts + [Write(p)]).ops;
            match ReadAt(acts, p)
            case None => after == ops
            case Some(i) =>
              var seen, k := Seen(capacity, ttl, acts, i), acts[i].key;
              if WroteSince(acts, p) || k !in ContentsOf(seen) then after == ops
              else exists slot: nat :: slot in seen.order && slot < |seen.cells| && seen.cells[slot].key == k &&
                     after == ops + [if WasHit(capacity, ttl, acts, i) then DoMark(slot) else DoReap(slot, k)]
  {
    hide Run, Get, Peek, InTime, ContentsOf;
    EachStands(capacity, ttl, acts, p);
    WroteAfterRead(acts, p);
    assert (acts + [Finish(p)])[..|acts|] == acts;
    assert (acts + [Write(p)])[..|acts|] == acts;
    assert (acts + [Read(p, key, now)])[..|acts|] == acts;
    if ReadAt(acts, p).Some? && !WroteSince(acts, p) {
      var i := ReadAt(acts, p).value;
      var seen := Seen(capacity, ttl, acts, i);
      PeekHits(seen, acts[i].key, acts[i].now);
      PeekSlot(seen, acts[i].key, acts[i].now);
    }
  }

  lemma PeekSlot(s: Slab, key: Bytes, now: nat)
    requires WF(s)
    ensures var o := Peek(s, key, now);
            !o.Miss? ==> o.slot in s.order && o.slot < |s.cells| && s.cells[o.slot].key == key
    ensures Peek(s, key, now).Miss? <==> key !in ContentsOf(s)
  {
    ContentsAt(s, key);
    if Find(s, key) != SLOT_NONE { FoundInRange(s, key); }
  }

  lemma {:induction false} WroteAfterRead(acts: seq<Action>, p: nat)
    ensures WroteSince(acts, p) ==> ReadAt(acts, p).Some?
  {
    if acts != [] { WroteAfterRead(acts[..|acts| - 1], p); }
  }

  /** The answers since the last clear, read off the actions. */
  ghost function AnswersOf(capacity: nat, ttl: nat, acts: seq<Action>): seq<bool>
    requires capacity > 0
  {
    if acts == [] then []
    else
      var before := acts[..|acts| - 1];
      var answers := AnswersOf(capacity, ttl, before);
      match acts[|acts| - 1]
      case Finish(p) =>
        WroteAfterRead(before, p);
        if WroteSince(before, p) then answers + [WasHit(capacity, ttl, before, ReadAt(before, p).value)] else answers
      case Other(DoClear) => []
      case Other(DoGet(key, now)) => answers + [InTime(Seen(capacity, ttl, acts, |acts| - 1), key, now)]
      case _ => answers
  }

  /** The hit counter is the number of gets that have ended since the last clear and at whose read phase the key was stored
      and in time; the miss counter is the number of the others. */
  lemma {:induction false} HitsAreTruthful(capacity: nat, ttl: nat, acts: seq<Action>)
    requires capacity > 0
    ensures var s := Run(capacity, ttl, RunGets(capacity, ttl, acts).ops);
            && RunGets(capacity, ttl, acts).answers == AnswersOf(capacity, ttl, acts)
            && s.hits == Count(AnswersOf(capacity, ttl, acts), true)
            && s.misses == Count(AnswersOf(capacity, ttl, acts), false)
  {
    hide Run, Get, Peek, InTime, Count;
    EachGetCountsOnce(capacity, ttl, acts);
    if acts != [] {
      var n := |acts| - 1;
      HitsAreTruthful(capacity, ttl, acts[..n]);
      match acts[n]
      case Finish(p) =>
        AnswerIsTruthful(capacity, ttl, acts[..n], p);
        assert acts == acts[..n] + [Finish(p)];
      case Other(op) =>
        if op.DoGet? { PeekHits(Seen(capacity, ttl, acts, n), op.key, op.now); }
      case _ =>
    }
  }

  lemma EmptyCounts(capacity: nat, ttl: nat)
    requires capacity > 0
    ensures Run(capacity, ttl, []).hits == 0 && Run(capacity, ttl, []).misses == 0
  {
  }
}

/** One shard of the in-process cache (src/store.rs): a map, a deque of keys cleaned lazily, and an index hand. */
module ShardModel {
  import opened Layout
  import opened Collections

  datatype Entry<+V> = Entry(value: V, created: nat, visited: bool)

  datatype ShardState<K, +V> = ShardState(entries: map<K, Entry<V>>, order: seq<K>, hand: nat, capacity: nat)

  /** No time-to-live, or one in the unit of the clock. */
  type Ttl = Option<nat>

  predicate Fresh<V>(ttl: Ttl, e: Entry<V>, now: nat) {
    ttl.None? || Elapsed(now, e.created) <= ttl.value
  }

  // ---------------------------------------------------------------- eviction

  /** Removes the order entry at h and keeps the hand inside the deque. */
  function DropAt<K, V>(s: ShardState<K, V>, h: nat): ShardState<K, V>
    requires h < |s.order|
  {
    var o := RemoveAt(s.order, h);
    s.(order := o, hand := if h >= |o| && |o| != 0 then 0 else h)
  }

  function Wrapped<K, V>(s: ShardState<K, V>): (h: nat)
    ensures s.order != [] ==> h < |s.order|
  {
    if s.hand >= |s.order| then 0 else s.hand
  }

  /** The loop of `evict_one`: stale order entries are dropped without counting, visited ones lose their bit. */
  function EvictScan<K, V>(s: ShardState<K, V>, scanned: nat, initialLen: nat): ShardState<K, V>
    decreases |s.order|, initialLen + 1 - scanned
  {
    if scanned > initialLen || s.order == [] then s
    else
      var h := Wrapped(s);
      var key := s.order[h];
      if key !in s.entries then EvictScan(DropAt(s, h), scanned, initialLen)
      else if s.entries[key].visited then
        EvictScan(s.(entries := s.entries[key := s.entries[key].(visited := false)], hand := h + 1), scanned + 1, initialLen)
      else DropAt(s.(entries := s.entries - {key}), h)
  }

  function EvictOne<K, V>(s: ShardState<K, V>): ShardState<K, V> {
    if s.order == [] then s else EvictScan(s, 0, |s.order|)
  }

  /** Every stored key is in the deque; the deque may also hold stale and repeated keys. */
  ghost predicate Covered<K, V>(s: ShardState<K, V>) {
    forall k :: k in s.entries ==> k in s.order
  }

  ghost function VisitedKeys<K, V>(s: ShardState<K, V>): set<K> {
    set k | k in s.entries && s.entries[k].visited
  }

  /** t is s without the entry of v, except that some visited bits may have been cleared. */
  ghost predicate Evicted<K, V>(s: ShardState<K, V>, t: ShardState<K, V>, v: K) {
    && v in s.entries && t.entries.Keys == s.entries.Keys - {v}
    && forall k :: k in t.entries ==> ClearedAtMost(s.entries[k], t.entries[k])
  }

  ghost predicate ClearedAtMost<V>(a: Entry<V>, b: Entry<V>) {
    b.value == a.value && b.created == a.created && (b.visited ==> a.visited)
  }

  lemma EmptyOrder<K, V>(s: ShardState<K, V>)
    requires Covered(s)
    ensures s.entries == map[] || s.order != []
  {
    assert forall k :: k in s.entries.Keys ==> k in s.order;
  }

  lemma DropCovered<K, V>(s: ShardState<K, V>, h: nat)
    requires h < |s.order| && forall k :: k in s.entries && k != s.order[h] ==> k in s.order
    requires s.order[h] !in s.entries
    ensures Covered(DropAt(s, h)) && DropAt(s, h).entries == s.entries
  {
    var o := RemoveAt(s.order, h);
    forall k | k in s.entries ensures k in o {
      var j :| 0 <= j < |s.order| && s.order[j] == k;
      assert o[if j < h then j else j - 1] == k;
    }
  }

  /** The scan ends by evicting exactly one entry, or by emptying the deque when nothing is stored: every counted
      step clears a visited bit, so the budget outlasts the bits. */
  lemma {:induction false} EvictScanSpec<K, V>(s: ShardState<K, V>, scanned: nat, initialLen: nat)
    requires Covered(s) && scanned + |VisitedKeys(s)| <= initialLen
    ensures var t := EvictScan(s, scanned, initialLen);
            && Covered(t) && t.capacity == s.capacity && |t.order| <= |s.order|
            && (forall k :: k in t.order ==> k in s.order)
            && if s.entries == map[] then t.entries == map[] && t.order == []
               else exists v :: Evicted(s, t, v)
    decreases |s.order|, initialLen + 1 - scanned
  {
    if s.order == [] {
      EmptyOrder(s);
    } else {
      var h := Wrapped(s);
      var key := s.order[h];
      if key !in s.entries {
        DropCovered(s, h);
        EvictScanSpec(DropAt(s, h), scanned, initialLen);
        EvictedThroughDrop(s, h, EvictScan(DropAt(s, h), scanned, initialLen));
      } else if s.entries[key].visited {
        var u := s.(entries := s.entries[key := s.entries[key].(visited := false)], hand := h + 1);
        ClearCounts(s, u, key);
        assert key in u.entries;
        EvictScanSpec(u, scanned + 1, initialLen);
        var t := EvictScan(u, scanned + 1, initialLen);
        var v :| Evicted(u, t, v);
        assert Evicted(s, t, v);
      } else {
        var u := s.(entries := s.entries - {key});
        DropCovered(u, h);
        assert Evicted(s, DropAt(u, h), key);
      }
    }
  }

  lemma EvictedThroughDrop<K, V>(s: ShardState<K, V>, h: nat, t: ShardState<K, V>)
    requires h < |s.order|
    ensures forall v :: Evicted(DropAt(s, h), t, v) ==> Evicted(s, t, v)
  {
  }

  lemma ClearCounts<K, V>(s: ShardState<K, V>, u: ShardState<K, V>, key: K)
    requires key in s.entries && s.entries[key].visited
    requires u.entries == s.entries[key := s.entries[key].(visited := false)]
    ensures |VisitedKeys(u)| + 1 == |VisitedKeys(s)|
  {
    assert key in VisitedKeys(s);
    assert VisitedKeys(u) == VisitedKeys(s) - {key};
  }

  /** `evict_one` removes exactly one entry when something is stored, and otherwise empties the deque. */
  lemma EvictOneSpec<K, V>(s: ShardState<K, V>)
    requires Covered(s)
    ensures var t := EvictOne(s);
            && Covered(t) && t.capacity == s.capacity
            && (forall k :: k in t.order ==> k in s.order)
            && if s.entries == map[] then t.entries == map[] && t.order == []
               else exists v :: Evicted(s, t, v)
  {
    if s.order == [] {
      EmptyOrder(s);
    } else {
      SubsetSize(VisitedKeys(s), Elements(s.order));
      ElementsAtMost(s.order);
      EvictScanSpec(s, 0, |s.order|);
    }
  }

  /** A round of the loop that evicts nothing: the entry under the hand is stale and goes, or is visited and loses its bit. */
  ghost predicate PassesOver<K, V>(s: ShardState<K, V>, t: ShardState<K, V>) {
    && s.order != []
    && var key := s.order[Wrapped(s)];
       if key in s.entries then
         && s.entries[key].visited
         && t == s.(entries := s.entries[key := s.entries[key].(visited := false)], hand := Wrapped(s) + 1)
       else t == DropAt(s, Wrapped(s))
  }

  /** The last state of the rounds is the one just before the removal: its entry under the hand is stored and unvisited. */
  ghost predicate VictimUnderHand<K, V>(s: ShardState<K, V>) {
    s.order != [] && var key := s.order[Wrapped(s)]; key in s.entries && !s.entries[key].visited
  }

  function RemoveUnderHand<K, V>(s: ShardState<K, V>): ShardState<K, V>
    requires s.order != []
  {
    DropAt(s.(entries := s.entries - {s.order[Wrapped(s)]}), Wrapped(s))
  }

  ghost predicate IsScan<K, V>(s: ShardState<K, V>, rounds: seq<ShardState<K, V>>) {
    && rounds != [] && rounds[0] == s && VictimUnderHand(rounds[|rounds| - 1])
    && forall i :: 0 < i < |rounds| ==> PassesOver(rounds[i - 1], rounds[i])
  }

  lemma {:induction false} ScanRounds<K, V>(s: ShardState<K, V>, scanned: nat, initialLen: nat) returns (rounds: seq<ShardState<K, V>>)
    requires Covered(s) && s.entries != map[] && scanned + |VisitedKeys(s)| <= initialLen
    ensures IsScan(s, rounds) && EvictScan(s, scanned, initialLen) == RemoveUnderHand(rounds[|rounds| - 1])
    ensures |rounds| <= |s.order| + |VisitedKeys(s)|
    decreases |s.order|, initialLen + 1 - scanned
  {
    EmptyOrder(s);
    var h := Wrapped(s);
    var key := s.order[h];
    if VictimUnderHand(s) {
      rounds := [s];
    } else {
      var t, counted := DropAt(s, h), scanned;
      if key in s.entries {
        t, counted := s.(entries := s.entries[key := s.entries[key].(visited := false)], hand := h + 1), scanned + 1;
        ClearCounts(s, t, key);
        assert key in t.entries;
      } else {
        DropCovered(s, h);
      }
      var rest := ScanRounds(t, counted, initialLen);
      rounds := [s] + rest;
    }
  }

  /** For any deque, stale and repeated keys included: at the moment of its removal the victim is unvisited, and the
      scan reaches it within as many rounds as there are deque entries and visited bits. */
  lemma VictimIsUnvisited<K, V>(s: ShardState<K, V>)
    requires Covered(s) && s.entries != map[]
    ensures exists rounds :: IsScan(s, rounds) && |rounds| <= |s.order| + |VisitedKeys(s)|
              && EvictOne(s) == RemoveUnderHand(rounds[|rounds| - 1])
  {
    EmptyOrder(s);
    SubsetSize(VisitedKeys(s), Elements(s.order));
    ElementsAtMost(s.order);
    var rounds := ScanRounds(s, 0, |s.order|);
  }

  lemma EvictedSize<K, V>(s: ShardState<K, V>, t: ShardState<K, V>, v: K)
    requires Evicted(s, t, v)
    ensures |t.entries| == |s.entries| - 1
  {
    assert |t.entries.Keys| == |s.entries.Keys| - 1;
  }

  /** The loop that makes room for a new entry. */
  function MakeRoom<K, V>(s: ShardState<K, V>): ShardState<K, V>
    requires Covered(s)
    decreases |s.entries|
  {
    if |s.entries| < s.capacity then s
    else
      EvictOneSpec(s);
      var t := EvictOne(s);
      if t.order == [] then t
      else
        assert s.entries != map[];
        assert |t.entries| < |s.entries| by { var v :| Evicted(s, t, v); EvictedSize(s, t, v); }
        MakeRoom(t)
  }

  /** Entries of t are entries of s up to cleared bits. */
  ghost predicate Shrunk<K, V>(s: ShardState<K, V>, t: ShardState<K, V>) {
    && t.entries.Keys <= s.entries.Keys
    && forall k :: k in t.entries ==> ClearedAtMost(s.entries[k], t.entries[k])
  }

  /** Afterwards there is room; nothing is evicted that did not have to be. */
  lemma {:induction false} MakeRoomSpec<K, V>(s: ShardState<K, V>)
    requires Covered(s)
    ensures var t := MakeRoom(s);
            && Covered(t) && t.capacity == s.capacity && Shrunk(s, t)
            && (forall k :: k in t.order ==> k in s.order)
            && |t.entries| == (if |s.entries| < s.capacity then |s.entries| else if s.capacity == 0 then 0 else s.capacity - 1)
            && (|s.entries| < s.capacity ==> t == s)
    decreases |s.entries|
  {
    if |s.entries| >= s.capacity {
      EvictOneSpec(s);
      var t := EvictOne(s);
      if s.entries != map[] {
        var v :| Evicted(s, t, v);
        EvictedSize(s, t, v);
        if t.order != [] { MakeRoomSpec(t); } else { EmptyOrder(t); }
      }
    }
  }

  // ---------------------------------------------------------------- operations

  function PushBack<K, V>(s: ShardState<K, V>, key: K, value: V, now: nat): ShardState<K, V> {
    s.(entries := s.entries[key := Entry(value, now, false)], order := s.order + [key])
  }

  /** The read phase of a call, of `get` and of `_probe`. */
  function Probe<K, V>(s: ShardState<K, V>, ttl: Ttl, key: K, now: nat): (Option<V>, ShardState<K, V>) {
    if key in s.entries && Fresh(ttl, s.entries[key], now) then
      (Some(s.entries[key].value), s.(entries := s.entries[key := s.entries[key].(visited := true)]))
    else (None, s)
  }

  predicate NeedsInsert<K, V>(s: ShardState<K, V>, ttl: Ttl, key: K, now: nat) {
    key !in s.entries || !Fresh(ttl, s.entries[key], now)
  }

  /** The write phase of a call that missed: the key may have been stored by another thread meanwhile. */
  function Store<K, V>(s: ShardState<K, V>, ttl: Ttl, key: K, value: V, now: nat): ShardState<K, V>
    requires Covered(s)
  {
    if NeedsInsert(s, ttl, key, now) then
      PushBack(MakeRoom(s.(entries := s.entries - {key})), key, value, now)
    else s
  }

  function SetValue<K, V>(s: ShardState<K, V>, key: K, value: V, now: nat): ShardState<K, V>
    requires Covered(s)
  {
    if key !in s.entries then PushBack(MakeRoom(s), key, value, now)
    else s.(entries := s.entries[key := Entry(value, now, false)])
  }

  function Cleared<K, V>(s: ShardState<K, V>): ShardState<K, V> {
    ShardState(map[], [], 0, s.capacity)
  }

  function NewShard<K, V>(capacity: nat): ShardState<K, V> {
    ShardState(map[], [], 0, capacity)
  }

}

/** The shard itself: its methods do to the fields what the functions of the model do to the value. */
module Shards {
  import opened Layout
  import opened Collections
  import opened ShardModel

  class Shard<K(==), V> {
    var entries: map<K, Entry<V>>
    var order: seq<K>
    var hand: nat
    const capacity: nat

    ghost function State(): ShardState<K, V>
      reads this
    {
      ShardState(entries, order, hand, capacity)
    }

    constructor (capacity: nat)
      ensures State() == NewShard(capacity)
    {
      this.capacity := capacity;
      entries, order, hand := map[], [], 0;
    }

    method EvictOne()
      modifies this
      ensures State() == ShardModel.EvictOne(old(State()))
    {
      hide RemoveAt;
      var initialLen := |order|;
      if initialLen == 0 {
        return;
      }
      var scanned := 0;
      while scanned <= initialLen
        invariant EvictScan(State(), scanned, initialLen) == EvictScan(old(State()), 0, initialLen)
        decreases |order|, initialLen + 1 - scanned
      {
        if order == [] {
          break;
        }
        if hand >= |order| {
          hand := 0;
        }
        var key := order[hand];
        if key in entries && entries[key].visited {
          entries := entries[key := entries[key].(visited := false)];
          hand := hand + 1;
          scanned := scanned + 1;
        } else if key in entries {
          entries := entries - {key};
          RemoveAtHand();
          return;
        } else {
          RemoveAtHand();
        }
      }
    }

    method RemoveAtHand()
      requires hand < |order|
      modifies this`order, this`hand
      ensures State() == DropAt(old(State()), old(hand)) && |order| == old(|order|) - 1
    {
      order := RemoveAt(order, hand);
      if hand >= |order| && order != [] {
        hand := 0;
      }
    }

    method MakeRoom()
      requires Covered(State())
      modifies this
      ensures State() == ShardModel.MakeRoom(old(State()))
    {
      while |entries| >= capacity
        invariant Covered(State()) && ShardModel.MakeRoom(State()) == ShardModel.MakeRoom(old(State()))
        decreases |entries|, |order|
      {
        ghost var s := State();
        EvictOneSpec(s);
        EvictOne();
        if order == [] {
          break;
        }
        assert s.entries != map[];
        ghost var v :| Evicted(s, State(), v);
        EvictedSize(s, State(), v);
      }
    }

    method Probe(ttl: Ttl, key: K, now: nat) returns (r: Option<V>)
      modifies this`entries
      ensures (r, State()) == ShardModel.Probe(old(State()), ttl, key, now)
    {
      if key in entries {
        var e := entries[key];
        if ttl.Some? && Elapsed(now, e.created) > ttl.value {
          return None;
        }
        entries := entries[key := e.(visited := true)];
        return Some(e.value);
      }
      return None;
    }

    method Store(ttl: Ttl, key: K, value: V, now: nat)
      requires Covered(State())
      modifies this
      ensures State() == ShardModel.Store(old(State()), ttl, key, value, now)
    {
      var needsInsert := key !in entries || (ttl.Some? && Elapsed(now, entries[key].created) > ttl.value);
      if needsInsert {
        entries := entries - {key};
        MakeRoom();
        entries := entries[key := Entry(value, now, false)];
        order := order + [key];
      }
    }

    method SetValue(key: K, value: V, now: nat)
      requires Covered(State())
      modifies this
      ensures State() == ShardModel.SetValue(old(State()), key, value, now)
    {
      if key !in entries {
        MakeRoom();
        entries := entries[key := Entry(value, now, false)];
        order := order + [key];
      } else {
        entries := entries[key := Entry(value, now, false)];
      }
    }

    method Clear()
      modifies this
      ensures State() == Cleared(old(State()))
    {
      entries, order, hand := map[], [], 0;
    }
  }
}

/** Which entry `evict_one` (src/store.rs) evicts from a deque that may hold stale and repeated keys. */
module DequeScans {
  import opened Layout
  import opened Collections
  import opened ShardModel
  import opened ShardTheorems

  /** The deque as the hand will meet it. */
  function Ahead<K, V>(s: ShardState<K, V>): (a: seq<K>)
    ensures |a| == |s.order|
  {
    s.order[Wrapped(s)..] + s.order[..Wrapped(s)]
  }

  /** The keys of a that are stored. */
  function Kept<K, V>(a: seq<K>, entries: map<K, Entry<V>>): seq<K> {
    if a == [] then []
    else Kept(a[..|a| - 1], entries) + (if a[|a| - 1] in entries then [a[|a| - 1]] else [])
  }

  /** The entries after their second chance has been taken from those in `passed`. */
  ghost function Unmarked<K, V>(entries: map<K, Entry<V>>, passed: seq<K>): (r: map<K, Entry<V>>)
    ensures r.Keys == entries.Keys
    ensures forall k :: k in entries ==> r[k] == entries[k].(visited := r[k].visited)
  {
    map k | k in entries :: if k in passed then entries[k].(visited := false) else entries[k]
  }

  /** A first pass stops at a stored key that is unvisited, or that it has already passed under a repeated entry. */
  ghost predicate StopsAt<K, V>(a: seq<K>, entries: map<K, Entry<V>>, d: nat) {
    d < |a| && a[d] in entries && (!entries[a[d]].visited || a[d] in a[..d])
  }

  /** Position d, counted from the hand, is where the first pass stops; if it stops nowhere, it is the first stored key. */
  ghost predicate VictimAt<K, V>(a: seq<K>, entries: map<K, Entry<V>>, d: nat) {
    && d < |a| && a[d] in entries
    && if exists e: nat :: StopsAt(a, entries, e) then
         StopsAt(a, entries, d) && forall e: nat :: e < d ==> !StopsAt(a, entries, e)
       else forall e: nat :: e < d ==> a[e] !in entries
  }

  /** The victim at d is gone, the stored keys passed have lost their bit, and from the hand on the deque holds what was
      not passed, followed by the stored keys that were. */
  ghost predicate Outcome<K, V>(a: seq<K>, entries: map<K, Entry<V>>, d: nat, t: ShardState<K, V>)
    requires VictimAt(a, entries, d)
  {
    if StopsAt(a, entries, d) then
      t.entries == Unmarked(entries, a[..d]) - {a[d]} && Ahead(t) == a[d + 1..] + Kept(a[..d], entries)
    else
      t.entries == Unmarked(entries, a) - {a[d]} && [a[d]] + Ahead(t) == Kept(a, entries)
  }

  // ---------------------------------------------------------------- single rounds

  lemma AheadDropped<K, V>(s: ShardState<K, V>)
    requires s.order != []
    ensures Ahead(s)[0] == s.order[Wrapped(s)] && Ahead(DropAt(s, Wrapped(s))) == Ahead(s)[1..]
  {
    var h, t := Wrapped(s), DropAt(s, Wrapped(s));
    if h + 1 == |s.order| {
      assert Ahead(t) == s.order[..h];
    } else {
      assert t.order[h..] == s.order[h + 1..] && t.order[..h] == s.order[..h];
    }
  }

  lemma AheadPassed<K, V>(s: ShardState<K, V>, t: ShardState<K, V>)
    requires s.order != [] && t.order == s.order && t.hand == Wrapped(s) + 1
    ensures Ahead(s)[0] == s.order[Wrapped(s)] && Ahead(t) == Ahead(s)[1..] + [Ahead(s)[0]]
  {
    var h := Wrapped(s);
    if h + 1 == |s.order| {
      assert Ahead(t) == s.order;
    } else {
      assert s.order[..h + 1] == s.order[..h] + [s.order[h]];
    }
  }

  /** The scan has passed the first j positions without stopping. */
  ghost predicate Reached<K, V>(a: seq<K>, entries: map<K, Entry<V>>, u: ShardState<K, V>, j: nat) {
    && j <= |a| && Ahead(u) == a[j..] + Kept(a[..j], entries) && u.entries == Unmarked(entries, a[..j])
    && forall e: nat :: e < j ==> !StopsAt(a, entries, e)
  }

  lemma KeptStep<K, V>(a: seq<K>, entries: map<K, Entry<V>>, j: nat)
    requires j < |a|
    ensures Kept(a[..j + 1], entries) == Kept(a[..j], entries) + (if a[j] in entries then [a[j]] else [])
  {
    assert a[..j + 1][..j] == a[..j];
  }

  lemma UnmarkedStep<K, V>(a: seq<K>, entries: map<K, Entry<V>>, j: nat)
    requires j < |a|
    ensures Unmarked(entries, a[..j + 1]) ==
            if a[j] in entries then Unmarked(entries, a[..j])[a[j] := entries[a[j]].(visited := false)]
            else Unmarked(entries, a[..j])
  {
    assert a[..j + 1] == a[..j] + [a[j]];
  }

  lemma PassOne<K, V>(a: seq<K>, entries: map<K, Entry<V>>, u: ShardState<K, V>, t: ShardState<K, V>, j: nat)
    requires Reached(a, entries, u, j) && j < |a| && !StopsAt(a, entries, j) && PassesOver(u, t)
    ensures Reached(a, entries, t, j + 1)
  {
    hide DropAt, Ahead, Kept, Unmarked;
    KeptStep(a, entries, j);
    UnmarkedStep(a, entries, j);
    AheadDropped(u);
    assert Ahead(u) == [a[j]] + (a[j + 1..] + Kept(a[..j], entries));
    if a[j] in entries { AheadPassed(u, t); } else { DropKeeps(u); }
  }

  lemma DropKeeps<K, V>(s: ShardState<K, V>)
    requires s.order != []
    ensures DropAt(s, Wrapped(s)).entries == s.entries
  {
  }

  lemma {:induction false} KeptFirst<K, V>(a: seq<K>, entries: map<K, Entry<V>>, d: nat)
    requires d < |a| && a[d] in entries && forall e: nat :: e < d ==> a[e] !in entries
    ensures Kept(a, entries) != [] && Kept(a, entries)[0] == a[d]
  {
    if d + 1 < |a| { KeptFirst(a[..|a| - 1], entries, d); } else { KeptNone(a[..d], entries); }
  }

  lemma {:induction false} KeptNone<K, V>(a: seq<K>, entries: map<K, Entry<V>>)
    requires forall e: nat :: e < |a| ==> a[e] !in entries
    ensures Kept(a, entries) == []
  {
    if a != [] { KeptNone(a[..|a| - 1], entries); }
  }

  /** The loop ends with the entry under the hand evicted, when that is unvisited. */
  lemma EvictsUnderHand<K, V>(u: ShardState<K, V>, scanned: nat, initialLen: nat)
    requires VictimUnderHand(u) && scanned <= initialLen
    ensures var t := EvictScan(u, scanned, initialLen);
            t.entries == u.entries - {Ahead(u)[0]} && Ahead(t) == Ahead(u)[1..]
  {
    AheadDropped(u);
    AheadDropped(u.(entries := u.entries - {u.order[Wrapped(u)]}));
  }

  lemma PassesOn<K, V>(u: ShardState<K, V>, scanned: nat, initialLen: nat) returns (t: ShardState<K, V>, counted: nat)
    requires u.order != [] && scanned <= initialLen && !VictimUnderHand(u)
    ensures PassesOver(u, t) && scanned <= counted <= scanned + 1
    ensures EvictScan(u, scanned, initialLen) == EvictScan(t, counted, initialLen)
  {
    var h := Wrapped(u);
    var key := u.order[h];
    if key in u.entries {
      t, counted := u.(entries := u.entries[key := u.entries[key].(visited := false)], hand := h + 1), scanned + 1;
    } else {
      t, counted := DropAt(u, h), scanned;
    }
  }

  lemma {:induction false} ScanFrom<K, V>(a: seq<K>, entries: map<K, Entry<V>>, u: ShardState<K, V>, j: nat, scanned: nat, d: nat)
    requires Reached(a, entries, u, j) && VictimAt(a, entries, d) && scanned <= j
    requires StopsAt(a, entries, d) ==> j <= d
    ensures Outcome(a, entries, d, EvictScan(u, scanned, |a|))
    decreases |a| - j
  {
    hide EvictScan, DropAt, Kept, Unmarked;
    FrontOf(a, entries, u, j, d);
    if j == (if StopsAt(a, entries, d) then d else |a|) {
      EvictsUnderHand(u, scanned, |a|);
      assert a[..|a|] == a;
    } else {
      var t, counted := PassesOn(u, scanned, |a|);
      PassOne(a, entries, u, t, j);
      ScanFrom(a, entries, t, j + 1, counted, d);
    }
  }

  /** What is under the hand after j positions: the victim, or something to pass over. */
  lemma FrontOf<K, V>(a: seq<K>, entries: map<K, Entry<V>>, u: ShardState<K, V>, j: nat, d: nat)
    requires Reached(a, entries, u, j) && VictimAt(a, entries, d) && (StopsAt(a, entries, d) ==> j <= d)
    ensures u.order != []
    ensures var last := if StopsAt(a, entries, d) then d else |a|;
            && j <= last
            && (j == last ==> Ahead(u)[0] == a[d] && VictimUnderHand(u))
            && (j < last ==> !VictimUnderHand(u) && !StopsAt(a, entries, j))
  {
    if j == |a| {
      KeptFirst(a, entries, d);
      assert a[..j] == a;
    }
    AheadDropped(u);
    if j < |a| && (StopsAt(a, entries, d) ==> j < d) {
      assert !StopsAt(a, entries, j);
      assert Ahead(u)[0] == a[j];
    }
  }

  // ---------------------------------------------------------------- the victim

  lemma AheadMembers<K, V>(s: ShardState<K, V>)
    ensures forall k :: k in Ahead(s) <==> k in s.order
  {
    assert s.order == s.order[..Wrapped(s)] + s.order[Wrapped(s)..];
  }

  lemma FirstStop<K, V>(a: seq<K>, entries: map<K, Entry<V>>, e: nat) returns (d: nat)
    requires StopsAt(a, entries, e)
    ensures StopsAt(a, entries, d) && forall f: nat :: f < d ==> !StopsAt(a, entries, f)
    decreases e
  {
    d := e;
    if f: nat :| f < e && StopsAt(a, entries, f) { d := FirstStop(a, entries, f); }
  }

  lemma FirstKept<K, V>(a: seq<K>, entries: map<K, Entry<V>>, e: nat) returns (d: nat)
    requires e < |a| && a[e] in entries
    ensures d < |a| && a[d] in entries && forall f: nat :: f < d ==> a[f] !in entries
    decreases e
  {
    d := e;
    if f: nat :| f < e && a[f] in entries { d := FirstKept(a, entries, f); }
  }

  lemma VictimExists<K, V>(s: ShardState<K, V>) returns (d: nat)
    requires Covered(s) && s.entries != map[]
    ensures VictimAt(Ahead(s), s.entries, d)
  {
    var a := Ahead(s);
    AheadMembers(s);
    var k :| k in s.entries;
    var p: nat :| p < |a| && a[p] == k;
    if e: nat :| StopsAt(a, s.entries, e) {
      d := FirstStop(a, s.entries, e);
    } else {
      d := FirstKept(a, s.entries, p);
    }
  }

  /** For every deque, stale and repeated keys included: the victim stands at the first position from the hand that
      holds a stored key which is unvisited or was already passed; if there is none, at the first stored one. The
      keys passed lose their bit, the stale positions passed are gone, and the rest waits in the same cyclic order. */
  lemma EvictOneClosed<K, V>(s: ShardState<K, V>)
    requires Covered(s) && s.entries != map[]
    ensures exists d: nat :: VictimAt(Ahead(s), s.entries, d) && Outcome(Ahead(s), s.entries, d, EvictOne(s))
  {
    var d := VictimExists(s);
    assert Ahead(s)[0..] + Kept(Ahead(s)[..0], s.entries) == Ahead(s);
    assert Unmarked(s.entries, Ahead(s)[..0]) == s.entries;
    ScanFrom(Ahead(s), s.entries, s, 0, 0, d);
  }

  lemma VictimUnique<K, V>(a: seq<K>, entries: map<K, Entry<V>>, d: nat, e: nat)
    requires VictimAt(a, entries, d) && VictimAt(a, entries, e)
    ensures d == e
  {
  }

  /** From the hand on, a stored key comes a second time before the first unvisited stored key comes at all. */
  ghost predicate RepeatsFirst<K, V>(a: seq<K>, entries: map<K, Entry<V>>) {
    exists d: nat :: d < |a| && a[d] in entries && a[d] in a[..d]
                     && forall e: nat :: e <= d && a[e] in entries ==> entries[a[e]].visited
  }

  lemma VictimVisitedIff<K, V>(a: seq<K>, entries: map<K, Entry<V>>, d: nat, p: nat)
    requires VictimAt(a, entries, d) && p < |a| && a[p] in entries && !entries[a[p]].visited
    ensures entries[a[d]].visited <==> RepeatsFirst(a, entries)
  {
    assert StopsAt(a, entries, p);
    if entries[a[d]].visited {
      forall e: nat | e <= d && a[e] in entries ensures entries[a[e]].visited {
        if e < d { assert !StopsAt(a, entries, e); }
      }
    }
    if RepeatsFirst(a, entries) {
      var r: nat :| r < |a| && a[r] in entries && a[r] in a[..r]
                    && forall e: nat :: e <= r && a[e] in entries ==> entries[a[e]].visited;
      assert StopsAt(a, entries, r);
    }
  }

  lemma VictimIsEvicted<K, V>(s: ShardState<K, V>, v: K) returns (d: nat)
    requires Covered(s) && Evicted(s, EvictOne(s), v)
    ensures VictimAt(Ahead(s), s.entries, d) && v == Ahead(s)[d]
  {
    hide EvictOne, Ahead, VictimAt;
    EvictOneClosed(s);
    d :| VictimAt(Ahead(s), s.entries, d) && Outcome(Ahead(s), s.entries, d, EvictOne(s));
    VictimStored(Ahead(s), s.entries, d);
    assert v !in EvictOne(s).entries && v in s.entries;
  }

  lemma VictimStored<K, V>(a: seq<K>, entries: map<K, Entry<V>>, d: nat)
    requires VictimAt(a, entries, d)
    ensures d < |a| && a[d] in entries
  {
  }

  /** SIEVE promises to spare visited entries while an unvisited one is stored. `evict_one` breaks the promise exactly
      when the deque repeats a stored key, in cyclic order from the hand, before the first unvisited stored key. */
  lemma VisitedVictimIff<K, V>(s: ShardState<K, V>, v: K)
    requires Covered(s) && Evicted(s, EvictOne(s), v)
    requires exists k :: k in s.entries && !s.entries[k].visited
    ensures s.entries[v].visited <==> RepeatsFirst(Ahead(s), s.entries)
  {
    hide EvictOne, Ahead, VictimAt, RepeatsFirst;
    var d := VictimIsEvicted(s, v);
    AheadMembers(s);
    var k :| k in s.entries && !s.entries[k].visited;
    var p: nat :| p < |Ahead(s)| && Ahead(s)[p] == k;
    VictimVisitedIff(Ahead(s), s.entries, d, p);
  }

  /** A duplicate-free deque, which is what the cache has without time-to-live, keeps the promise. */
  lemma CleanSparesVisited<K, V>(s: ShardState<K, V>, v: K)
    requires Covered(s) && Clean(s) && Evicted(s, EvictOne(s), v)
    requires exists k :: k in s.entries && !s.entries[k].visited
    ensures !s.entries[v].visited
  {
    VisitedVictimIff(s, v);
    var a, h := Ahead(s), Wrapped(s);
    forall p: nat, q: nat | p < q < |a| ensures a[p] != a[q] {
      assert a[p] == s.order[if p < |s.order| - h then h + p else p - (|s.order| - h)];
      assert a[q] == s.order[if q < |s.order| - h then h + q else q - (|s.order| - h)];
    }
  }
}

/** With a time-to-live the promise is broken on reachable shards. */
module StaleEntries {
  import opened Layout
  import opened Collections
  import opened ShardModel
  import opened ShardTheorems
  import opened DequeScans

  /** One key is stored, and stored again when it has expired, so that the deque holds it twice. A second key is stored
      and the first one hit: the shard of capacity 2 is full, with the first key visited and the second not. */
  function Restocked<K, V>(ttl: nat, key: K, other: K, value: V): ShardState<K, V>
  {
    var now := Clock(ttl, 2);
    StoreCovered(Restored(2, ttl, key, value, 2), Some(ttl), other, value, now);
    Probe(Store(Restored(2, ttl, key, value, 2), Some(ttl), other, value, now), Some(ttl), key, now).1
  }

  lemma RestockedState<K, V>(ttl: nat, key: K, other: K, value: V)
    requires key != other
    ensures var s, now := Restocked(ttl, key, other, value), Clock(ttl, 2);
            && Covered(s) && s.capacity == 2 && |s.entries| == 2
            && s.entries == map[key := Entry(value, now, true), other := Entry(value, now, false)]
            && Ahead(s) == [key, key, other]
  {
    hide Store, Restored;
    var r, now := Restored(2, ttl, key, value, 2), Clock(ttl, 2);
    OrderGrows(2, ttl, key, value, 2);
    assert r.order == [key, key];
    assert r.entries - {other} == r.entries;
    StoreWithRoom(r, Some(ttl), other, value, now, r.entries);
    var s := Restocked(ttl, key, other, value);
    assert s.entries == map[key := Entry(value, now, true), other := Entry(value, now, false)];
    assert s.entries.Keys == {key, other};
    assert s.order == [key, key, other];
  }

  lemma OneEviction<K, V>(s: ShardState<K, V>, ttl: Ttl, key: K, value: V, now: nat) returns (v: K)
    requires Covered(s) && key !in s.entries && |s.entries| == s.capacity > 0
    ensures Evicted(s, EvictOne(s), v)
    ensures Store(s, ttl, key, value, now).entries.Keys == s.entries.Keys - {v} + {key}
  {
    hide EvictOne, Covered, DropAt;
    EvictOneSpec(s);
    v :| Evicted(s, EvictOne(s), v);
    EvictedSize(s, EvictOne(s), v);
    assert s.entries - {key} == s.entries;
    assert s.(entries := s.entries - {key}) == s;
    assert MakeRoom(s).entries == EvictOne(s).entries;
  }

  /** Whatever the time-to-live, the next new key evicts the key just hit and keeps the one never asked for. */
  lemma RepeatCostsSecondChance<K, V>(ttl: nat, key: K, other: K, third: K, value: V)
    requires key != other && key != third && other != third
    ensures var s, now := Restocked(ttl, key, other, value), Clock(ttl, 2);
            && Covered(s) && s.entries == map[key := Entry(value, now, true), other := Entry(value, now, false)]
            && Store(s, Some(ttl), third, value, now).entries.Keys == {other, third}
  {
    hide Restocked, EvictOne, Store, Covered, Clock;
    RestockedState(ttl, key, other, value);
    var s, now := Restocked(ttl, key, other, value), Clock(ttl, 2);
    var v := OneEviction(s, Some(ttl), third, value, now);
    assert Ahead(s)[..1] == [key];
    assert !s.entries[other].visited;
    VisitedVictimIff(s, v);
    assert v == key;
    assert s.entries.Keys == {key, other};
  }
}

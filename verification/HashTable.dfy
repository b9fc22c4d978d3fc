/** Open addressing with linear probing and backward-shift deletion (src/shm/hashtable.rs). */
module HashTable {
  import opened Layout
  import opened Collections

  // ---------------------------------------------------------------- cyclic positions

  /** Number of forward steps from i to j on a ring of m positions. */
  function Dist(i: nat, j: nat, m: nat): (d: nat)
    requires i < m && j < m
    ensures d < m
  {
    if i <= j then j - i else j - i + m
  }

  // ---------------------------------------------------------------- what the table means

  ghost predicate Table(b: seq<Bucket>, numSlots: nat) {
    && |b| > 1 && IsPow2(|b|)
    && forall p :: 0 <= p < |b| && b[p].Used() ==> 0 <= b[p].slotIndex < numSlots
  }

  /** No empty bucket lies between an entry's ideal index and its position, cyclically. */
  ghost predicate ProbeInv(b: seq<Bucket>) {
    forall p, q :: 0 <= p < |b| && 0 <= q < |b| && b[p].Used()
      && Dist(Ideal(b[p].hash, |b|), q, |b|) < Dist(Ideal(b[p].hash, |b|), p, |b|)
      ==> b[q].Used()
  }

  /** No slot is indexed by two buckets. */
  ghost predicate DistinctSlots(b: seq<Bucket>) {
    forall p, q :: 0 <= p < q < |b| && b[p].Used() && b[q].Used() ==> b[p].slotIndex != b[q].slotIndex
  }

  /** The entries of the table, whatever their positions. */
  ghost function Live(b: seq<Bucket>): set<Bucket> {
    set p | 0 <= p < |b| && b[p].Used() :: b[p]
  }

  ghost predicate HasEmpty(b: seq<Bucket>) {
    exists z :: 0 <= z < |b| && !b[z].Used()
  }

  ghost predicate Matches(e: Bucket, slots: seq<Slot>, keyHash: nat, key: Bytes) {
    && e.Used() && e.hash == keyHash
    && 0 <= e.slotIndex < |slots| && slots[e.slotIndex].occupied && slots[e.slotIndex].key == key
  }

  /** All entries sit in occupied slots. */
  ghost predicate AllOccupied(b: seq<Bucket>, slots: seq<Slot>) {
    forall p :: 0 <= p < |b| && b[p].Used() ==> 0 <= b[p].slotIndex < |slots| && slots[b[p].slotIndex].occupied
  }

  /** A table whose entries have distinct slots below n and which has more than n buckets has an empty one. */
  lemma FewEntriesLeaveRoom(b: seq<Bucket>, n: nat)
    requires Table(b, n) && DistinctSlots(b) && n < |b|
    ensures HasEmpty(b)
  {
    if !HasEmpty(b) {
      assert forall p :: 0 <= p < |b| ==> b[p].Used();
      var s := seq(|b|, p requires 0 <= p < |b| => b[p].slotIndex);
      DistinctBelow(s, n);
    }
  }

  // ---------------------------------------------------------------- lookup

  /** The first n probes for a hash met neither an empty bucket nor the entry sought. */
  ghost predicate Probed(b: seq<Bucket>, slots: seq<Slot>, keyHash: nat, key: Bytes, n: nat)
    requires |b| > 0
  {
    forall q :: 0 <= q < |b| && Dist(Ideal(keyHash, |b|), q, |b|) < n ==> b[q].Used() && !Matches(b[q], slots, keyHash, key)
  }

  /** The bucket of the n-th probe. */
  ghost predicate AtProbe(i: nat, m: nat, keyHash: nat, n: nat)
    requires m > 0
  {
    i < m && (n < m ==> Dist(Ideal(keyHash, m), i, m) == n)
  }

  lemma ProbeAdvances(b: seq<Bucket>, slots: seq<Slot>, keyHash: nat, key: Bytes, n: nat, i: nat)
    requires |b| > 1 && n < |b| && AtProbe(i, |b|, keyHash, n) && Probed(b, slots, keyHash, key, n)
    requires b[i].Used() && !Matches(b[i], slots, keyHash, key)
    ensures Probed(b, slots, keyHash, key, n + 1) && AtProbe(Step(i, |b|), |b|, keyHash, n + 1)
  {
    forall q | 0 <= q < |b| && Dist(Ideal(keyHash, |b|), q, |b|) < n + 1
      ensures b[q].Used() && !Matches(b[q], slots, keyHash, key)
    {
      if Dist(Ideal(keyHash, |b|), q, |b|) == n { assert q == i; }
    }
  }

  /** A probe sequence that is exhausted or has reached an empty bucket has passed every entry with this hash. */
  lemma NoMatchPastEmpty(b: seq<Bucket>, slots: seq<Slot>, keyHash: nat, key: Bytes, n: nat, i: nat)
    requires |b| > 1 && ProbeInv(b) && Probed(b, slots, keyHash, key, n)
    requires n >= |b| || (AtProbe(i, |b|, keyHash, n) && !b[i].Used())
    ensures forall x :: x in Live(b) ==> !Matches(x, slots, keyHash, key)
  {
    forall x | x in Live(b) ensures !Matches(x, slots, keyHash, key) {
      var p :| 0 <= p < |b| && b[p].Used() && b[p] == x;
      if x.hash == keyHash && Dist(Ideal(keyHash, |b|), p, |b|) >= n {
        assert false;
      }
    }
  }

  /** Finds the slot of the entry for `keyHash` and `key`, if there is one. */
  method HtLookup(buckets: array<Bucket>, slots: array<Slot>, keyHash: nat, key: Bytes) returns (r: Option<int>)
    requires Table(buckets[..], slots.Length) && ProbeInv(buckets[..])
    ensures r.None? ==> forall e :: e in Live(buckets[..]) ==> !Matches(e, slots[..], keyHash, key)
    ensures r.Some? ==> exists e :: e in Live(buckets[..]) && Matches(e, slots[..], keyHash, key) && e.slotIndex == r.value
  {
    var m := buckets.Length;
    var idx := Ideal(keyHash, m);
    for n := 0 to m
      invariant AtProbe(idx, m, keyHash, n) && Probed(buckets[..], slots[..], keyHash, key, n)
    {
      var bucket := buckets[idx];
      if bucket.slotIndex == BUCKET_EMPTY {
        NoMatchPastEmpty(buckets[..], slots[..], keyHash, key, n, idx);
        return None;
      }
      if bucket.hash == keyHash {
        var slot := slots[bucket.slotIndex];
        if slot.occupied && |slot.key| == |key| && slot.key == key {
          assert bucket in Live(buckets[..]) && Matches(bucket, slots[..], keyHash, key);
          return Some(bucket.slotIndex);
        }
      }
      NextIndexIsStep(idx, m);
      ProbeAdvances(buckets[..], slots[..], keyHash, key, n, idx);
      idx := NextIndex(idx, m);
    }
    NoMatchPastEmpty(buckets[..], slots[..], keyHash, key, m, idx);
    return None;
  }

  // ---------------------------------------------------------------- insertion

  /** Puts an entry into the first empty bucket of its probe sequence. */
  method HtInsert(buckets: array<Bucket>, numSlots: nat, keyHash: nat, slotIndex: int)
    requires Table(buckets[..], numSlots) && ProbeInv(buckets[..]) && DistinctSlots(buckets[..])
    requires HasEmpty(buckets[..])
    requires 0 <= slotIndex < numSlots
    requires forall e :: e in Live(buckets[..]) ==> e.slotIndex != slotIndex
    modifies buckets
    ensures Table(buckets[..], numSlots) && ProbeInv(buckets[..]) && DistinctSlots(buckets[..])
    ensures Live(buckets[..]) == Live(old(buckets[..])) + {Bucket(keyHash, slotIndex)}
  {
    hide ProbeInv, DistinctSlots, Live, HasEmpty;
    var m := buckets.Length;
    var idx := Ideal(keyHash, m);
    ghost var b0 := buckets[..];
    for n := 0 to m
      invariant AtProbe(idx, m, keyHash, n) && AllUsed(b0, keyHash, n)
      invariant buckets[..] == b0
    {
      if buckets[idx].slotIndex == BUCKET_EMPTY {
        InsertKeeps(b0, numSlots, idx, Bucket(keyHash, slotIndex));
        buckets[idx] := Bucket(keyHash, slotIndex);
        assert buckets[..] == b0[idx := Bucket(keyHash, slotIndex)];
        return;
      }
      NextIndexIsStep(idx, m);
      FullAdvances(b0, keyHash, n, idx);
      idx := NextIndex(idx, m);
    }
    NeverFull(b0, keyHash);
    assert false; // the table is never full
  }

  /** The first n probes for a hash met no empty bucket. */
  ghost predicate AllUsed(b: seq<Bucket>, keyHash: nat, n: nat)
    requires |b| > 0
  {
    forall q :: 0 <= q < |b| && Dist(Ideal(keyHash, |b|), q, |b|) < n ==> b[q].Used()
  }

  lemma FullAdvances(b: seq<Bucket>, keyHash: nat, n: nat, i: nat)
    requires |b| > 1 && n < |b| && AtProbe(i, |b|, keyHash, n) && AllUsed(b, keyHash, n) && b[i].Used()
    ensures AllUsed(b, keyHash, n + 1) && AtProbe(Step(i, |b|), |b|, keyHash, n + 1)
  {
    forall q | 0 <= q < |b| && Dist(Ideal(keyHash, |b|), q, |b|) < n + 1 ensures b[q].Used() {
      if Dist(Ideal(keyHash, |b|), q, |b|) == n { assert q == i; }
    }
  }

  lemma NeverFull(b: seq<Bucket>, keyHash: nat)
    requires |b| > 0 && HasEmpty(b)
    ensures !AllUsed(b, keyHash, |b|)
  {
  }

  lemma InsertKeeps(b: seq<Bucket>, numSlots: nat, i: nat, e: Bucket)
    requires Table(b, numSlots) && ProbeInv(b) && DistinctSlots(b)
    requires i < |b| && !b[i].Used() && 0 <= e.slotIndex < numSlots
    requires forall x :: x in Live(b) ==> x.slotIndex != e.slotIndex
    requires forall q :: 0 <= q < |b| && Dist(Ideal(e.hash, |b|), q, |b|) < Dist(Ideal(e.hash, |b|), i, |b|) ==> b[q].Used()
    ensures Table(b[i := e], numSlots) && ProbeInv(b[i := e]) && DistinctSlots(b[i := e])
    ensures Live(b[i := e]) == Live(b) + {e}
  {
    InsertKeepsPaths(b, i, e);
    var b' := b[i := e];
    assert forall p :: 0 <= p < |b| && b[p].Used() ==> b[p] in Live(b);
    forall x | x in Live(b) + {e} ensures x in Live(b') {
      if x == e {
        assert b'[i] == x;
      } else {
        var p :| 0 <= p < |b| && b[p].Used() && b[p] == x;
        assert b'[p] == x;
      }
    }
  }

  lemma InsertKeepsPaths(b: seq<Bucket>, i: nat, e: Bucket)
    requires |b| > 0 && ProbeInv(b) && i < |b| && e.Used()
    requires forall q :: 0 <= q < |b| && Dist(Ideal(e.hash, |b|), q, |b|) < Dist(Ideal(e.hash, |b|), i, |b|) ==> b[q].Used()
    ensures ProbeInv(b[i := e])
  {
    var b' := b[i := e];
    forall p, q | 0 <= p < |b| && 0 <= q < |b| && b'[p].Used()
        && Dist(Ideal(b'[p].hash, |b|), q, |b|) < Dist(Ideal(b'[p].hash, |b|), p, |b|)
      ensures b'[q].Used()
    {
      if q != i && p != i { assert b[p].Used(); }
    }
  }

  // ---------------------------------------------------------------- backward-shift deletion

  /** The table while a hole at e is being closed and the scan stands at j: every path is unbroken
      except at e, the stretch between e and j is full, and no entry in it needs the bucket e. */
  ghost predicate Holed(h: seq<Bucket>, e: nat, j: nat) {
    && e < |h| && j < |h| && e != j && !h[e].Used()
    && (forall p, q :: 0 <= p < |h| && 0 <= q < |h| && h[p].Used() && q != e
          && Dist(Ideal(h[p].hash, |h|), q, |h|) < Dist(Ideal(h[p].hash, |h|), p, |h|)
          ==> h[q].Used())
    && (forall q :: 0 <= q < |h| && 0 < Dist(e, q, |h|) < Dist(e, j, |h|)
          ==> h[q].Used() && Dist(Ideal(h[q].hash, |h|), q, |h|) < Dist(e, q, |h|))
  }

  /** The source's case distinction says that e lies on the path of the entry at j. */
  predicate ShouldMove(empty: nat, j: nat, ideal: nat) {
    if empty <= j then ideal <= empty || ideal > j else ideal <= empty && ideal > j
  }

  lemma ShouldMoveIsOnPath(empty: nat, j: nat, ideal: nat, m: nat)
    requires empty < m && j < m && ideal < m && empty != j
    ensures ShouldMove(empty, j, ideal) <==> Dist(empty, j, m) <= Dist(ideal, j, m)
  {
  }

  lemma HoleOpens(b: seq<Bucket>, p: nat)
    requires |b| > 1 && ProbeInv(b) && p < |b|
    ensures Holed(b[p := EMPTY], p, Step(p, |b|))
  {
  }

  lemma HoleSkips(h: seq<Bucket>, e: nat, j: nat)
    requires Holed(h, e, j) && h[j].Used() && Step(j, |h|) != e
    requires !ShouldMove(e, j, Ideal(h[j].hash, |h|))
    ensures Holed(h, e, Step(j, |h|))
  {
    ShouldMoveIsOnPath(e, j, Ideal(h[j].hash, |h|), |h|);
    var j' := Step(j, |h|);
    assert Dist(e, j', |h|) == Dist(e, j, |h|) + 1;
    forall q | 0 <= q < |h| && 0 < Dist(e, q, |h|) < Dist(e, j', |h|)
      ensures h[q].Used() && Dist(Ideal(h[q].hash, |h|), q, |h|) < Dist(e, q, |h|)
    {
      if Dist(e, q, |h|) == Dist(e, j, |h|) { assert q == j; }
    }
  }

  ghost function Shifted(h: seq<Bucket>, e: nat, j: nat): seq<Bucket>
    requires e < |h| && j < |h|
  {
    h[e := h[j]][j := EMPTY]
  }

  lemma HoleMoves(h: seq<Bucket>, e: nat, j: nat)
    requires Holed(h, e, j) && h[j].Used()
    requires ShouldMove(e, j, Ideal(h[j].hash, |h|))
    ensures Holed(Shifted(h, e, j), j, Step(j, |h|))
  {
    ShouldMoveIsOnPath(e, j, Ideal(h[j].hash, |h|), |h|);
    var h' := Shifted(h, e, j);
    forall p, q | 0 <= p < |h| && 0 <= q < |h| && h'[p].Used() && q != j
        && Dist(Ideal(h'[p].hash, |h|), q, |h|) < Dist(Ideal(h'[p].hash, |h|), p, |h|)
      ensures h'[q].Used()
    {
      if q != e {
        if p == e {
          var i := Ideal(h[j].hash, |h|);
          assert Dist(i, q, |h|) < Dist(i, j, |h|);
          assert h[q].Used();
        } else {
          assert h[q].Used();
        }
      }
    }
  }

  /** When the scan meets an empty bucket no path is broken any more. */
  lemma HoleCloses(h: seq<Bucket>, e: nat, j: nat)
    requires Holed(h, e, j) && !h[j].Used()
    ensures ProbeInv(h)
  {
    forall p, q | 0 <= p < |h| && 0 <= q < |h| && h[p].Used()
        && Dist(Ideal(h[p].hash, |h|), q, |h|) < Dist(Ideal(h[p].hash, |h|), p, |h|)
      ensures h[q].Used()
    {
      if q == e {
        assert false;
      }
    }
  }

  lemma OpenKeepsEntries(b: seq<Bucket>, p: nat, numSlots: nat)
    requires Table(b, numSlots) && DistinctSlots(b) && p < |b| && b[p].Used()
    ensures Table(b[p := EMPTY], numSlots) && DistinctSlots(b[p := EMPTY])
    ensures Live(b[p := EMPTY]) == Live(b) - {b[p]}
  {
    var h := b[p := EMPTY];
    forall x | x in Live(b) - {b[p]} ensures x in Live(h) {
      var q :| 0 <= q < |b| && b[q].Used() && b[q] == x;
      assert h[q] == x;
    }
    forall x | x in Live(h) ensures x in Live(b) - {b[p]} {
      var q :| 0 <= q < |h| && h[q].Used() && h[q] == x;
      assert b[q] == x && q != p;
    }
  }

  lemma ShiftKeepsEntries(h: seq<Bucket>, e: nat, j: nat, numSlots: nat)
    requires Table(h, numSlots) && DistinctSlots(h)
    requires e < |h| && j < |h| && e != j && !h[e].Used() && h[j].Used()
    ensures Table(Shifted(h, e, j), numSlots) && DistinctSlots(Shifted(h, e, j))
    ensures Live(Shifted(h, e, j)) == Live(h)
  {
    var h' := Shifted(h, e, j);
    forall x | x in Live(h) ensures x in Live(h') {
      var q :| 0 <= q < |h| && h[q].Used() && h[q] == x;
      assert h'[if q == j then e else q] == x;
    }
    forall x | x in Live(h') ensures x in Live(h) {
      var q :| 0 <= q < |h'| && h'[q].Used() && h'[q] == x;
      assert h[if q == e then j else q] == x;
    }
  }

  /** Finds the bucket of the entry for `keyHash` and `key`; unlike the lookup it does not ask for `occupied`. */
  method FindBucket(buckets: array<Bucket>, slots: array<Slot>, keyHash: nat, key: Bytes) returns (r: Option<nat>)
    requires Table(buckets[..], slots.Length) && ProbeInv(buckets[..]) && AllOccupied(buckets[..], slots[..])
    ensures r.None? ==> forall e :: e in Live(buckets[..]) ==> !Matches(e, slots[..], keyHash, key)
    ensures r.Some? ==> r.value < buckets.Length && Matches(buckets[r.value], slots[..], keyHash, key)
  {
    var m := buckets.Length;
    var idx := Ideal(keyHash, m);
    for n := 0 to m
      invariant AtProbe(idx, m, keyHash, n) && Probed(buckets[..], slots[..], keyHash, key, n)
    {
      var bucket := buckets[idx];
      if bucket.slotIndex == BUCKET_EMPTY {
        NoMatchPastEmpty(buckets[..], slots[..], keyHash, key, n, idx);
        return None;
      }
      if bucket.hash == keyHash {
        var slot := slots[bucket.slotIndex];
        if |slot.key| == |key| && slot.key == key {
          assert Matches(bucket, slots[..], keyHash, key);
          return Some(idx);
        }
      }
      NextIndexIsStep(idx, m);
      ProbeAdvances(buckets[..], slots[..], keyHash, key, n, idx);
      idx := NextIndex(idx, m);
    }
    NoMatchPastEmpty(buckets[..], slots[..], keyHash, key, m, idx);
    return None;
  }

  /** The loop state of the deletion: the hole at e, the scan at j, the first entries b0 less the removed one,
      and an empty bucket z that the scan has not reached. */
  ghost predicate Closing(h: seq<Bucket>, e: nat, j: nat, b0: seq<Bucket>, removed: Bucket, z: nat, numSlots: nat) {
    && Holed(h, e, j) && Table(h, numSlots) && DistinctSlots(h) && Live(h) == Live(b0) - {removed}
    && z < |h| && z != e && !h[z].Used() && Dist(e, j, |h|) <= Dist(e, z, |h|)
  }

  lemma ClosingStarts(b: seq<Bucket>, p: nat, z: nat, numSlots: nat)
    requires Table(b, numSlots) && ProbeInv(b) && DistinctSlots(b)
    requires p < |b| && b[p].Used() && z < |b| && !b[z].Used()
    ensures Closing(b[p := EMPTY], p, Step(p, |b|), b, b[p], z, numSlots)
  {
    HoleOpens(b, p);
    OpenKeepsEntries(b, p, numSlots);
  }

  lemma ClosingSkips(h: seq<Bucket>, e: nat, j: nat, b0: seq<Bucket>, removed: Bucket, z: nat, numSlots: nat)
    requires Closing(h, e, j, b0, removed, z, numSlots) && h[j].Used()
    requires !ShouldMove(e, j, Ideal(h[j].hash, |h|))
    ensures Closing(h, e, Step(j, |h|), b0, removed, z, numSlots)
    ensures Dist(Step(j, |h|), z, |h|) < Dist(j, z, |h|)
  {
    assert j != z;
    HoleSkips(h, e, j);
  }

  lemma ClosingMoves(h: seq<Bucket>, e: nat, j: nat, b0: seq<Bucket>, removed: Bucket, z: nat, numSlots: nat)
    requires Closing(h, e, j, b0, removed, z, numSlots) && h[j].Used()
    requires ShouldMove(e, j, Ideal(h[j].hash, |h|))
    ensures Closing(Shifted(h, e, j), j, Step(j, |h|), b0, removed, z, numSlots)
    ensures Dist(Step(j, |h|), z, |h|) < Dist(j, z, |h|)
  {
    assert j != z;
    HoleMoves(h, e, j);
    ShiftKeepsEntries(h, e, j, numSlots);
  }

  /** Removes the entry for `keyHash` and `key`, closing the gap by shifting later entries back. */
  method HtRemove(buckets: array<Bucket>, slots: array<Slot>, keyHash: nat, key: Bytes) returns (found: bool)
    requires Table(buckets[..], slots.Length) && ProbeInv(buckets[..]) && DistinctSlots(buckets[..])
    requires AllOccupied(buckets[..], slots[..]) && HasEmpty(buckets[..])
    modifies buckets
    ensures Table(buckets[..], slots.Length) && ProbeInv(buckets[..]) && DistinctSlots(buckets[..])
    ensures !found ==> buckets[..] == old(buckets[..])
    ensures !found ==> forall e :: e in Live(buckets[..]) ==> !Matches(e, slots[..], keyHash, key)
    ensures found ==> exists e :: e in Live(old(buckets[..])) && Matches(e, slots[..], keyHash, key) &&
                                  Live(buckets[..]) == Live(old(buckets[..])) - {e}
  {
    var f := FindBucket(buckets, slots, keyHash, key);
    if f.None? {
      return false;
    }
    ShiftBack(buckets, f.value, slots.Length);
    ghost var removed := old(buckets[..])[f.value];
    assert removed in Live(old(buckets[..])) && Matches(removed, slots[..], keyHash, key);
    return true;
  }

  /** The deletion loop: the entry at `position` goes, no other entry is lost and every path is whole again. */
  method ShiftBack(buckets: array<Bucket>, position: nat, ghost numSlots: nat)
    requires Table(buckets[..], numSlots) && ProbeInv(buckets[..]) && DistinctSlots(buckets[..])
    requires HasEmpty(buckets[..]) && position < buckets.Length && buckets[position].Used()
    modifies buckets
    ensures Table(buckets[..], numSlots) && ProbeInv(buckets[..]) && DistinctSlots(buckets[..])
    ensures Live(buckets[..]) == Live(old(buckets[..])) - {old(buckets[position])}
  {
    hide ProbeInv, DistinctSlots, Live;
    var m := buckets.Length;
    ghost var b0, removed := buckets[..], buckets[position];
    ghost var z :| 0 <= z < m && !b0[z].Used();
    var empty := position;
    NextIndexIsStep(empty, m);
    var j := NextIndex(empty, m);
    ClosingStarts(b0, empty, z, numSlots);
    ghost var h := b0[empty := EMPTY];
    while true
      invariant 0 <= empty < m && 0 <= j < m && |h| == m
      invariant h == buckets[..][empty := EMPTY]
      invariant Closing(h, empty, j, b0, removed, z, numSlots)
      decreases Dist(j, z, m)
    {
      var bucket := buckets[j];
      assert h[j] == bucket;
      if bucket.slotIndex == BUCKET_EMPTY {
        break;
      }
      NextIndexIsStep(j, m);
      if ShouldMove(empty, j, Ideal(bucket.hash, m)) {
        ClosingMoves(h, empty, j, b0, removed, z, numSlots);
        buckets[empty] := bucket;
        h := Shifted(h, empty, j);
        assert h == buckets[..][j := EMPTY];
        empty := j;
      } else {
        ClosingSkips(h, empty, j, b0, removed, z, numSlots);
      }
      j := NextIndex(j, m);
    }
    HoleCloses(h, empty, j);
    buckets[empty] := EMPTY;
    assert buckets[..] == h;
  }

  /** Empties every bucket. */
  method HtClear(buckets: array<Bucket>)
    modifies buckets
    ensures forall p :: 0 <= p < buckets.Length ==> buckets[p] == EMPTY
  {
    for i := 0 to buckets.Length
      invariant forall p :: 0 <= p < i ==> buckets[p] == EMPTY
    {
      buckets[i] := EMPTY;
    }
  }

  // ---------------------------------------------------------------- lookups before and after a removal

  /** The slot that a lookup returns, as a property of the entries alone. */
  ghost predicate Finds(b: seq<Bucket>, slots: seq<Slot>, keyHash: nat, key: Bytes, s: int) {
    exists e :: e in Live(b) && Matches(e, slots, keyHash, key) && e.slotIndex == s
  }

  /** Removing one key's entry leaves every other key's lookup result as it was. */
  lemma RemovalKeepsOtherLookups(b: seq<Bucket>, b': seq<Bucket>, slots: seq<Slot>,
                                 keyHash: nat, key: Bytes, e: Bucket, otherHash: nat, other: Bytes, s: int)
    requires Matches(e, slots, keyHash, key) && Live(b') == Live(b) - {e}
    requires other != key
    ensures Finds(b, slots, otherHash, other, s) <==> Finds(b', slots, otherHash, other, s)
  {
    if Finds(b, slots, otherHash, other, s) {
      var x :| x in Live(b) && Matches(x, slots, otherHash, other) && x.slotIndex == s;
      assert x in Live(b');
    }
  }
}

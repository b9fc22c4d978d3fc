/** The intrusive eviction list, the free chain and the SIEVE hand (src/shm/ordering.rs). */
module Ordering {
  import opened Layout
  import opened Collections
  import opened Sieve

  // ---------------------------------------------------------------- what the links mean

  /** The slots of `order`, in this order, form the doubly linked eviction list. */
  ghost predicate Linked(slots: seq<Slot>, order: seq<int>, head: int, tail: int) {
    && Listed(order, |slots|) && Distinct(order)
    && head == (if order == [] then SLOT_NONE else order[0])
    && tail == (if order == [] then SLOT_NONE else order[|order| - 1])
    && (forall i :: 0 <= i < |order| ==> slots[order[i]].prev == Before(order, i) && slots[order[i]].next == After(order, i))
  }

  ghost function Before(order: seq<int>, i: nat): int
    requires i < |order|
  {
    if i == 0 then SLOT_NONE else order[i - 1]
  }

  ghost function After(order: seq<int>, i: nat): int
    requires i < |order|
  {
    if i + 1 == |order| then SLOT_NONE else order[i + 1]
  }

  /** The slots of `free` form the singly linked free chain, which shares the `next` field. */
  ghost predicate FreeChain(slots: seq<Slot>, free: seq<int>, head: int) {
    && Listed(free, |slots|) && Distinct(free)
    && head == (if free == [] then SLOT_NONE else free[0])
    && (forall i :: 0 <= i < |free| ==> slots[free[i]].next == After(free, i))
  }

  /** Two slots that agree except for their links. */
  predicate SameButLinks(a: Slot, b: Slot) {
    b == a.(prev := b.prev, next := b.next)
  }

  ghost predicate OnlyLinksOf(before: seq<Slot>, after: seq<Slot>, members: seq<int>) {
    && |before| == |after|
    && (forall s :: 0 <= s < |before| ==> SameButLinks(before[s], after[s]))
    && (forall s :: 0 <= s < |before| && s !in members ==> after[s] == before[s])
  }

  // ---------------------------------------------------------------- list operations

  /** Unlinks the slot `index`, which is the i-th of the list. */
  method ListRemove(header: Header, slots: array<Slot>, index: int, ghost order: seq<int>, ghost i: nat)
    requires Linked(slots[..], order, header.listHead, header.listTail)
    requires i < |order| && order[i] == index
    modifies header`listHead, header`listTail, slots
    ensures Linked(slots[..], RemoveAt(order, i), header.listHead, header.listTail)
    ensures OnlyLinksOf(old(slots[..]), slots[..], order)
  {
    hide RemoveAt, OnlyLinksOf, Linked, Unlinked, Listed, Distinct;
    LinksAt(slots[..], order, header.listHead, header.listTail, i);
    ghost var s0 := slots[..];
    var prev := slots[index].prev;
    var next := slots[index].next;
    if prev != SLOT_NONE {
      slots[prev] := slots[prev].(next := next);
    } else {
      header.listHead := next;
    }
    ghost var s1 := slots[..];
    if next != SLOT_NONE {
      slots[next] := slots[next].(prev := prev);
    } else {
      header.listTail := prev;
    }
    ghost var s2 := slots[..];
    slots[index] := slots[index].(prev := SLOT_NONE, next := SLOT_NONE);
    UnlinkSteps(s0, s1, s2, slots[..], order, i, old(header.listHead), old(header.listTail));
    UnlinkedIsLinked(s0, slots[..], order, i, old(header.listHead), old(header.listTail));
    UnlinkedKeepsData(s0, slots[..], order, i);
  }

  lemma LinksAt(a: seq<Slot>, order: seq<int>, head: int, tail: int, i: nat)
    requires Linked(a, order, head, tail) && i < |order|
    ensures 0 <= order[i] < |a|
    ensures a[order[i]].prev == Before(order, i) && a[order[i]].next == After(order, i)
    ensures Before(order, i) != SLOT_NONE ==> i > 0 && 0 <= Before(order, i) < |a|
    ensures After(order, i) != SLOT_NONE ==> i + 1 < |order| && 0 <= After(order, i) < |a|
    ensures Before(order, i) == SLOT_NONE ==> i == 0
    ensures After(order, i) == SLOT_NONE ==> i + 1 == |order|
  {
  }

  lemma UnlinkSteps(a: seq<Slot>, s1: seq<Slot>, s2: seq<Slot>, b: seq<Slot>, order: seq<int>, i: nat, head: int, tail: int)
    requires Linked(a, order, head, tail) && i < |order| && |s1| == |s2| == |a|
    requires s1 == if i == 0 then a else a[order[i - 1] := a[order[i - 1]].(next := After(order, i))]
    requires s2 == if i + 1 == |order| then s1 else s1[order[i + 1] := s1[order[i + 1]].(prev := Before(order, i))]
    requires b == s2[order[i] := s2[order[i]].(prev := SLOT_NONE, next := SLOT_NONE)]
    ensures Unlinked(a, b, order, i)
  {
  }

  /** The slot s after unlinking the i-th: its neighbours point at each other, it points nowhere. */
  ghost function Unlink(slot: Slot, s: int, order: seq<int>, i: nat): Slot
    requires i < |order|
  {
    if s == order[i] then slot.(prev := SLOT_NONE, next := SLOT_NONE)
    else if s == Before(order, i) then slot.(next := After(order, i))
    else if s == After(order, i) then slot.(prev := Before(order, i))
    else slot
  }

  ghost predicate Unlinked(a: seq<Slot>, b: seq<Slot>, order: seq<int>, i: nat)
    requires i < |order|
  {
    |a| == |b| && forall s :: 0 <= s < |a| ==> b[s] == Unlink(a[s], s, order, i)
  }

  lemma UnlinkedNeighbours(a: seq<Slot>, b: seq<Slot>, order: seq<int>, i: nat, head: int, tail: int, k: nat)
    requires i < |order| && k < |order| && k != i
    requires Linked(a, order, head, tail) && Unlinked(a, b, order, i)
    ensures b[order[k]].prev == if k == i + 1 then Before(order, i) else Before(order, k)
    ensures b[order[k]].next == if k + 1 == i then After(order, i) else After(order, k)
  {
    var s := order[k];
    assert s != order[i];
    assert b[s] == Unlink(a[s], s, order, i);
    if k + 1 == i {
      assert s == Before(order, i);
    } else if k == i + 1 {
      assert s == After(order, i);
      assert i > 0 ==> order[i - 1] != s;
    } else {
      assert i > 0 ==> order[i - 1] != s;
      assert i + 1 < |order| ==> order[i + 1] != s;
    }
  }

  lemma RemoveAtNeighbours(order: seq<int>, i: nat, j: nat)
    requires i < |order| && j + 1 < |order|
    ensures var r, k := RemoveAt(order, i), if j < i then j else j + 1;
            && r[j] == order[k]
            && Before(r, j) == (if k == i + 1 then Before(order, i) else Before(order, k))
            && After(r, j) == (if k + 1 == i then After(order, i) else After(order, k))
  {
  }

  lemma RemoveAtEnds(order: seq<int>, i: nat)
    requires i < |order| && |order| > 1
    ensures var r := RemoveAt(order, i);
            && r[0] == (if i == 0 then After(order, 0) else order[0])
            && r[|r| - 1] == (if i + 1 == |order| then Before(order, i) else order[|order| - 1])
  {
  }

  lemma UnlinkedAt(a: seq<Slot>, b: seq<Slot>, order: seq<int>, i: nat, head: int, tail: int, j: nat)
    requires i < |order| && Linked(a, order, head, tail) && Unlinked(a, b, order, i) && j + 1 < |order|
    ensures var r := RemoveAt(order, i);
            0 <= r[j] < |b| && b[r[j]].prev == Before(r, j) && b[r[j]].next == After(r, j)
  {
    RemoveAtNeighbours(order, i, j);
    UnlinkedNeighbours(a, b, order, i, head, tail, if j < i then j else j + 1);
  }

  lemma UnlinkedIsLinked(a: seq<Slot>, b: seq<Slot>, order: seq<int>, i: nat, head: int, tail: int)
    requires i < |order| && Linked(a, order, head, tail) && Unlinked(a, b, order, i)
    ensures Linked(b, RemoveAt(order, i), if i == 0 then After(order, 0) else head,
                   if i + 1 == |order| then Before(order, i) else tail)
  {
    var r := RemoveAt(order, i);
    RemoveAtFacts(order, i);
    if |order| > 1 { RemoveAtEnds(order, i); }
    forall j | 0 <= j < |r|
      ensures 0 <= r[j] < |b| && b[r[j]].prev == Before(r, j) && b[r[j]].next == After(r, j)
    {
      UnlinkedAt(a, b, order, i, head, tail, j);
    }
  }

  lemma UnlinkedKeepsData(a: seq<Slot>, b: seq<Slot>, order: seq<int>, i: nat)
    requires i < |order| && Unlinked(a, b, order, i)
    ensures OnlyLinksOf(a, b, order)
  {
    forall s | 0 <= s < |a| ensures SameButLinks(a[s], b[s]) && (s !in order ==> b[s] == a[s]) {
      assert b[s] == Unlink(a[s], s, order, i);
    }
  }

  /** Appends the slot `index` to the list. */
  method ListPushTail(header: Header, slots: array<Slot>, index: int, ghost order: seq<int>)
    requires Linked(slots[..], order, header.listHead, header.listTail)
    requires 0 <= index < slots.Length && index !in order
    modifies header`listHead, header`listTail, slots
    ensures Linked(slots[..], order + [index], header.listHead, header.listTail)
    ensures OnlyLinksOf(old(slots[..]), slots[..], order + [index])
  {
    hide OnlyLinksOf;
    ghost var s0, tail0 := slots[..], header.listTail;
    slots[index] := slots[index].(prev := header.listTail, next := SLOT_NONE);
    if header.listTail != SLOT_NONE {
      slots[header.listTail] := slots[header.listTail].(next := index);
    } else {
      header.listHead := index;
    }
    header.listTail := index;
    PushedLinks(s0, slots[..], order, index, old(header.listHead), tail0);
  }

  lemma PushedAt(a: seq<Slot>, b: seq<Slot>, order: seq<int>, index: int, head: int, tail: int, j: nat)
    requires Linked(a, order, head, tail) && |b| == |a| && 0 <= index < |a| && index !in order && j <= |order|
    requires forall s :: 0 <= s < |a| ==> b[s] == Pushed(a[s], s, index, tail)
    ensures var o := order + [index];
            0 <= o[j] < |b| && b[o[j]].prev == Before(o, j) && b[o[j]].next == After(o, j)
  {
    if j < |order| {
      assert order[j] in order;
      assert j + 1 < |order| ==> order[j] != order[|order| - 1];
    }
  }

  /** The slot s after appending the slot `index` behind `tail`. */
  ghost function Pushed(slot: Slot, s: int, index: int, tail: int): Slot {
    if s == index then slot.(prev := tail, next := SLOT_NONE)
    else if s == tail then slot.(next := index) else slot
  }

  lemma PushedLinks(a: seq<Slot>, b: seq<Slot>, order: seq<int>, index: int, head: int, tail: int)
    requires Linked(a, order, head, tail) && |b| == |a| && 0 <= index < |a| && index !in order
    requires forall s :: 0 <= s < |a| ==> b[s] == Pushed(a[s], s, index, tail)
    ensures Linked(b, order + [index], if order == [] then index else head, index)
    ensures OnlyLinksOf(a, b, order + [index])
  {
    var o := order + [index];
    forall j | 0 <= j < |o|
      ensures 0 <= o[j] < |b| && b[o[j]].prev == Before(o, j) && b[o[j]].next == After(o, j)
    {
      PushedAt(a, b, order, index, head, tail, j);
    }
    forall s | 0 <= s < |a| && s !in o ensures b[s] == a[s] {
      assert o[|order|] == index;
      assert order != [] ==> o[|order| - 1] == tail;
      assert tail != SLOT_NONE ==> order != [];
    }
  }

  // ---------------------------------------------------------------- SIEVE

  ghost function VisOf(slots: seq<Slot>): (v: seq<bool>)
    ensures |v| == |slots|
    ensures forall j :: 0 <= j < |slots| ==> v[j] == slots[j].visited
  {
    seq(|slots|, j requires 0 <= j < |slots| => slots[j].visited)
  }

  ghost predicate OnlyVisited(before: seq<Slot>, after: seq<Slot>) {
    && |before| == |after|
    && forall s :: 0 <= s < |before| ==> after[s] == before[s].(visited := after[s].visited)
  }

  /** What the lock-free readers do to the slots between two steps of a writer. */
  method ReadersMark(slots: array<Slot>, m: set<nat>)
    modifies slots
    ensures OnlyVisited(old(slots[..]), slots[..])
    ensures VisOf(slots[..]) == Marked(VisOf(old(slots[..])), m)
  {
    forall s | 0 <= s < slots.Length && s in m {
      slots[s] := slots[s].(visited := true);
    }
  }

  /** The position at which the scan begins: the hand, or the head of the list. */
  ghost function StartIndex(order: seq<int>, hand: int): (i: nat)
    requires order != [] && (hand == SLOT_NONE || hand in order)
    ensures i < |order|
  {
    if hand == SLOT_NONE then 0 else IndexOf(order, hand)
  }

  lemma LinkedIgnoresVisited(a: seq<Slot>, b: seq<Slot>, order: seq<int>, head: int, tail: int)
    requires Linked(a, order, head, tail) && OnlyVisited(a, b)
    ensures Linked(b, order, head, tail)
  {
    forall i | 0 <= i < |order|
      ensures b[order[i]].prev == Before(order, i) && b[order[i]].next == After(order, i)
    {
      assert b[order[i]] == a[order[i]].(visited := b[order[i]].visited);
    }
  }

  /** The slot after `hand` in cyclic list order. */
  method NextHand(header: Header, slots: array<Slot>, hand: int, ghost order: seq<int>, ghost i: nat) returns (r: int)
    requires Linked(slots[..], order, header.listHead, header.listTail)
    requires i < |order| && hand == order[i]
    ensures r == order[Step(i, |order|)]
  {
    var next := slots[hand].next;
    assert next == After(order, i);
    r := if next != SLOT_NONE then next else header.listHead;
  }

  lemma ClearBit(slots: seq<Slot>, s: nat)
    requires s < |slots|
    ensures VisOf(slots[s := slots[s].(visited := false)]) == VisOf(slots)[s := false]
  {
  }

  /** One step of the scan, preceded by the marks `m` of readers: stop at an unvisited entry, or clear its bit. */
  method SieveStep(header: Header, slots: array<Slot>, hand: int, m: set<nat>, ghost order: seq<int>, ghost i: nat)
    returns (stop: bool, next: int)
    requires Linked(slots[..], order, header.listHead, header.listTail)
    requires i < |order| && hand == order[i]
    modifies slots
    ensures OnlyVisited(old(slots[..]), slots[..])
    ensures next == order[Step(i, |order|)]
    ensures var v := Marked(VisOf(old(slots[..])), m);
            stop == !v[order[i]] && VisOf(slots[..]) == if stop then v else v[order[i] := false]
  {
    ReadersMark(slots, m);
    LinkedIgnoresVisited(old(slots[..]), slots[..], order, header.listHead, header.listTail);
    next := NextHand(header, slots, hand, order, i);
    stop := !slots[hand].visited;
    if !stop {
      ClearBit(slots[..], hand);
      slots[hand] := slots[hand].(visited := false);
    }
  }

  /** Picks the victim. `marks` are the visited bits that readers set while the scan runs. */
  method SieveEvict(header: Header, slots: array<Slot>, marks: Marks, ghost order: seq<int>) returns (victim: int)
    requires Linked(slots[..], order, header.listHead, header.listTail)
    requires header.sieveHand == SLOT_NONE || header.sieveHand in order
    modifies header`sieveHand, slots
    ensures order == [] ==> victim == SLOT_NONE && slots[..] == old(slots[..]) && header.sieveHand == old(header.sieveHand)
    ensures order != [] ==>
              var r := Scan(order, VisOf(old(slots[..])), StartIndex(order, old(header.sieveHand)), marks, 0, 2 * slots.Length);
              && victim == order[r.index]
              && VisOf(slots[..]) == r.vis
              && header.sieveHand == (if r.found then order[Step(r.index, |order|)] else SLOT_NONE)
    ensures OnlyVisited(old(slots[..]), slots[..])
  {
    hide Distinct, Before, After, VisOf, OnlyVisited;
    if header.listHead == SLOT_NONE {
      assert OnlyVisited(slots[..], slots[..]) by { OnlyVisitedSteps(slots[..], slots[..], slots[..]); }
      return SLOT_NONE;
    }
    var hand := header.sieveHand;
    ghost var i: nat := StartIndex(order, hand);
    if hand == SLOT_NONE {
      hand := header.listHead;
    }
    victim := SieveLoop(header, slots, hand, marks, order, i);
  }

  lemma OnlyVisitedSteps(a: seq<Slot>, b: seq<Slot>, c: seq<Slot>)
    ensures OnlyVisited(a, a)
    ensures OnlyVisited(a, b) && OnlyVisited(b, c) ==> OnlyVisited(a, c)
  {
  }

  /** The scan itself, from the i-th slot of the list. */
  method SieveLoop(header: Header, slots: array<Slot>, start: int, marks: Marks, ghost order: seq<int>, ghost first: nat)
    returns (victim: int)
    requires Linked(slots[..], order, header.listHead, header.listTail)
    requires first < |order| && start == order[first]
    modifies header`sieveHand, slots
    ensures var r := Scan(order, VisOf(old(slots[..])), first, marks, 0, 2 * slots.Length);
            && victim == order[r.index]
            && VisOf(slots[..]) == r.vis
            && header.sieveHand == (if r.found then order[Step(r.index, |order|)] else SLOT_NONE)
    ensures OnlyVisited(old(slots[..]), slots[..])
  {
    hide Linked, OnlyVisited, VisOf, Distinct;
    var budget := 2 * slots.Length;
    var hand := start;
    ghost var slots0 := slots[..];
    ghost var i: nat := first;
    OnlyVisitedSteps(slots0, slots0, slots0);
    ListedIn(slots0, order, header.listHead, header.listTail);
    for k := 0 to budget
      invariant i < |order| && hand == order[i]
      invariant OnlyVisited(slots0, slots[..])
      invariant Scan(order, VisOf(slots[..]), i, marks, k, budget) == Scan(order, VisOf(slots0), first, marks, 0, budget)
    {
      ghost var before := slots[..];
      LinkedIgnoresVisited(slots0, before, order, header.listHead, header.listTail);
      var stop, next := SieveStep(header, slots, hand, MarksAt(marks, k), order, i);
      OnlyVisitedSteps(slots0, before, slots[..]);
      if stop {
        header.sieveHand := next;
        return hand;
      }
      hand := next;
      i := Step(i, |order|);
    }
    header.sieveHand := SLOT_NONE;
    return hand;
  }

  lemma ListedIn(a: seq<Slot>, order: seq<int>, head: int, tail: int)
    requires Linked(a, order, head, tail)
    ensures Listed(order, |a|)
  {
  }
}

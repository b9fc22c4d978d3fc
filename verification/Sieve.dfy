/** The SIEVE scan (src/shm/ordering.rs, sieve_evict) as a function of the list order and the visited bits. */
module Sieve {
  import opened Layout
  import opened Collections
  import opened HashTable

  /** Where the scan stopped, the visited bits it left, and whether it stopped at an unvisited entry. */
  datatype ScanResult = ScanResult(index: nat, vis: seq<bool>, found: bool)

  /** Readers hold no lock: before each step of the scan they may have set any visited bits. */
  type Marks = seq<set<nat>>

  function MarksAt(marks: Marks, k: nat): set<nat> {
    if k < |marks| then marks[k] else {}
  }

  function Marked(vis: seq<bool>, m: set<nat>): (r: seq<bool>)
    ensures |r| == |vis|
    ensures forall j :: 0 <= j < |vis| ==> r[j] == (vis[j] || j in m)
  {
    seq(|vis|, j requires 0 <= j < |vis| => vis[j] || j in m)
  }

  ghost predicate Listed(order: seq<int>, n: nat) {
    forall i :: 0 <= i < |order| ==> 0 <= order[i] < n
  }

  /** The scan from position i of the list, at its k-th step of at most `budget`. */
  ghost function Scan(order: seq<int>, vis: seq<bool>, i: nat, marks: Marks, k: nat, budget: nat): (r: ScanResult)
    requires i < |order| && k <= budget && Listed(order, |vis|)
    ensures r.index < |order| && |r.vis| == |vis|
    ensures r.found ==> !r.vis[order[r.index]]
    decreases budget - k
  {
    if k == budget then ScanResult(i, vis, false)
    else
      var v := Marked(vis, MarksAt(marks, k));
      if v[order[i]] then Scan(order, v[order[i] := false], Step(i, |order|), marks, k + 1, budget)
      else ScanResult(i, v, true)
  }

  ghost predicate AllVisited(order: seq<int>, vis: seq<bool>)
    requires Listed(order, |vis|)
  {
    forall q :: 0 <= q < |order| ==> vis[order[q]]
  }

  /** `index` is the first unvisited position in cyclic list order from i, or i itself when all are visited. */
  ghost predicate FirstUnvisited(order: seq<int>, vis: seq<bool>, i: nat, index: nat)
    requires i < |order| && Listed(order, |vis|)
  {
    && index < |order|
    && if AllVisited(order, vis) then index == i
       else !vis[order[index]] &&
            forall q :: 0 <= q < |order| && Dist(i, q, |order|) < Dist(i, index, |order|) ==> vis[order[q]]
  }

  /** The slots that a scan from i to `index` has passed. */
  ghost predicate Passed(order: seq<int>, vis: seq<bool>, i: nat, index: nat, s: int)
    requires i < |order| && index < |order| && Listed(order, |vis|)
  {
    exists q :: 0 <= q < |order| && order[q] == s
                && (AllVisited(order, vis) || Dist(i, q, |order|) < Dist(i, index, |order|))
  }

  /** The bits after a scan that nobody disturbed: exactly those it passed are cleared. */
  ghost predicate ClearedPassed(order: seq<int>, vis: seq<bool>, i: nat, index: nat, vis': seq<bool>)
    requires i < |order| && index < |order| && Listed(order, |vis|)
  {
    && |vis'| == |vis|
    && forall s :: 0 <= s < |vis| ==> vis'[s] == (vis[s] && !Passed(order, vis, i, index, s))
  }

  /** The state of an undisturbed scan after k steps from i0. */
  ghost predicate Scanned(order: seq<int>, vis0: seq<bool>, vis: seq<bool>, i0: nat, i: nat, k: nat) {
    && i0 < |order| && i < |order| && k <= |order| && |vis| == |vis0| && Listed(order, |vis0|) && Distinct(order)
    && (if k < |order| then Dist(i0, i, |order|) == k else i == i0)
    && (forall q :: 0 <= q < |order| ==>
          if Dist(i0, q, |order|) < k then vis0[order[q]] && !vis[order[q]] else vis[order[q]] == vis0[order[q]])
    && (forall s :: 0 <= s < |vis| && s !in order ==> vis[s] == vis0[s])
  }

  lemma ScannedStep(order: seq<int>, vis0: seq<bool>, vis: seq<bool>, i0: nat, i: nat, k: nat)
    requires Scanned(order, vis0, vis, i0, i, k) && vis[order[i]]
    ensures k < |order| && Scanned(order, vis0, vis[order[i] := false], i0, Step(i, |order|), k + 1)
  {
    assert Dist(i0, i, |order|) == k;
    forall q | 0 <= q < |order|
      ensures if Dist(i0, q, |order|) < k + 1 then vis0[order[q]] && !vis[order[i] := false][order[q]]
              else vis[order[i] := false][order[q]] == vis0[order[q]]
    {
      if q != i { assert order[q] != order[i]; }
    }
  }

  lemma ScannedStop(order: seq<int>, vis0: seq<bool>, vis: seq<bool>, i0: nat, i: nat, k: nat)
    requires Scanned(order, vis0, vis, i0, i, k) && !vis[order[i]]
    ensures FirstUnvisited(order, vis0, i0, i) && ClearedPassed(order, vis0, i0, i, vis)
  {
    if k == |order| {
      assert forall q :: 0 <= q < |order| ==> Dist(i0, q, |order|) < k;
      assert AllVisited(order, vis0);
    } else {
      assert !vis0[order[i]];
    }
    forall s | 0 <= s < |vis| ensures vis[s] == (vis0[s] && !Passed(order, vis0, i0, i, s)) {
      if s in order {
        var q :| 0 <= q < |order| && order[q] == s;
        if Passed(order, vis0, i0, i, s) {
          var q' :| 0 <= q' < |order| && order[q'] == s && (AllVisited(order, vis0) || Dist(i0, q', |order|) < Dist(i0, i, |order|));
          assert q' == q;
        }
      }
    }
  }

  lemma {:induction false} QuietScanFrom(order: seq<int>, vis0: seq<bool>, vis: seq<bool>, i0: nat, i: nat, k: nat, budget: nat)
    requires Scanned(order, vis0, vis, i0, i, k) && budget > |order|
    ensures var r := Scan(order, vis, i, [], k, budget);
            r.found && FirstUnvisited(order, vis0, i0, r.index) && ClearedPassed(order, vis0, i0, r.index, r.vis)
    decreases budget - k
  {
    assert Marked(vis, MarksAt([], k)) == vis;
    if vis[order[i]] {
      ScannedStep(order, vis0, vis, i0, i, k);
      QuietScanFrom(order, vis0, vis[order[i] := false], i0, Step(i, |order|), k + 1, budget);
    } else {
      ScannedStop(order, vis0, vis, i0, i, k);
    }
  }

  /** An undisturbed scan stops within |order| + 1 steps, never by exhausting its budget, at the first unvisited
      entry from the hand (at the entry it began with when all are visited), having cleared what it passed. */
  lemma QuietScan(order: seq<int>, vis: seq<bool>, i: nat, budget: nat)
    requires i < |order| && Distinct(order) && Listed(order, |vis|) && budget > |order|
    ensures var r := Scan(order, vis, i, [], 0, budget);
            r.found && FirstUnvisited(order, vis, i, r.index) && ClearedPassed(order, vis, i, r.index, r.vis)
  {
    QuietScanFrom(order, vis, vis, i, i, 0, budget);
  }

  /** The two conditions leave one possible outcome. */
  lemma OutcomeUnique(order: seq<int>, vis: seq<bool>, i: nat, a: nat, b: nat, va: seq<bool>, vb: seq<bool>)
    requires i < |order| && Listed(order, |vis|)
    requires FirstUnvisited(order, vis, i, a) && ClearedPassed(order, vis, i, a, va)
    requires FirstUnvisited(order, vis, i, b) && ClearedPassed(order, vis, i, b, vb)
    ensures a == b && va == vb
  {
    assert a == b;
  }

  // ---------------------------------------------------------------- the fallback

  /** The slot that a scan from position i looks at in its k-th step, if it has not stopped before. */
  function SlotAt(order: seq<int>, i: nat, k: nat): int
    requires order != []
  {
    order[(i + k) % |order|]
  }

  /** The scan finds the bit of its k-th step set: a reader has marked the slot since the scan last passed it, or the
      scan comes there for the first time and it was visited at the start. */
  ghost predicate FoundVisited(order: seq<int>, vis: seq<bool>, i: nat, marks: Marks, k: nat)
    requires order != [] && Listed(order, |vis|)
  {
    || (exists j: nat :: j <= k && k - j < |order| && SlotAt(order, i, k) in MarksAt(marks, j))
    || (k < |order| && vis[SlotAt(order, i, k)])
  }

  /** At step `until`, the bit that the scan will find at step k is set so far. */
  ghost predicate KeptVisited(order: seq<int>, vis: seq<bool>, i: nat, marks: Marks, until: nat, k: nat)
    requires order != [] && Listed(order, |vis|)
  {
    || (exists j: nat :: j < until && k - j < |order| && SlotAt(order, i, k) in MarksAt(marks, j))
    || (k < |order| && vis[SlotAt(order, i, k)])
  }

  lemma SameResidue(x: nat, y: nat, n: nat)
    requires n > 0 && x <= y < x + n && x % n == y % n
    ensures x == y
  {
    var d := y / n - x / n;
    assert d * n == y - x;
    if d != 0 { MulAtLeast(d, n); }
  }

  /** Within one round the scan meets no slot twice; after a round it comes back to the same one. */
  lemma SlotsAhead(order: seq<int>, i: nat, k: nat, m: nat)
    requires order != [] && Distinct(order) && k < m <= k + |order|
    ensures SlotAt(order, i, m) == SlotAt(order, i, k) <==> m == k + |order|
  {
    var n := |order|;
    if m == k + n {
      ModUnique(i + m, n, (i + k) / n + 1, (i + k) % n);
    } else if (i + m) % n == (i + k) % n {
      SameResidue(i + k, i + m, n);
    }
  }

  lemma StepAhead(i: nat, k: nat, n: nat)
    requires n > 0
    ensures Step((i + k) % n, n) == (i + k + 1) % n
  {
    var q, r := (i + k) / n, (i + k) % n;
    if r + 1 == n { ModUnique(i + k + 1, n, q + 1, 0); } else { ModUnique(i + k + 1, n, q, r + 1); }
  }

  /** The bits v of a scan that has gone on for k steps, as far as it will meet them in its next round. */
  ghost predicate Pending(order: seq<int>, vis: seq<bool>, i: nat, marks: Marks, k: nat, v: seq<bool>)
    requires order != [] && Listed(order, |vis|)
  {
    && |v| == |vis|
    && forall m: nat :: k <= m < k + |order| ==>
         0 <= SlotAt(order, i, m) < |v| && v[SlotAt(order, i, m)] == KeptVisited(order, vis, i, marks, k, m)
  }

  lemma PendingMarked(order: seq<int>, vis: seq<bool>, i: nat, marks: Marks, k: nat, v: seq<bool>, m: nat)
    requires order != [] && Listed(order, |vis|) && Pending(order, vis, i, marks, k, v) && k <= m < k + |order|
    ensures Marked(v, MarksAt(marks, k))[SlotAt(order, i, m)] == KeptVisited(order, vis, i, marks, k + 1, m)
    ensures KeptVisited(order, vis, i, marks, k + 1, k) == FoundVisited(order, vis, i, marks, k)
  {
    if SlotAt(order, i, m) in MarksAt(marks, k) { assert m - k < |order|; }
    if exists j: nat :: j < k + 1 && m - j < |order| && SlotAt(order, i, m) in MarksAt(marks, j) {
      var j: nat :| j < k + 1 && m - j < |order| && SlotAt(order, i, m) in MarksAt(marks, j);
      assert j < k || j == k;
    }
  }

  lemma PendingStep(order: seq<int>, vis: seq<bool>, i: nat, marks: Marks, k: nat, v: seq<bool>)
    requires order != [] && Distinct(order) && Listed(order, |vis|) && Pending(order, vis, i, marks, k, v)
    ensures 0 <= SlotAt(order, i, k) < |v|
    ensures Pending(order, vis, i, marks, k + 1, Marked(v, MarksAt(marks, k))[SlotAt(order, i, k) := false])
  {
    var n, s := |order|, SlotAt(order, i, k);
    var v' := Marked(v, MarksAt(marks, k))[s := false];
    forall m: nat | k + 1 <= m < k + 1 + n
      ensures v'[SlotAt(order, i, m)] == KeptVisited(order, vis, i, marks, k + 1, m)
    {
      SlotsAhead(order, i, k, m);
      if m < k + n { PendingMarked(order, vis, i, marks, k, v, m); }
    }
  }

  lemma {:induction false} FallbackFrom(order: seq<int>, vis: seq<bool>, i: nat, marks: Marks, k: nat, v: seq<bool>, budget: nat)
    requires order != [] && Distinct(order) && Listed(order, |vis|) && k <= budget
    requires Pending(order, vis, i, marks, k, v)
    ensures !Scan(order, v, (i + k) % |order|, marks, k, budget).found <==>
            forall m: nat :: k <= m < budget ==> FoundVisited(order, vis, i, marks, m)
    decreases budget - k
  {
    if k < budget {
      PendingMarked(order, vis, i, marks, k, v, k);
      PendingStep(order, vis, i, marks, k, v);
      StepAhead(i, k, |order|);
      FallbackFrom(order, vis, i, marks, k + 1, Marked(v, MarksAt(marks, k))[SlotAt(order, i, k) := false], budget);
    }
  }

  /** The scan runs into its fallback exactly when at every one of its steps the slot it looks at has been marked since
      the scan last passed it, or is met for the first time and was visited at the start. */
  lemma FallbackIff(order: seq<int>, vis: seq<bool>, i: nat, marks: Marks, budget: nat)
    requires i < |order| && Distinct(order) && Listed(order, |vis|)
    ensures !Scan(order, vis, i, marks, 0, budget).found <==>
            forall k: nat :: k < budget ==> FoundVisited(order, vis, i, marks, k)
  {
    ModUnique(i, |order|, 0, i);
    FallbackFrom(order, vis, i, marks, 0, vis, budget);
  }

  /** Where the scan stops, whatever readers mark: at the first step whose slot it does not find visited, and, when that
      is none within the budget, where the hand has come to by then. */
  lemma {:induction false} StopsWhere(order: seq<int>, vis: seq<bool>, i: nat, marks: Marks, k: nat, v: seq<bool>, budget: nat) returns (m: nat)
    requires order != [] && Distinct(order) && Listed(order, |vis|) && k <= budget
    requires Pending(order, vis, i, marks, k, v)
    ensures k <= m <= budget && (m < budget ==> !FoundVisited(order, vis, i, marks, m))
    ensures forall j: nat :: k <= j < m ==> FoundVisited(order, vis, i, marks, j)
    ensures Scan(order, v, (i + k) % |order|, marks, k, budget).index == (i + m) % |order|
    ensures Scan(order, v, (i + k) % |order|, marks, k, budget).found <==> m < budget
    ensures var r := Scan(order, v, (i + k) % |order|, marks, k, budget).vis;
            forall x: nat :: m <= x < m + |order| ==>
              0 <= SlotAt(order, i, x) < |r| &&
              r[SlotAt(order, i, x)] == KeptVisited(order, vis, i, marks, if m < budget then m + 1 else m, x)
    decreases budget - k
  {
    m := k;
    if k < budget {
      forall x: nat | k <= x < k + |order|
        ensures Marked(v, MarksAt(marks, k))[SlotAt(order, i, x)] == KeptVisited(order, vis, i, marks, k + 1, x)
        ensures KeptVisited(order, vis, i, marks, k + 1, k) == FoundVisited(order, vis, i, marks, k)
      {
        PendingMarked(order, vis, i, marks, k, v, x);
      }
      if FoundVisited(order, vis, i, marks, k) {
        PendingStep(order, vis, i, marks, k, v);
        StepAhead(i, k, |order|);
        m := StopsWhere(order, vis, i, marks, k + 1, Marked(v, MarksAt(marks, k))[SlotAt(order, i, k) := false], budget);
      }
    }
  }

  /** What a scan with the result r did, if m steps of it found their slot visited: it stopped at the slot that comes next,
      as a find if budget was left and as the fallback if not, and the bits on the list are those of the last marks. */
  ghost predicate StoppedAfter(order: seq<int>, vis: seq<bool>, i: nat, marks: Marks, budget: nat, r: ScanResult, m: nat)
    requires order != [] && Listed(order, |vis|)
  {
    && m <= budget && r.index == (i + m) % |order| && (r.found <==> m < budget)
    && (m < budget ==> !FoundVisited(order, vis, i, marks, m))
    && (forall j: nat :: j < m ==> FoundVisited(order, vis, i, marks, j))
    && forall x: nat :: m <= x < m + |order| ==>
         0 <= SlotAt(order, i, x) < |r.vis| &&
         r.vis[SlotAt(order, i, x)] == KeptVisited(order, vis, i, marks, if m < budget then m + 1 else m, x)
  }

  /** The scan under any interference: it stops at the first slot that it does not find visited, and when there is none
      within the budget, at the slot it has come to. */
  lemma ScanUnderMarks(order: seq<int>, vis: seq<bool>, i: nat, marks: Marks, budget: nat)
    requires i < |order| && Distinct(order) && Listed(order, |vis|)
    ensures exists m: nat :: StoppedAfter(order, vis, i, marks, budget, Scan(order, vis, i, marks, 0, budget), m)
  {
    ModUnique(i, |order|, 0, i);
    var m := StopsWhere(order, vis, i, marks, 0, vis, budget);
    assert StoppedAfter(order, vis, i, marks, budget, Scan(order, vis, i, marks, 0, budget), m);
  }

  /** Readers who always mark the slot that the scan looks at next drive it into the fallback, whatever the list, the
      bits, the hand and the budget. */
  lemma FallbackUnderInterference(order: seq<int>, vis: seq<bool>, i: nat, budget: nat)
    requires i < |order| && Distinct(order) && Listed(order, |vis|)
    ensures var marks: Marks := seq(budget, k requires 0 <= k < budget => {order[(i + k) % |order|]});
            !Scan(order, vis, i, marks, 0, budget).found
  {
    var marks: Marks := seq(budget, k requires 0 <= k < budget => {order[(i + k) % |order|]});
    forall k: nat | k < budget ensures FoundVisited(order, vis, i, marks, k) {
      assert k - k < |order| && SlotAt(order, i, k) in MarksAt(marks, k);
    }
    FallbackIff(order, vis, i, marks, budget);
  }

  ghost function VisitedSlots(vis: seq<bool>): set<nat> {
    set s: nat | s < |vis| && vis[s] :: s
  }

  lemma ClearedSlots(v: seq<bool>, x: nat)
    requires x < |v| && v[x]
    ensures |VisitedSlots(v[x := false])| + 1 == |VisitedSlots(v)|
  {
    assert x in VisitedSlots(v);
    var v' := v[x := false];
    forall y ensures y in VisitedSlots(v') <==> y in VisitedSlots(v) - {x} {
      assert y in VisitedSlots(v') <==> 0 <= y < |v| && v'[y];
      assert y in VisitedSlots(v) <==> 0 <= y < |v| && v[y];
    }
    assert VisitedSlots(v') == VisitedSlots(v) - {x};
  }

  lemma MarkedSlots(vis: seq<bool>, m: set<nat>)
    ensures |VisitedSlots(Marked(vis, m))| <= |VisitedSlots(vis)| + |m|
  {
    SubsetSize(VisitedSlots(Marked(vis, m)), VisitedSlots(vis) + m);
  }

  /** How many marks readers make from step k on. */
  ghost function MarksFrom(marks: Marks, k: nat, budget: nat): nat
    requires k <= budget
    decreases budget - k
  {
    if k == budget then 0 else |MarksAt(marks, k)| + MarksFrom(marks, k + 1, budget)
  }

  /** The fallback needs interference: every step that does not stop clears a bit, so the bits set at the start
      and the marks made meanwhile together number at least the budget. */
  lemma {:induction false} FallbackNeedsMarks(order: seq<int>, vis: seq<bool>, i: nat, marks: Marks, k: nat, budget: nat)
    requires i < |order| && k <= budget && Listed(order, |vis|)
    requires !Scan(order, vis, i, marks, k, budget).found
    ensures |VisitedSlots(vis)| + MarksFrom(marks, k, budget) >= budget - k
    decreases budget - k
  {
    if k < budget {
      var m := MarksAt(marks, k);
      var v := Marked(vis, m);
      var v' := v[order[i] := false];
      FallbackNeedsMarks(order, v', Step(i, |order|), marks, k + 1, budget);
      ClearedSlots(v, order[i]);
      MarkedSlots(vis, m);
    }
  }
}

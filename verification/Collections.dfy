/** Facts about sequences and finite sets that the other modules share. */
module Collections {

  ghost predicate Distinct<T>(s: seq<T>) {
    forall p, q :: 0 <= p < q < |s| ==> s[p] != s[q]
  }

  ghost function Elements<T>(s: seq<T>): set<T> {
    set x | x in s
  }

  function RemoveAt<T>(s: seq<T>, i: nat): (r: seq<T>)
    requires i < |s|
  {
    s[..i] + s[i + 1..]
  }

  /** The position of x in s. */
  function IndexOf<T(==)>(s: seq<T>, x: T): (i: nat)
    requires x in s
    ensures i < |s| && s[i] == x && x !in s[..i]
  {
    if s[0] == x then 0 else 1 + IndexOf(s[1..], x)
  }

  lemma IndexOfDistinct<T>(s: seq<T>, i: nat)
    requires Distinct(s) && i < |s|
    ensures IndexOf(s, s[i]) == i
  {
  }

  lemma RemoveAtFacts<T>(s: seq<T>, i: nat)
    requires Distinct(s) && i < |s|
    ensures Distinct(RemoveAt(s, i)) && s[i] !in RemoveAt(s, i)
    ensures Elements(RemoveAt(s, i)) == Elements(s) - {s[i]}
    ensures forall x :: x in RemoveAt(s, i) <==> x in s && x != s[i]
  {
    var r := RemoveAt(s, i);
    forall x | x in s && x != s[i] ensures x in r {
      var j :| 0 <= j < |s| && s[j] == x;
      assert r[if j < i then j else j - 1] == x;
    }
  }

  /** 0, 1, ..., n - 1. */
  function UpTo(n: nat): (r: seq<int>)
    ensures |r| == n && forall i :: 0 <= i < n ==> r[i] == i
  {
    seq(n, i => i)
  }

  lemma UpToMembers(n: nat)
    ensures forall x :: x in UpTo(n) <==> 0 <= x < n
  {
    forall x | 0 <= x < n ensures x in UpTo(n) { assert UpTo(n)[x] == x; }
  }

  ghost function Range(n: nat): (r: set<int>)
    ensures forall i :: i in r <==> 0 <= i < n
  {
    if n == 0 then {} else Range(n - 1) + {n - 1}
  }

  lemma {:induction false} RangeSize(n: nat)
    ensures |Range(n)| == n
  {
    if n > 0 { RangeSize(n - 1); }
  }

  lemma {:induction false} SubsetSize<T>(a: set<T>, b: set<T>)
    requires a <= b
    ensures |a| <= |b|
  {
    if a != {} {
      var x :| x in a;
      SubsetSize(a - {x}, b - {x});
    }
  }

  lemma {:induction false} ElementsSize<T>(s: seq<T>)
    requires Distinct(s)
    ensures |Elements(s)| == |s|
  {
    if s != [] {
      var a, x := s[..|s| - 1], s[|s| - 1];
      ElementsSize(a);
      assert s == a + [x];
      assert Elements(s) == Elements(a) + {x};
    }
  }

  lemma {:induction false} ElementsAtMost<T>(s: seq<T>)
    ensures |Elements(s)| <= |s|
  {
    if s != [] {
      var a, x := s[..|s| - 1], s[|s| - 1];
      ElementsAtMost(a);
      assert s == a + [x];
      assert Elements(s) == Elements(a) + {x};
    }
  }

  /** Distinct naturals below n are at most n many. */
  lemma DistinctBelow(s: seq<int>, n: nat)
    requires Distinct(s)
    requires forall p :: 0 <= p < |s| ==> 0 <= s[p] < n
    ensures |s| <= n
  {
    RangeSize(n);
    ElementsSize(s);
    SubsetSize(Elements(s), Range(n));
  }

  /** Distinct naturals that are exactly those below n are n many. */
  lemma DistinctCover(s: seq<int>, n: nat)
    requires Distinct(s)
    requires forall x :: x in s <==> 0 <= x < n
    ensures |s| == n
  {
    RangeSize(n);
    ElementsSize(s);
    assert Elements(s) == Range(n);
  }
}

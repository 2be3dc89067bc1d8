// Counting finite sets: sequences without repetition, subsets and ranges.
module Counting {
  ghost predicate NoRepeats<T>(q: seq<T>) {
    forall i, j :: 0 <= i < j < |q| ==> q[i] != q[j]
  }

  // Distinct members of a set are no more than the set has.
  lemma {:induction false} DistinctWithin<T>(q: seq<T>, w: set<T>)
    requires NoRepeats(q)
    requires forall i :: 0 <= i < |q| ==> q[i] in w
    ensures |q| <= |w|
    decreases |q|
  {
    if |q| > 0 {
      DistinctWithin(q[..|q| - 1], w - {q[|q| - 1]});
    }
  }

  lemma {:induction false} SubsetSize<T>(a: set<T>, b: set<T>)
    requires a <= b
    ensures |a| <= |b|
    decreases |a|
  {
    if a != {} {
      var x :| x in a;
      SubsetSize(a - {x}, b - {x});
    }
  }

  ghost function Range(a: nat, b: nat): (s: set<nat>)
    requires a <= b
    ensures |s| == b - a
    ensures forall x: nat :: x in s <==> a <= x < b
  {
    if a == b then {} else Range(a, b - 1) + {b - 1}
  }

  lemma IntervalSize(s: set<nat>, a: nat, b: nat)
    requires a <= b && forall x: nat :: x in s <==> a <= x < b
    ensures |s| == b - a
  {
    assert s == Range(a, b);
  }

  // n distinct numbers below n are all the numbers below n.
  lemma NoneMissing(q: seq<nat>, n: nat, x: nat)
    requires |q| == n && NoRepeats(q) && x < n && forall i :: 0 <= i < n ==> q[i] < n
    ensures exists i: nat :: i < n && q[i] == x
  {
    hide NoRepeats;
    assert x in Range(0, n);
    if forall i: nat :: i < n ==> q[i] != x {
      DistinctWithin(q, Range(0, n) - {x});
    }
  }

  // Sets matched one to one are equally large.
  lemma {:induction false} MatchedSize<A, B>(a: set<A>, b: set<B>, g: map<A, B>)
    requires forall x :: x in a ==> x in g && g[x] in b
    requires forall y :: y in b ==> exists x :: x in a && x in g && g[x] == y
    requires forall x, y :: x in a && y in a && x in g && y in g && g[x] == g[y] ==> x == y
    ensures |a| == |b|
    decreases |a|
  {
    if a != {} {
      var x :| x in a;
      forall y | y in b - {g[x]}
        ensures exists z :: z in a - {x} && z in g && g[z] == y
      {
        var z :| z in a && z in g && g[z] == y;
        assert z in a - {x};
      }
      MatchedSize(a - {x}, b - {g[x]}, g);
    } else if y :| y in b {
      assert false;
    }
  }

  // A set of numbers below n is smaller than n exactly when it misses one of them.
  lemma SomeMissing(s: set<nat>, n: nat)
    requires forall x :: x in s ==> x < n
    ensures |s| <= n
    ensures |s| < n <==> exists x: nat :: x < n && x !in s
  {
    assert forall x: nat :: x in s ==> x in Range(0, n);
    SubsetSize(s, Range(0, n));
    if x: nat :| x < n && x !in s {
      SubsetSize(s, Range(0, n) - {x});
    } else {
      assert s == Range(0, n);
    }
  }
}

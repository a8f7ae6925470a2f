/** Duplicate-free sequences and the pigeonhole principle. */
module Sequences {

  ghost predicate Distinct<T>(s: seq<T>) {
    forall i, j | 0 <= i < j < |s| :: s[i] != s[j]
  }

  ghost predicate Below(s: seq<int>, n: int) {
    forall i | 0 <= i < |s| :: 0 <= s[i] < n
  }

  function ToSet<T>(s: seq<T>): set<T> {
    set x | x in s
  }

  lemma {:induction false} DistinctSize<T>(s: seq<T>)
    requires Distinct(s)
    ensures |ToSet(s)| == |s|
  {
    if s != [] {
      var front, last := s[..|s| - 1], s[|s| - 1];
      DistinctSize(front);
      assert ToSet(s) == ToSet(front) + {last};
    }
  }

  function Range(n: nat): (r: set<int>)
    ensures forall x :: x in r <==> 0 <= x < n
    ensures |r| == n
  {
    if n == 0 then {} else Range(n - 1) + {n - 1}
  }

  lemma SubsetSize<T>(a: set<T>, b: set<T>)
    requires a <= b
    ensures |a| <= |b|
    ensures |a| == |b| ==> a == b
  {
    assert b == a + (b - a);
  }

  /** At most n distinct numbers lie below n; n of them are all of them. */
  lemma DistinctBelow(s: seq<int>, n: nat)
    requires Distinct(s) && Below(s, n)
    ensures |s| <= n
    ensures |s| == n <==> forall x | 0 <= x < n :: x in s
  {
    DistinctSize(s);
    SubsetSize(ToSet(s), Range(n));
    if |s| == n {
      forall x | 0 <= x < n
        ensures x in s
      {
        assert x in Range(n);
      }
    } else if forall x | 0 <= x < n :: x in s {
      assert Range(n) <= ToSet(s);
      SubsetSize(Range(n), ToSet(s));
    }
  }

  /** More than n numbers below n repeat. */
  lemma Pigeonhole(s: seq<int>, n: nat) returns (i: nat, j: nat)
    requires Below(s, n) && |s| > n
    ensures i < j < |s| && s[i] == s[j]
  {
    if Distinct(s) {
      DistinctBelow(s, n);
      assert false;
    }
    i, j :| 0 <= i < j < |s| && s[i] == s[j];
  }
}

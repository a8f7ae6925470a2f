/** Greedy interval removal, from djlc/include/interval.h. */
module Interval {
  import opened Sequences

  datatype Interval = Interval(start: int, end: int, idx: int)

  predicate Proper(a: Interval) {
    a.start <= a.end
  }

  /** djlc_interval_overlaps. */
  predicate Overlaps(a: Interval, b: Interval) {
    a.start < b.end && b.start < a.end
  }

  /** The order djlc_interval_cmp_by_end sorts by: by end, ties by start. */
  predicate NotAfter(a: Interval, b: Interval) {
    a.end < b.end || (a.end == b.end && a.start <= b.start)
  }

  // ----- The comparator on 32-bit ints -------------------------------------

  const INT_MIN: int := -0x8000_0000
  const INT_MAX: int := 0x7fff_ffff

  predicate IsInt(x: int) {
    INT_MIN <= x <= INT_MAX
  }

  /** Two's complement wrap-around of an int subtraction. */
  function Wrap(x: int): int {
    (x - INT_MIN) % 0x1_0000_0000 + INT_MIN
  }

  function CompareByEnd(a: Interval, b: Interval): int {
    if a.end != b.end then Wrap(a.end - b.end) else Wrap(a.start - b.start)
  }

  /** The subtraction the comparator performs. */
  function Difference(a: Interval, b: Interval): int {
    if a.end != b.end then a.end - b.end else a.start - b.start
  }

  /** Subtracting to compare gives the right sign exactly when the difference fits an int. */
  lemma CompareIsOrder(a: Interval, b: Interval)
    requires IsInt(a.start) && IsInt(a.end) && IsInt(b.start) && IsInt(b.end)
    ensures IsInt(Difference(a, b)) <==>
              && (CompareByEnd(a, b) <= 0 <==> NotAfter(a, b))
              && (CompareByEnd(a, b) >= 0 <==> NotAfter(b, a))
  {
    var d := Difference(a, b);
    assert -0x1_0000_0000 < d < 0x1_0000_0000;
    if d < INT_MIN {
      assert Wrap(d) == d + 0x1_0000_0000;
    } else if d > INT_MAX {
      assert Wrap(d) == d - 0x1_0000_0000;
    } else {
      assert Wrap(d) == d;
    }
  }

  // ----- Independent families ----------------------------------------------

  /** No two members overlap. */
  ghost predicate Independent(c: seq<Interval>) {
    forall i, j | 0 <= i < j < |c| :: !Overlaps(c[i], c[j])
  }

  /** c can be kept out of s: c's members, counted with multiplicity, are among s's. */
  ghost predicate ChosenFrom(c: seq<Interval>, s: seq<Interval>) {
    multiset(c) <= multiset(s)
  }

  ghost predicate Sorted(s: seq<Interval>) {
    forall i, j | 0 <= i < j < |s| :: NotAfter(s[i], s[j])
  }

  ghost predicate AllProper(s: seq<Interval>) {
    forall i | 0 <= i < |s| :: Proper(s[i])
  }

  // ----- The greedy choice -------------------------------------------------

  /** The position of the latest kept interval once the loop has seen position i. */
  function Owner(s: seq<Interval>, i: nat): (k: nat)
    requires i < |s|
    ensures k <= i
  {
    if i == 0 then 0
    else
      var k := Owner(s, i - 1);
      if s[i].start < s[k].end then k else i
  }

  /** The positions the loop keeps among the first n. */
  function KeptPositions(s: seq<Interval>, n: nat): (p: seq<nat>)
    requires n <= |s|
    ensures |p| <= n && forall i | 0 <= i < |p| :: p[i] < n
  {
    if n == 0 then []
    else if Owner(s, n - 1) == n - 1 then KeptPositions(s, n - 1) + [n - 1]
    else KeptPositions(s, n - 1)
  }

  function At(s: seq<Interval>, p: seq<nat>): (c: seq<Interval>)
    requires forall i | 0 <= i < |p| :: p[i] < |s|
    ensures |c| == |p|
  {
    seq(|p|, i requires 0 <= i < |p| => s[p[i]])
  }

  lemma {:induction false} KeptIncrease(s: seq<Interval>, n: nat)
    requires n <= |s|
    ensures forall i, j | 0 <= i < j < |KeptPositions(s, n)| :: KeptPositions(s, n)[i] < KeptPositions(s, n)[j]
  {
    if n != 0 {
      KeptIncrease(s, n - 1);
    }
  }

  lemma {:induction false} KeptEndsWithOwner(s: seq<Interval>, n: nat)
    requires 0 < n <= |s|
    ensures KeptPositions(s, n) != [] && KeptPositions(s, n)[|KeptPositions(s, n)| - 1] == Owner(s, n - 1)
  {
    if Owner(s, n - 1) != n - 1 {
      KeptEndsWithOwner(s, n - 1);
    }
  }

  /** The kept intervals follow one another. */
  lemma {:induction false} KeptIsChain(s: seq<Interval>, n: nat)
    requires n <= |s| && AllProper(s)
    ensures var p := KeptPositions(s, n);
            forall i, j | 0 <= i < j < |p| :: s[p[i]].end <= s[p[j]].start
  {
    if n > 0 {
      KeptIsChain(s, n - 1);
      assert n == 1 ==> KeptPositions(s, 0) == [];
      if n > 1 && Owner(s, n - 1) == n - 1 {
        KeptEndsWithOwner(s, n - 1);
        var p := KeptPositions(s, n - 1);
        var last := s[p[|p| - 1]];
        assert Proper(last) && last.end <= s[n - 1].start;
        forall i | 0 <= i < |p|
          ensures s[p[i]].end <= s[n - 1].start
        {
          assert i < |p| - 1 ==> s[p[i]].end <= last.start;
        }
      }
    }
  }

  /** The greedy family is independent. */
  lemma KeptIsIndependent(s: seq<Interval>)
    requires AllProper(s) && Sorted(s)
    ensures Independent(At(s, KeptPositions(s, |s|)))
  {
    KeptIsChain(s, |s|);
  }

  lemma {:induction false} AtIsChosen(s: seq<Interval>, p: seq<nat>, n: nat)
    requires n <= |s|
    requires forall i | 0 <= i < |p| :: p[i] < n
    requires forall i, j | 0 <= i < j < |p| :: p[i] < p[j]
    ensures ChosenFrom(At(s, p), s[..n])
  {
    if n == 0 {
      assert At(s, p) == [];
    } else {
      assert s[..n] == s[..n - 1] + [s[n - 1]];
      if p != [] && p[|p| - 1] == n - 1 {
        var q := p[..|p| - 1];
        AtIsChosen(s, q, n - 1);
        AtLast(s, p);
      } else {
        forall i | 0 <= i < |p|
          ensures p[i] < n - 1
        {
          assert i < |p| - 1 ==> p[i] < p[|p| - 1];
        }
        AtIsChosen(s, p, n - 1);
      }
    }
  }

  lemma AtLast(s: seq<Interval>, p: seq<nat>)
    requires p != [] && forall i | 0 <= i < |p| :: p[i] < |s|
    ensures At(s, p) == At(s, p[..|p| - 1]) + [s[p[|p| - 1]]]
  {
  }

  // ----- Why no larger family exists ---------------------------------------

  lemma {:induction false} OwnerDisplaces(s: seq<Interval>, i: nat)
    requires i < |s|
    ensures var k := Owner(s, i); k == i || s[i].start < s[k].end
    ensures Owner(s, Owner(s, i)) == Owner(s, i)
  {
    if i != 0 {
      OwnerDisplaces(s, i - 1);
    }
  }

  lemma {:induction false} OwnersAreKept(s: seq<Interval>, k: nat, n: nat)
    requires k < n <= |s| && Owner(s, k) == k
    ensures k in KeptPositions(s, n)
  {
    if k < n - 1 {
      OwnersAreKept(s, k, n - 1);
    }
  }

  /** Intervals displaced by the same kept interval, or displaced and kept, overlap. */
  lemma SameOwnerOverlap(s: seq<Interval>, i: nat, j: nat)
    requires i < j < |s| && AllProper(s) && Sorted(s)
    requires Owner(s, i) == Owner(s, j)
    ensures Overlaps(s[i], s[j])
  {
    OwnerDisplaces(s, i);
    OwnerDisplaces(s, j);
    var k := Owner(s, i);
    assert NotAfter(s[i], s[j]) && NotAfter(s[k], s[j]);
    assert k != i ==> NotAfter(s[k], s[i]);
  }

  /** p lists, for each member of c, a position of s holding it, without repetition. */
  ghost predicate Locates(p: seq<nat>, c: seq<Interval>, s: seq<Interval>) {
    && |p| == |c| && Distinct(p)
    && forall i | 0 <= i < |p| :: p[i] < |s| && s[p[i]] == c[i]
  }

  lemma LocateOneMore(q: seq<nat>, c: seq<Interval>, front: seq<Interval>, k: nat)
    requires k < |c| && Locates(q, c[..k] + c[k + 1..], front)
    ensures Locates(q[..k] + [|front|] + q[k..], c, front + [c[k]])
  {
    var rest := c[..k] + c[k + 1..];
    var p := q[..k] + [|front|] + q[k..];
    forall i | 0 <= i < |c|
      ensures p[i] < |front| + 1 && (front + [c[k]])[p[i]] == c[i]
    {
      if i < k {
        assert p[i] == q[i] && c[i] == rest[i];
      } else if i > k {
        assert p[i] == q[i - 1] && c[i] == rest[i - 1];
      }
    }
  }

  /** A family chosen from s sits at distinct positions of s. */
  lemma {:induction false} Positions(c: seq<Interval>, s: seq<Interval>) returns (p: seq<nat>)
    requires ChosenFrom(c, s)
    ensures Locates(p, c, s)
    decreases |s|
  {
    if s == [] {
      NothingChosen(c);
      p := [];
    } else {
      var front, last := s[..|s| - 1], s[|s| - 1];
      assert s == front + [last];
      if ChosenFrom(c, front) {
        p := Positions(c, front);
        assert forall i | 0 <= i < |p| :: front[p[i]] == s[p[i]];
      } else {
        var k := LastIsUsed(c, front, last);
        var q := Positions(c[..k] + c[k + 1..], front);
        LocateOneMore(q, c, front, k);
        p := q[..k] + [|front|] + q[k..];
      }
    }
  }

  lemma NothingChosen(c: seq<Interval>)
    requires ChosenFrom(c, [])
    ensures c == []
  {
    assert forall x | x in c :: multiset(c)[x] <= multiset([])[x];
  }

  lemma LastIsUsed(c: seq<Interval>, front: seq<Interval>, last: Interval) returns (k: nat)
    requires ChosenFrom(c, front + [last]) && !ChosenFrom(c, front)
    ensures k < |c| && c[k] == last
    ensures ChosenFrom(c[..k] + c[k + 1..], front)
  {
    assert multiset(front + [last]) == multiset(front) + multiset{last};
    assert last in multiset(c);
    k :| 0 <= k < |c| && c[k] == last;
    assert c == c[..k] + [last] + c[k + 1..];
    assert multiset(c[..k] + c[k + 1..]) == multiset(c) - multiset{last};
  }

  /** No independent family is larger than the greedy one. */
  lemma KeptIsLargest(s: seq<Interval>, c: seq<Interval>)
    requires AllProper(s) && Sorted(s)
    requires ChosenFrom(c, s) && Independent(c)
    ensures |c| <= |KeptPositions(s, |s|)|
  {
    var p := Positions(c, s);
    var owners := seq(|c|, i requires 0 <= i < |c| => Owner(s, p[i]));
    forall i, j | 0 <= i < j < |c|
      ensures owners[i] != owners[j]
    {
      if owners[i] == owners[j] {
        if p[i] < p[j] {
          SameOwnerOverlap(s, p[i], p[j]);
        } else {
          SameOwnerOverlap(s, p[j], p[i]);
        }
        assert false;
      }
    }
    forall i | 0 <= i < |c|
      ensures owners[i] in KeptPositions(s, |s|)
    {
      OwnerDisplaces(s, p[i]);
      OwnersAreKept(s, owners[i], |s|);
    }
    KeptIncrease(s, |s|);
    DistinctSize(owners);
    DistinctSize(KeptPositions(s, |s|));
    SubsetSize(ToSet(owners), ToSet(KeptPositions(s, |s|)));
  }

  // ----- The method --------------------------------------------------------

  /** Inputs whose fields are C ints and whose comparisons do not overflow. */
  ghost predicate Comparable(s: seq<Interval>) {
    forall x, y | x in s && y in s :: IsInt(x.start) && IsInt(x.end) && IsInt(Difference(x, y))
  }

  /** Sorted but for the element at j, which is at most everything after it up to i. */
  ghost predicate SortedBut(s: seq<Interval>, j: nat, i: nat) {
    && j <= i < |s|
    && (forall p, q | 0 <= p < q <= i && p != j && q != j :: NotAfter(s[p], s[q]))
    && (forall q | j < q <= i :: NotAfter(s[j], s[q]))
  }

  lemma SwapDown(s: seq<Interval>, j: nat, i: nat)
    requires 0 < j && SortedBut(s, j, i) && NotAfter(s[j], s[j - 1])
    ensures SortedBut(s[j - 1 := s[j]][j := s[j - 1]], j - 1, i)
    ensures multiset(s[j - 1 := s[j]][j := s[j - 1]]) == multiset(s)
  {
  }

  lemma SettleAt(s: seq<Interval>, j: nat, i: nat)
    requires SortedBut(s, j, i) && (j > 0 ==> NotAfter(s[j - 1], s[j]))
    ensures Sorted(s[..i + 1])
  {
    forall p, q | 0 <= p < q <= i
      ensures NotAfter(s[p], s[q])
    {
      if q == j && p < j - 1 {
        assert NotAfter(s[p], s[j - 1]);
      }
    }
  }

  /** Stands for qsort with djlc_interval_cmp_by_end: a sorted permutation. */
  method SortByEnd(a: array<Interval>)
    requires Comparable(a[..])
    modifies a
    ensures Sorted(a[..])
    ensures multiset(a[..]) == multiset(old(a[..]))
  {
    hide SortedBut;
    hide Sorted;
    hide NotAfter;
    ghost var before := a[..];
    var i := 0;
    SortedPrefixOfNone(a[..]);
    while i < a.Length
      invariant i <= a.Length
      invariant Sorted(a[..i])
      invariant multiset(a[..]) == multiset(before)
    {
      var j := i;
      NewElement(a[..], i);
      while j > 0 && CompareByEnd(a[j - 1], a[j]) > 0
        invariant j <= i < a.Length
        invariant SortedBut(a[..], j, i)
        invariant multiset(a[..]) == multiset(before)
      {
        ghost var s := a[..];
        ComparableKept(before, s, j - 1, j);
        SwapDown(s, j, i);
        a[j - 1], a[j] := a[j], a[j - 1];
        assert a[..] == s[j - 1 := s[j]][j := s[j - 1]];
        j := j - 1;
      }
      if j > 0 {
        ComparableKept(before, a[..], j - 1, j);
      }
      SettleAt(a[..], j, i);
      i := i + 1;
    }
    assert a[..i] == a[..];
  }

  lemma SortedPrefixOfNone(s: seq<Interval>)
    ensures Sorted(s[..0])
  {
  }

  lemma NewElement(s: seq<Interval>, i: nat)
    requires i < |s| && Sorted(s[..i])
    ensures SortedBut(s, i, i)
  {
    forall p, q | 0 <= p < q < i
      ensures NotAfter(s[p], s[q])
    {
      assert s[..i][p] == s[p] && s[..i][q] == s[q];
    }
  }

  lemma ComparableKept(before: seq<Interval>, s: seq<Interval>, i: nat, j: nat)
    requires Comparable(before) && multiset(s) == multiset(before) && i < |s| && j < |s|
    ensures CompareByEnd(s[i], s[j]) <= 0 <==> NotAfter(s[i], s[j])
    ensures CompareByEnd(s[i], s[j]) >= 0 <==> NotAfter(s[j], s[i])
  {
    assert s[i] in multiset(s) && s[j] in multiset(s);
    assert s[i] in before && s[j] in before;
    CompareIsOrder(s[i], s[j]);
  }

  /** The least number of intervals whose removal leaves no two overlapping. */
  method MinRemove(a: array<Interval>) returns (removed: nat)
    requires AllProper(a[..]) && Comparable(a[..])
    modifies a
    ensures multiset(a[..]) == multiset(old(a[..])) && (a.Length > 0 ==> Sorted(a[..]))
    ensures removed <= a.Length
    ensures exists c :: ChosenFrom(c, old(a[..])) && Independent(c) && |c| == a.Length - removed
    ensures forall c :: ChosenFrom(c, old(a[..])) && Independent(c) ==> |c| <= a.Length - removed
  {
    hide Sorted;
    hide Independent;
    if a.Length == 0 {
      removed := 0;
      BestFamily(a[..], a[..]);
      return;
    }
    ghost var before := a[..];
    SortByEnd(a);
    ghost var s := a[..];
    var end := a[0].end;
    removed := 0;
    for i := 1 to a.Length
      invariant a[..] == s
      invariant end == s[Owner(s, i - 1)].end
      invariant removed == i - |KeptPositions(s, i)|
    {
      if a[i].start < end {
        removed := removed + 1;
      } else {
        end := a[i].end;
      }
    }
    BestFamily(before, s);
  }

  /** The greedy family of a sorted permutation is a largest independent family of the input. */
  lemma BestFamily(input: seq<Interval>, s: seq<Interval>)
    requires AllProper(input) && multiset(input) == multiset(s) && (s == [] || Sorted(s))
    ensures exists c :: ChosenFrom(c, input) && Independent(c) && |c| == |KeptPositions(s, |s|)|
    ensures forall c :: ChosenFrom(c, input) && Independent(c) ==> |c| <= |KeptPositions(s, |s|)|
    ensures |input| == |s|
  {
    assert |multiset(input)| == |input| && |multiset(s)| == |s|;
    forall i | 0 <= i < |s|
      ensures Proper(s[i])
    {
      assert s[i] in multiset(s);
      assert s[i] in input;
    }
    var p := KeptPositions(s, |s|);
    KeptIsIndependent(s);
    KeptIncrease(s, |s|);
    AtIsChosen(s, p, |s|);
    assert s[..|s|] == s;
    assert ChosenFrom(At(s, p), input);
    forall c | ChosenFrom(c, input) && Independent(c)
      ensures |c| <= |p|
    {
      KeptIsLargest(s, c);
    }
  }
}

/** Equivalence closures of lists of pairs, and their classes. */
module Partitions {
  import opened Sequences

  type Pairs = seq<(nat, nat)>

  ghost predicate Related(ps: Pairs, a: nat, b: nat) {
    (a, b) in ps || (b, a) in ps
  }

  ghost predicate IsChain(ps: Pairs, c: seq<nat>) {
    |c| >= 1 && forall i | 0 <= i < |c| - 1 :: Related(ps, c[i], c[i + 1])
  }

  /** x and y are related by the least equivalence containing the pairs. */
  ghost predicate Equivalent(ps: Pairs, x: nat, y: nat) {
    exists c: seq<nat> :: IsChain(ps, c) && c[0] == x && c[|c| - 1] == y
  }

  lemma EquivalentRefl(ps: Pairs, x: nat)
    ensures Equivalent(ps, x, x)
  {
    assert IsChain(ps, [x]);
  }

  lemma EquivalentPair(ps: Pairs, a: nat, b: nat)
    requires Related(ps, a, b)
    ensures Equivalent(ps, a, b)
  {
    assert IsChain(ps, [a, b]);
  }

  lemma EquivalentTrans(ps: Pairs, x: nat, y: nat, z: nat)
    requires Equivalent(ps, x, y) && Equivalent(ps, y, z)
    ensures Equivalent(ps, x, z)
  {
    var c: seq<nat> :| IsChain(ps, c) && c[0] == x && c[|c| - 1] == y;
    var d: seq<nat> :| IsChain(ps, d) && d[0] == y && d[|d| - 1] == z;
    var e := c + d[1..];
    forall i | 0 <= i < |e| - 1
      ensures Related(ps, e[i], e[i + 1])
    {
      if i >= |c| - 1 {
        var k := i - (|c| - 1);
        assert e[i] == d[k] && e[i + 1] == d[k + 1];
      }
    }
    assert IsChain(ps, e);
  }

  lemma {:induction false} ReverseChain(ps: Pairs, c: seq<nat>)
    requires IsChain(ps, c)
    ensures Equivalent(ps, c[|c| - 1], c[0])
  {
    if |c| == 1 {
      EquivalentRefl(ps, c[0]);
    } else {
      assert Related(ps, c[0], c[1]);
      EquivalentPair(ps, c[1], c[0]);
      forall i | 0 <= i < |c[1..]| - 1
        ensures Related(ps, c[1..][i], c[1..][i + 1])
      {
        assert Related(ps, c[i + 1], c[i + 1 + 1]);
      }
      ReverseChain(ps, c[1..]);
      EquivalentTrans(ps, c[|c| - 1], c[1], c[0]);
    }
  }

  lemma EquivalentSym(ps: Pairs, x: nat, y: nat)
    requires Equivalent(ps, x, y)
    ensures Equivalent(ps, y, x)
  {
    var c: seq<nat> :| IsChain(ps, c) && c[0] == x && c[|c| - 1] == y;
    ReverseChain(ps, c);
  }

  lemma EquivalentMore(ps: Pairs, q: (nat, nat), x: nat, y: nat)
    requires Equivalent(ps, x, y)
    ensures Equivalent(ps + [q], x, y)
  {
    var c: seq<nat> :| IsChain(ps, c) && c[0] == x && c[|c| - 1] == y;
    forall i | 0 <= i < |c| - 1
      ensures Related(ps + [q], c[i], c[i + 1])
    {
      assert Related(ps, c[i], c[i + 1]);
    }
    assert IsChain(ps + [q], c);
  }

  // ----- Representatives ---------------------------------------------------

  /** r maps every element to a representative of its class. */
  ghost predicate Tracks(r: seq<nat>, ps: Pairs) {
    && (forall k | 0 <= k < |ps| :: ps[k].0 < |r| && ps[k].1 < |r| && r[ps[k].0] == r[ps[k].1])
    && (forall i | 0 <= i < |r| :: r[i] < |r| && r[r[i]] == r[i] && Equivalent(ps, i, r[i]))
  }

  lemma {:induction false} ChainKeepsRepresentative(r: seq<nat>, ps: Pairs, c: seq<nat>)
    requires Tracks(r, ps) && IsChain(ps, c) && c[0] < |r|
    ensures c[|c| - 1] < |r| && r[c[|c| - 1]] == r[c[0]]
  {
    if |c| > 1 {
      var d := c[..|c| - 1];
      forall i | 0 <= i < |d| - 1
        ensures Related(ps, d[i], d[i + 1])
      {
        assert Related(ps, c[i], c[i + 1]);
      }
      ChainKeepsRepresentative(r, ps, d);
      assert Related(ps, c[|c| - 2], c[|c| - 2 + 1]);
    }
  }

  /** Equal representatives mean equivalence, and the other way round. */
  lemma SameRepresentative(r: seq<nat>, ps: Pairs, x: nat, y: nat)
    requires Tracks(r, ps) && x < |r| && y < |r|
    ensures r[x] == r[y] <==> Equivalent(ps, x, y)
  {
    if r[x] == r[y] {
      EquivalentSym(ps, y, r[y]);
      EquivalentTrans(ps, x, r[x], y);
    }
    if Equivalent(ps, x, y) {
      var c: seq<nat> :| IsChain(ps, c) && c[0] == x && c[|c| - 1] == y;
      ChainKeepsRepresentative(r, ps, c);
    }
  }

  /** Replacing representative b by a. */
  function Redirect(r: seq<nat>, a: nat, b: nat): seq<nat> {
    seq(|r|, i requires 0 <= i < |r| => if r[i] == b then a else r[i])
  }

  lemma TracksNothing(r: seq<nat>)
    requires forall i | 0 <= i < |r| :: r[i] == i
    ensures Tracks(r, [])
  {
    forall i | 0 <= i < |r|
      ensures Equivalent([], i, r[i])
    {
      EquivalentRefl([], i);
    }
  }

  /** Recording a pair whose elements are already equivalent. */
  lemma TracksAgain(r: seq<nat>, ps: Pairs, x: nat, y: nat)
    requires Tracks(r, ps) && x < |r| && y < |r| && r[x] == r[y]
    ensures Tracks(r, ps + [(x, y)])
  {
    forall i | 0 <= i < |r|
      ensures Equivalent(ps + [(x, y)], i, r[i])
    {
      EquivalentMore(ps, (x, y), i, r[i]);
    }
  }

  /** Recording a pair while one representative replaces the other. */
  lemma TracksMerged(r: seq<nat>, ps: Pairs, x: nat, y: nat, a: nat, b: nat)
    requires Tracks(r, ps) && x < |r| && y < |r| && r[x] != r[y]
    requires (a == r[x] && b == r[y]) || (a == r[y] && b == r[x])
    ensures Tracks(Redirect(r, a, b), ps + [(x, y)])
  {
    var r', qs := Redirect(r, a, b), ps + [(x, y)];
    forall i | 0 <= i < |r|
      ensures Equivalent(qs, i, r'[i])
    {
      EquivalentMore(ps, (x, y), i, r[i]);
      if r[i] == b {
        EquivalentMore(ps, (x, y), x, r[x]);
        EquivalentMore(ps, (x, y), y, r[y]);
        assert (x, y) == qs[|ps|];
        EquivalentPair(qs, x, y);
        EquivalentPair(qs, y, x);
        var u, w := if b == r[x] then x else y, if b == r[x] then y else x;
        EquivalentSym(qs, u, b);
        EquivalentTrans(qs, i, b, u);
        EquivalentTrans(qs, i, u, w);
        EquivalentTrans(qs, i, w, a);
      }
    }
  }

  // ----- Counting classes --------------------------------------------------

  ghost function ClassOf(n: nat, ps: Pairs, x: nat): set<int> {
    set y: nat | y in Range(n) && Equivalent(ps, x, y) :: y
  }

  ghost function Classes(n: nat, ps: Pairs): set<set<int>> {
    set x: nat | x in Range(n) :: ClassOf(n, ps, x)
  }

  ghost function Representatives(r: seq<nat>): set<nat> {
    set x: nat | x in Range(|r|) && r[x] == x
  }

  /** Merging two classes loses exactly one representative. */
  lemma RedirectLosesOne(r: seq<nat>, a: nat, b: nat)
    requires a < |r| && b < |r| && a != b && r[a] == a && r[b] == b
    ensures |Representatives(Redirect(r, a, b))| == |Representatives(r)| - 1
  {
    assert b in Representatives(r);
    assert Representatives(Redirect(r, a, b)) == Representatives(r) - {b};
  }

  lemma {:induction false} ImageSize(xs: set<nat>, f: nat -> set<int>)
    requires forall x, y | x in xs && y in xs && x != y :: f(x) != f(y)
    ensures |set x | x in xs :: f(x)| == |xs|
  {
    var image := set x | x in xs :: f(x);
    if xs == {} {
      assert image == {};
    } else {
      var x :| x in xs;
      var rest := xs - {x};
      ImageSize(rest, f);
      assert image == (set y | y in rest :: f(y)) + {f(x)};
    }
  }

  lemma SameClass(r: seq<nat>, ps: Pairs, x: nat, y: nat)
    requires Tracks(r, ps) && x < |r| && y < |r|
    ensures ClassOf(|r|, ps, x) == ClassOf(|r|, ps, y) <==> r[x] == r[y]
  {
    EquivalentRefl(ps, x);
    assert x in ClassOf(|r|, ps, x);
    SameRepresentative(r, ps, y, x);
    forall z: nat | z < |r|
      ensures Equivalent(ps, x, z) <==> r[x] == r[z]
      ensures Equivalent(ps, y, z) <==> r[y] == r[z]
    {
      SameRepresentative(r, ps, x, z);
      SameRepresentative(r, ps, y, z);
    }
  }

  /** There are as many classes as representatives. */
  lemma ClassCount(r: seq<nat>, ps: Pairs)
    requires Tracks(r, ps)
    ensures |Classes(|r|, ps)| == |Representatives(r)|
  {
    var f := (x: nat) => ClassOf(|r|, ps, x);
    var reps := Representatives(r);
    forall x, y | x in reps && y in reps && x != y
      ensures f(x) != f(y)
    {
      SameClass(r, ps, x, y);
    }
    ImageSize(reps, f);
    var image := set x | x in reps :: f(x);
    forall x: nat | x in Range(|r|)
      ensures ClassOf(|r|, ps, x) in image
    {
      SameClass(r, ps, x, r[x]);
      assert r[x] in reps;
      assert f(r[x]) in image;
    }
    assert Classes(|r|, ps) == image;
  }
}

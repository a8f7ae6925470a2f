/** Parent-pointer forests with ranks: the data of djlc/include/union_find.h on values. */
module Forests {
  import opened Bits
  import opened Partitions
  import opened Sequences

  /** Parents in range, ranks growing strictly along every parent link. */
  ghost predicate Forest(p: seq<nat>, rk: seq<nat>) {
    && |p| == |rk|
    && forall i: nat {:trigger p[i]} | i < |p| :: p[i] < |p| && (p[i] != i ==> rk[i] < rk[p[i]])
  }

  /** The largest rank. */
  ghost function Top(rk: seq<nat>): (t: nat)
    ensures forall i | 0 <= i < |rk| :: rk[i] <= t
  {
    if rk == [] then 0
    else
      var t := Top(rk[..|rk| - 1]);
      if t < rk[|rk| - 1] then rk[|rk| - 1] else t
  }

  ghost function Root(p: seq<nat>, rk: seq<nat>, x: nat): (r: nat)
    requires Forest(p, rk) && x < |p|
    ensures r < |p| && p[r] == r
    ensures r != x ==> rk[x] < rk[r]
    decreases Top(rk) - rk[x]
  {
    if p[x] == x then x else Root(p, rk, p[x])
  }

  /** The number of parent links from x to its root. */
  ghost function Depth(p: seq<nat>, rk: seq<nat>, x: nat): nat
    requires Forest(p, rk) && x < |p|
    decreases Top(rk) - rk[x]
  {
    if p[x] == x then 0 else 1 + Depth(p, rk, p[x])
  }

  /** i is x or met on the way from x to its root. */
  ghost predicate OnPath(p: seq<nat>, rk: seq<nat>, x: nat, i: nat)
    requires Forest(p, rk) && x < |p|
    decreases Top(rk) - rk[x]
  {
    i == x || (p[x] != x && OnPath(p, rk, p[x], i))
  }

  /** The root of every node. */
  ghost function RootsOf(p: seq<nat>, rk: seq<nat>): (r: seq<nat>)
    requires Forest(p, rk)
    ensures |r| == |p|
  {
    seq(|p|, i requires 0 <= i < |p| => Root(p, rk, i))
  }

  /** The nodes whose root is t. */
  ghost function Tree(r: seq<nat>, t: nat): set<int> {
    set i | i in Range(|r|) && r[i] == t
  }

  /** A root of rank k has at least 2^k nodes in its tree. */
  ghost predicate WellSized(rk: seq<nat>, r: seq<nat>) {
    && |rk| == |r|
    && forall t: nat | t < |r| && r[t] == t :: Pow2(rk[t]) <= |Tree(r, t)|
  }

  // ----- How deep a node can be --------------------------------------------

  lemma {:induction false} DepthWithinRank(p: seq<nat>, rk: seq<nat>, x: nat)
    requires Forest(p, rk) && x < |p|
    ensures rk[x] + Depth(p, rk, x) <= rk[Root(p, rk, x)]
    decreases Top(rk) - rk[x]
  {
    if p[x] != x {
      DepthWithinRank(p, rk, p[x]);
    }
  }

  /** Finding takes at most log2 n parent steps: 2^depth never exceeds n. */
  lemma DepthIsLogarithmic(p: seq<nat>, rk: seq<nat>, x: nat)
    requires Forest(p, rk) && WellSized(rk, RootsOf(p, rk)) && x < |p|
    ensures Pow2(Depth(p, rk, x)) <= |p|
  {
    var r := Root(p, rk, x);
    DepthWithinRank(p, rk, x);
    Pow2Monotone(Depth(p, rk, x), rk[r]);
    SubsetSize(Tree(RootsOf(p, rk), r), Range(|p|));
  }

  // ----- Path compression --------------------------------------------------

  lemma CompressIsForest(p: seq<nat>, rk: seq<nat>, x: nat)
    requires Forest(p, rk) && x < |p|
    ensures Forest(p[x := Root(p, rk, x)], rk)
  {
    var p' := p[x := Root(p, rk, x)];
    forall i: nat | i < |p|
      ensures p'[i] < |p| && (p'[i] != i ==> rk[i] < rk[p'[i]])
    {
      assert p[i] < |p|;
    }
  }

  lemma {:induction false} CompressKeepsRoot(p: seq<nat>, rk: seq<nat>, x: nat, i: nat)
    requires Forest(p, rk) && x < |p| && i < |p|
    requires Forest(p[x := Root(p, rk, x)], rk)
    ensures Root(p[x := Root(p, rk, x)], rk, i) == Root(p, rk, i)
    decreases Top(rk) - rk[i]
  {
    var r := Root(p, rk, x);
    var p' := p[x := r];
    if i == x {
      assert p'[r] == r;
    } else if p[i] != i {
      CompressKeepsRoot(p, rk, x, p[i]);
    }
  }

  /** Pointing a node at its root changes no root. */
  lemma CompressKeepsAll(p: seq<nat>, rk: seq<nat>, x: nat)
    requires Forest(p, rk) && x < |p|
    ensures Forest(p[x := Root(p, rk, x)], rk)
    ensures RootsOf(p[x := Root(p, rk, x)], rk) == RootsOf(p, rk)
  {
    var p' := p[x := Root(p, rk, x)];
    CompressIsForest(p, rk, x);
    forall i: nat | i < |p|
      ensures Root(p', rk, i) == Root(p, rk, i)
    {
      CompressKeepsRoot(p, rk, x, i);
    }
  }

  // ----- Linking two trees -------------------------------------------------

  /** The ranks after root b has been hung below root a: a's rank exceeds b's. */
  ghost function LinkedRank(rk: seq<nat>, a: nat, b: nat): seq<nat>
    requires a < |rk| && b < |rk|
    ensures |LinkedRank(rk, a, b)| == |rk|
  {
    if rk[b] < rk[a] then rk else rk[a := rk[b] + 1]
  }

  ghost predicate Linkable(p: seq<nat>, rk: seq<nat>, a: nat, b: nat) {
    && |p| == |rk| && Forest(p, rk)
    && a < |p| && b < |p| && a != b && p[a] == a && p[b] == b
  }

  lemma LinkIsForest(p: seq<nat>, rk: seq<nat>, a: nat, b: nat)
    requires Linkable(p, rk, a, b)
    ensures Forest(p[b := a], LinkedRank(rk, a, b))
  {
    var p', rk' := p[b := a], LinkedRank(rk, a, b);
    forall i: nat | i < |p|
      ensures p'[i] < |p| && (p'[i] != i ==> rk'[i] < rk'[p'[i]])
    {
      assert p[i] < |p|;
    }
  }

  lemma {:induction false} LinkMovesRoot(p: seq<nat>, rk: seq<nat>, a: nat, b: nat, i: nat)
    requires Linkable(p, rk, a, b) && i < |p|
    requires Forest(p[b := a], LinkedRank(rk, a, b))
    ensures Root(p[b := a], LinkedRank(rk, a, b), i) == if Root(p, rk, i) == b then a else Root(p, rk, i)
    decreases Top(rk) - rk[i]
  {
    if i == b {
      assert p[b := a][a] == a;
    } else if p[i] != i {
      LinkMovesRoot(p, rk, a, b, p[i]);
    }
  }

  /** Hanging root b below root a sends exactly b's tree to a. */
  lemma LinkRedirects(p: seq<nat>, rk: seq<nat>, a: nat, b: nat)
    requires Linkable(p, rk, a, b)
    ensures Forest(p[b := a], LinkedRank(rk, a, b))
    ensures RootsOf(p[b := a], LinkedRank(rk, a, b)) == Redirect(RootsOf(p, rk), a, b)
  {
    LinkIsForest(p, rk, a, b);
    forall i: nat | i < |p|
      ensures Root(p[b := a], LinkedRank(rk, a, b), i) == if Root(p, rk, i) == b then a else Root(p, rk, i)
    {
      LinkMovesRoot(p, rk, a, b, i);
    }
  }

  // ----- Linking by rank ---------------------------------------------------

  /** Hanging the root of no larger rank keeps every tree at least exponential in its rank. */
  lemma LinkKeepsSizes(rk: seq<nat>, r: seq<nat>, a: nat, b: nat)
    requires WellSized(rk, r)
    requires a < |r| && b < |r| && a != b && r[a] == a && r[b] == b && rk[b] <= rk[a]
    ensures WellSized(LinkedRank(rk, a, b), Redirect(r, a, b))
  {
    var rk', r' := LinkedRank(rk, a, b), Redirect(r, a, b);
    forall t: nat | t < |r'| && r'[t] == t
      ensures Pow2(rk'[t]) <= |Tree(r', t)|
    {
      if t == a {
        assert Tree(r, a) !! Tree(r, b);
        assert Tree(r', a) == Tree(r, a) + Tree(r, b);
      } else {
        assert Tree(r', t) == Tree(r, t);
      }
    }
  }
}

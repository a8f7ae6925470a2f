/** Union-find with path compression and union by rank, from djlc/include/union_find.h. */
module UnionFind {
  import opened Bits
  import opened Sequences
  import opened Partitions
  import opened Forests

  class UnionFind {
    const parent: array<nat>
    const rank: array<nat>
    const size: nat
    var components: int
    ghost var united: Pairs  // every pair ever passed to Union

    ghost predicate Valid()
      reads this, parent, rank
    {
      && parent.Length == size && rank.Length == size && parent != rank
      && Forest(parent[..], rank[..])
      && WellSized(rank[..], Roots())
      && Tracks(Roots(), united)
      && components == |Representatives(Roots())|
    }

    /** The root of every element. */
    ghost function Roots(): seq<nat>
      requires Forest(parent[..], rank[..])
      reads parent, rank
    {
      RootsOf(parent[..], rank[..])
    }

    constructor (n: nat)
      ensures Valid() && fresh(parent) && fresh(rank)
      ensures size == n && united == [] && components == n
    {
      size := n;
      parent := new nat[n](i => i);
      rank := new nat[n](_ => 0);
      components := n;
      united := [];
      new;
      InitialForest(parent[..], rank[..]);
    }

    /** The root of x; every node met is pointed at it. */
    method Find(x: nat) returns (r: nat)
      requires Valid() && x < size
      modifies parent
      ensures Valid() && Roots() == old(Roots())
      ensures r == Roots()[x] && parent[x] == r && r < size
      ensures forall i: nat | i < size :: parent[i] == if OnPath(old(parent[..]), rank[..], x, i) then r else old(parent[i])
      ensures Pow2(old(Depth(parent[..], rank[..], x))) <= size
      decreases Top(rank[..]) - rank[x]
    {
      hide WellSized;
      hide Tracks;
      hide Representatives;
      ghost var p0, rk := parent[..], rank[..];
      DepthIsLogarithmic(p0, rk, x);
      assert p0[x] == parent[x] && rk[x] == rank[x];
      if parent[x] != x {
        var up := Find(parent[x]);
        ghost var p := parent[..];
        assert up == Root(p0, rk, x);
        assert up == RootsOf(p, rk)[x];
        CompressKeepsAll(p, rk, x);
        parent[x] := up;
        assert parent[..] == p[x := up];
      }
      r := parent[x];
    }

    /** Joins the classes of x and y; true exactly when they were different. */
    method Union(x: nat, y: nat) returns (merged: bool)
      requires Valid() && x < size && y < size
      modifies this, parent, rank
      ensures Valid()
      ensures united == old(united) + [(x, y)]
      ensures merged <==> !Equivalent(old(united), x, y)
      ensures components == old(components) - if merged then 1 else 0
    {
      hide WellSized;
      hide Tracks;
      hide Representatives;
      hide Forest;
      hide Redirect;
      SameRepresentative(Roots(), united, x, y);
      var px := Find(x);
      var py := Find(y);
      ghost var p, rk, r := parent[..], rank[..], Roots();
      RootsAreRoots(p, rk, px, py, x, y);
      ghost var a, b := px, py;
      if px == py {
        TracksAgain(r, united, x, y);
        united := united + [(x, y)];
        return false;
      }
      if rank[px] < rank[py] {
        parent[px] := py;
        a, b := py, px;
      } else if rank[px] > rank[py] {
        parent[py] := px;
      } else {
        parent[py] := px;
        rank[px] := rank[px] + 1;
      }
      components := components - 1;
      assert parent[..] == p[b := a] && rank[..] == LinkedRank(rk, a, b);
      UnionStep(p, rk, united, x, y, a, b);
      united := united + [(x, y)];
      merged := true;
    }

    method Connected(x: nat, y: nat) returns (b: bool)
      requires Valid() && x < size && y < size
      modifies parent
      ensures Valid()
      ensures b <==> Equivalent(united, x, y)
    {
      hide WellSized;
      hide Tracks;
      hide Representatives;
      hide Forest;
      SameRepresentative(Roots(), united, x, y);
      var px := Find(x);
      var py := Find(y);
      b := px == py;
    }

    /** The number of classes of the equivalence generated by the united pairs. */
    method Count() returns (count: int)
      requires Valid()
      ensures count == |Classes(size, united)|
    {
      ClassCount(Roots(), united);
      count := components;
    }
  }

  /** Linking the roots of x and y, the larger rank on top, records the pair (x, y). */
  lemma UnionStep(p: seq<nat>, rk: seq<nat>, ps: Pairs, x: nat, y: nat, a: nat, b: nat)
    requires Linkable(p, rk, a, b) && x < |p| && y < |p| && rk[b] <= rk[a]
    requires WellSized(rk, RootsOf(p, rk)) && Tracks(RootsOf(p, rk), ps)
    requires (a == RootsOf(p, rk)[x] && b == RootsOf(p, rk)[y]) || (a == RootsOf(p, rk)[y] && b == RootsOf(p, rk)[x])
    ensures var p', rk' := p[b := a], LinkedRank(rk, a, b);
            && Forest(p', rk')
            && WellSized(rk', RootsOf(p', rk'))
            && Tracks(RootsOf(p', rk'), ps + [(x, y)])
            && |Representatives(RootsOf(p', rk'))| == |Representatives(RootsOf(p, rk))| - 1
  {
    hide Tracks;
    hide WellSized;
    hide Redirect;
    var r := RootsOf(p, rk);
    LinkRedirects(p, rk, a, b);
    LinkKeepsSizes(rk, r, a, b);
    TracksMerged(r, ps, x, y, a, b);
    RedirectLosesOne(r, a, b);
  }

  lemma InitialForest(p: seq<nat>, rk: seq<nat>)
    requires |p| == |rk| && forall i | 0 <= i < |p| :: p[i] == i && rk[i] == 0
    ensures Forest(p, rk) && WellSized(rk, RootsOf(p, rk)) && Tracks(RootsOf(p, rk), [])
    ensures |Representatives(RootsOf(p, rk))| == |p|
  {
    TracksNothing(RootsOf(p, rk));
    var r := RootsOf(p, rk);
    forall t: nat | t < |r| && r[t] == t
      ensures Pow2(rk[t]) <= |Tree(r, t)|
    {
      assert Tree(r, t) == {t as int};
    }
    RangeAsNats(|p|);
    assert Representatives(RootsOf(p, rk)) == set x: nat | x in Range(|p|);
  }

  lemma {:induction false} RangeAsNats(n: nat)
    ensures |set x: nat | x in Range(n)| == n
  {
    if n == 0 {
      assert (set x: nat | x in Range(0)) == {};
    } else {
      var m: nat := n - 1;
      RangeAsNats(m);
      assert (set x: nat | x in Range(n)) == (set x: nat | x in Range(m)) + {m};
    }
  }

  /** What two finds leave behind: two roots, distinct exactly when the elements' roots are. */
  lemma RootsAreRoots(p: seq<nat>, rk: seq<nat>, px: nat, py: nat, x: nat, y: nat)
    requires Forest(p, rk) && x < |p| && y < |p|
    requires px == RootsOf(p, rk)[x] && py == RootsOf(p, rk)[y]
    ensures |p| == |rk| && px < |p| && py < |p|
    ensures RootsOf(p, rk)[px] == px && RootsOf(p, rk)[py] == py
    ensures px != py ==> Linkable(p, rk, py, px) && Linkable(p, rk, px, py)
  {
  }
}

/** The ratio-keeping union-find of djlc/include/union_find.h, over the reals. */
module WeightedUnionFind {
  import opened Sequences
  import opened Partitions
  import opened Forests
  import opened Ratios

  class WeightedUnionFind {
    const parent: array<nat>
    const weight: array<real>
    const size: nat
    ghost var height: seq<nat>       // grows along parent links
    ghost var united: Pairs          // every pair ever passed to Union
    ghost var ratios: seq<Ratio>     // the ratios of the unions that merged two classes

    ghost predicate Shape()
      reads this, parent, weight
    {
      && parent.Length == size && weight.Length == size
      && Forest(parent[..], height)
      && forall i | 0 <= i < size :: parent[i] == i ==> weight[i] == 1.0
    }

    ghost predicate Valid()
      reads this, parent, weight
    {
      && Shape()
      && Tracks(Roots(), united)
      && Solves(Products(), Roots(), ratios)
    }

    ghost function Roots(): (r: seq<nat>)
      requires Shape()
      reads this, parent, weight
      ensures |r| == size
    {
      RootsOf(parent[..], height)
    }

    /** The ratio of every element to its root. */
    ghost function Products(): (q: seq<real>)
      requires Shape()
      reads this, parent, weight
      ensures |q| == size
    {
      ProductsOf(parent[..], height, weight[..])
    }

    constructor (n: nat)
      ensures Valid() && fresh(parent) && fresh(weight)
      ensures size == n && united == [] && ratios == []
    {
      size := n;
      parent := new nat[n](i => i);
      weight := new real[n](_ => 1.0);
      height := seq(n, _ => 0);
      united := [];
      ratios := [];
      new;
      InitialRatios(parent[..], height, weight[..]);
    }

    /** The root of x; every node met is re-pointed at it with its whole ratio. */
    method Find(x: nat) returns (root: nat)
      requires Shape() && x < size
      modifies parent, weight
      ensures Shape() && Roots() == old(Roots()) && Products() == old(Products())
      ensures root == Roots()[x] == parent[x] && root < size
      ensures weight[x] == Products()[x]
      ensures forall i: nat | i < size :: parent[i] == if OnPath(old(parent[..]), height, x, i) then root else old(parent[i])
      ensures forall i | 0 <= i < size && height[i] < height[x] :: parent[i] == old(parent[i]) && weight[i] == old(weight[i])
      ensures forall i | 0 <= i < size && old(parent[i]) == Roots()[i] :: parent[i] == Roots()[i]
      decreases Top(height) - height[x]
    {
      hide Forest;
      hide Product;
      hide Times;
      hide Root;
      hide Top;
      hide OnPath;
      Climb(parent[..], height, x);
      ClimbPath(parent[..], height, x);
      ClimbRatio(parent[..], height, weight[..], x);
      assert parent[..][x] == parent[x];
      ghost var up := parent[x];
      if parent[x] != x {
        root := Find(parent[x]);
        ghost var p, w := parent[..], weight[..];
        assert p[x] == up && ProductsOf(p, height, w)[up] == w[up];
        Climb(p, height, x);
        ClimbRatio(p, height, w, x);
        assert parent[x] == up && weight[x] == w[x];
        weight[x] := weight[x] * weight[parent[x]];
        assert weight[x] == ProductsOf(p, height, w)[x];
        parent[x] := root;
        assert parent[..] == p[x := Root(p, height, x)];
        assert weight[..] == w[x := Product(p, height, w, x)];
        CompressKeepsRatios(p, height, w, x);
      }
      root := parent[x];
    }

    /** Records x / y = val unless x and y already have a ratio. */
    method Union(x: nat, y: nat, val: real)
      requires Valid() && x < size && y < size && val != 0.0
      modifies this, parent, weight
      ensures Valid()
      ensures united == old(united) + [(x, y)]
      ensures ratios == if Equivalent(old(united), x, y) then old(ratios) else old(ratios) + [Ratio(x, y, val)]
    {
      hide Tracks;
      hide Solves;
      hide Forest;
      hide RootsOf;
      hide ProductsOf;
      SameRepresentative(Roots(), united, x, y);
      var px := Find(x);
      var py := Find(y);
      if px == py {
        TracksAgain(Roots(), united, x, y);
        united := united + [(x, y)];
        return;
      }
      DirectWeight(parent[..], height, weight[..], x);
      Hang(px, py, x, y, val);
    }

    /** Hangs the root of x below the root of y so that x / y becomes val. */
    method Hang(px: nat, py: nat, x: nat, y: nat, val: real)
      requires Valid() && x < size && y < size && val != 0.0
      requires px == Roots()[x] && py == Roots()[y] && px != py
      requires weight[x] == Products()[x] && weight[y] == Products()[y]
      modifies this, parent, weight
      ensures Valid()
      ensures united == old(united) + [(x, y)] && ratios == old(ratios) + [Ratio(x, y, val)]
    {
      hide Tracks;
      hide Solves;
      hide Forest;
      hide RootsOf;
      hide ProductsOf;
      ghost var p, w, h := parent[..], weight[..], height;
      RatioStep(p, h, w, united, ratios, x, y, val);
      parent[px] := py;
      weight[px] := val * weight[y] / weight[x];
      assert weight[px] == LinkWeight(w[x], w[y], val);
      hide LinkWeight;
      assert parent[..] == p[px := py];
      assert weight[..] == w[px := LinkWeight(w[x], w[y], val)];
      height := LinkedRank(h, py, px);
      ratios := ratios + [Ratio(x, y, val)];
      united := united + [(x, y)];
    }

    /** x / y if their classes were ever joined, else -1. */
    method Query(x: nat, y: nat) returns (ratio: real)
      requires Valid() && x < size && y < size
      modifies parent, weight
      ensures Valid() && Products() == old(Products())
      ensures Products()[y] != 0.0
      ensures Equivalent(united, x, y) ==>
                && ratio == Products()[x] / Products()[y]
                && forall g: seq<real> | |g| == size && Satisfies(g, ratios) && g[y] != 0.0 :: ratio == g[x] / g[y]
      ensures !Equivalent(united, x, y) ==> ratio == -1.0
    {
      hide Tracks;
      hide Solves;
      hide Forest;
      hide RootsOf;
      hide ProductsOf;
      SameRepresentative(Roots(), united, x, y);
      ProductsNonZero(Products(), Roots(), ratios);
      var px := Find(x);
      var py := Find(y);
      DirectWeight(parent[..], height, weight[..], x);
      if px != py {
        return -1.0;
      }
      ratio := weight[x] / weight[y];
      forall g: seq<real> | |g| == size && Satisfies(g, ratios) && g[y] != 0.0
        ensures ratio == g[x] / g[y]
      {
        RatioInSolution(Products(), Roots(), ratios, x, y, g);
      }
    }

    lemma ValidShape()
      requires Valid()
      ensures Shape()
    {
    }

    /** Three queries one after the other: ratios compose, although every query
        re-points its paths. */
    method QueriesCompose(x: nat, y: nat, z: nat) returns (xy: real, yz: real, xz: real)
      requires Valid() && x < size && y < size && z < size
      modifies parent, weight
      ensures Valid() && Products() == old(Products())
      ensures Equivalent(united, x, y) && Equivalent(united, y, z) ==> xy * yz == xz
    {
      hide Valid;
      hide Shape;
      hide Products;
      hide Equivalent;
      hide Satisfies;
      ValidShape();
      xy := Query(x, y);
      yz := Query(y, z);
      xz := Query(x, z);
      ValidShape();
      if Equivalent(united, x, y) && Equivalent(united, y, z) {
        EquivalentTrans(united, x, y, z);
        RatiosCompose(Products()[x], Products()[y], Products()[z]);
      }
    }
  }

  /** A node that points at its root carries its whole ratio. */
  lemma DirectWeight(p: seq<nat>, h: seq<nat>, w: seq<real>, x: nat)
    requires Forest(p, h) && |w| == |p| && x < |p| && p[x] == RootsOf(p, h)[x]
    requires forall i | 0 <= i < |p| :: p[i] == i ==> w[i] == 1.0
    ensures w[x] == ProductsOf(p, h, w)[x]
  {
    assert Product(p, h, w, p[x]) == 1.0;
  }

  lemma ProductsNonZero(q: seq<real>, r: seq<nat>, cs: seq<Ratio>)
    requires Solves(q, r, cs)
    ensures forall i | 0 <= i < |q| :: q[i] != 0.0
  {
  }

  /** Hanging x's root below y's root records the pair and its ratio. */
  lemma RatioStep(p: seq<nat>, h: seq<nat>, w: seq<real>, ps: Pairs, cs: seq<Ratio>, x: nat, y: nat, val: real)
    requires Forest(p, h) && |w| == |p| && x < |p| && y < |p| && val != 0.0
    requires Tracks(RootsOf(p, h), ps) && Solves(ProductsOf(p, h, w), RootsOf(p, h), cs)
    requires RootsOf(p, h)[x] != RootsOf(p, h)[y]
    requires w[x] == ProductsOf(p, h, w)[x] && w[y] == ProductsOf(p, h, w)[y]
    ensures |h| == |p| && w[x] != 0.0
    ensures var px, py := RootsOf(p, h)[x], RootsOf(p, h)[y];
            && px < |p| && py < |p| && p[py] == py
            && var p', h', w' := p[px := py], LinkedRank(h, py, px), w[px := LinkWeight(w[x], w[y], val)];
            && Forest(p', h')
            && Tracks(RootsOf(p', h'), ps + [(x, y)])
            && Solves(ProductsOf(p', h', w'), RootsOf(p', h'), cs + [Ratio(x, y, val)])
  {
    var r, q := RootsOf(p, h), ProductsOf(p, h, w);
    ProductsNonZero(q, r, cs);
    assert Linkable(p, h, r[y], r[x]);
    hide Tracks;
    hide Solves;
    hide Forest;
    hide Root;
    hide Product;
    LinkScales(p, h, w, r[y], r[x], LinkWeight(w[x], w[y], val));
    TracksMerged(r, ps, x, y, r[y], r[x]);
    LinkSolves(q, r, cs, x, y, val);
  }

  lemma InitialRatios(p: seq<nat>, h: seq<nat>, w: seq<real>)
    requires |p| == |h| == |w| && forall i | 0 <= i < |p| :: p[i] == i && h[i] == 0 && w[i] == 1.0
    ensures Forest(p, h) && Tracks(RootsOf(p, h), []) && Solves(ProductsOf(p, h, w), RootsOf(p, h), [])
  {
    var q, r := ProductsOf(p, h, w), RootsOf(p, h);
    TracksNothing(r);
    forall g: seq<real> | |g| == |q|
      ensures Follows(g, q, r)
    {
      forall i: nat | i < |r|
        ensures FollowsAt(g, q, r, i)
      {
      }
    }
  }

  /** One step up: the parent is higher, and has the same root. */
  lemma Climb(p: seq<nat>, h: seq<nat>, x: nat)
    requires Forest(p, h) && x < |p|
    ensures |h| == |p| && p[x] < |p| && h[x] <= Top(h) && h[p[x]] <= Top(h)
    ensures RootsOf(p, h)[x] == RootsOf(p, h)[p[x]] < |p|
    ensures RootsOf(p, h)[x] == Root(p, h, x)
    ensures if p[x] == x then RootsOf(p, h)[x] == x else RootsOf(p, h)[x] != x && h[x] < h[p[x]]
  {
  }

  /** The ratio of x to its root is its weight times its parent's ratio. */
  lemma ClimbPath(p: seq<nat>, h: seq<nat>, x: nat)
    requires Forest(p, h) && x < |p|
    ensures p[x] < |p| && forall i: nat :: OnPath(p, h, x, i) <==> i == x || (p[x] != x && OnPath(p, h, p[x], i))
  {
  }

  lemma ClimbRatio(p: seq<nat>, h: seq<nat>, w: seq<real>, x: nat)
    requires Forest(p, h) && |w| == |p| && x < |p|
    ensures p[x] < |p| && ProductsOf(p, h, w)[x] == Product(p, h, w, x)
    ensures Product(p, h, w, x) == if p[x] == x then 1.0 else w[x] * ProductsOf(p, h, w)[p[x]]
  {
  }
}

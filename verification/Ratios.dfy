/** Weighted parent forests over the reals: each link carries the ratio of a node to its parent. */
module Ratios {
  import opened Partitions
  import opened Forests

  /** x / y = value, recorded by a union that merged two classes. */
  datatype Ratio = Ratio(x: nat, y: nat, value: real)

  function Times(x: real, y: real): real { x * y }

  /** The assignment g of reals to nodes has the ratio c. */
  ghost predicate Holds(g: seq<real>, c: Ratio) {
    c.x < |g| && c.y < |g| && g[c.x] == Times(c.value, g[c.y])
  }

  /** An assignment that has every recorded ratio. */
  ghost predicate Satisfies(g: seq<real>, cs: seq<Ratio>) {
    forall c | c in cs :: Holds(g, c)
  }

  /** The product of the weights from x up to its root. */
  ghost function Product(p: seq<nat>, h: seq<nat>, w: seq<real>, x: nat): real
    requires Forest(p, h) && |w| == |p| && x < |p|
    decreases Top(h) - h[x]
  {
    if p[x] == x then 1.0 else Times(w[x], Product(p, h, w, p[x]))
  }

  ghost function ProductsOf(p: seq<nat>, h: seq<nat>, w: seq<real>): (q: seq<real>)
    requires Forest(p, h) && |w| == |p|
    ensures |q| == |p|
  {
    seq(|p|, i requires 0 <= i < |p| => Product(p, h, w, i))
  }

  // ----- Path compression --------------------------------------------------

  lemma {:induction false} CompressKeepsProduct(p: seq<nat>, h: seq<nat>, w: seq<real>, x: nat, i: nat)
    requires Forest(p, h) && |w| == |p| && x < |p| && i < |p| && p[x] != x
    requires Forest(p[x := Root(p, h, x)], h)
    ensures Product(p[x := Root(p, h, x)], h, w[x := Product(p, h, w, x)], i) == Product(p, h, w, i)
    decreases Top(h) - h[i]
  {
    var r := Root(p, h, x);
    var p', w' := p[x := r], w[x := Product(p, h, w, x)];
    if i == x {
      assert p'[r] == r && Product(p', h, w', r) == 1.0;
    } else if p[i] != i {
      CompressKeepsProduct(p, h, w, x, p[i]);
    }
  }

  /** Re-pointing a node at its root with its whole product as weight changes no ratio to any root. */
  lemma CompressKeepsRatios(p: seq<nat>, h: seq<nat>, w: seq<real>, x: nat)
    requires Forest(p, h) && |w| == |p| && x < |p| && p[x] != x
    ensures var p', w' := p[x := Root(p, h, x)], w[x := Product(p, h, w, x)];
            Forest(p', h) && RootsOf(p', h) == RootsOf(p, h) && ProductsOf(p', h, w') == ProductsOf(p, h, w)
  {
    CompressKeepsAll(p, h, x);
    forall i: nat | i < |p|
      ensures Product(p[x := Root(p, h, x)], h, w[x := Product(p, h, w, x)], i) == Product(p, h, w, i)
    {
      CompressKeepsProduct(p, h, w, x, i);
    }
  }

  // ----- Linking -----------------------------------------------------------

  /** The products after the tree of root b is scaled by c. */
  function Scale(q: seq<real>, r: seq<nat>, b: nat, c: real): seq<real>
    requires |q| == |r|
  {
    seq(|q|, i requires 0 <= i < |q| => if r[i] == b then Times(q[i], c) else q[i])
  }

  lemma {:induction false} LinkScalesProduct(p: seq<nat>, h: seq<nat>, w: seq<real>, a: nat, b: nat, c: real, i: nat)
    requires Linkable(p, h, a, b) && |w| == |p| && i < |p|
    requires Forest(p[b := a], LinkedRank(h, a, b))
    ensures Product(p[b := a], LinkedRank(h, a, b), w[b := c], i)
            == if Root(p, h, i) == b then Times(Product(p, h, w, i), c) else Product(p, h, w, i)
    decreases Top(h) - h[i]
  {
    var p', h', w' := p[b := a], LinkedRank(h, a, b), w[b := c];
    if i == b {
      assert p'[a] == a && Product(p', h', w', a) == 1.0;
    } else if p[i] != i {
      LinkScalesProduct(p, h, w, a, b, c, p[i]);
      Associate(w[i], Product(p, h, w, p[i]), c);
    }
  }

  lemma Associate(x: real, y: real, z: real)
    ensures Times(x, Times(y, z)) == Times(Times(x, y), z)
  {
  }

  /** Hanging root b below root a with weight c scales exactly b's tree. */
  lemma LinkScales(p: seq<nat>, h: seq<nat>, w: seq<real>, a: nat, b: nat, c: real)
    requires Linkable(p, h, a, b) && |w| == |p|
    ensures var p', h' := p[b := a], LinkedRank(h, a, b);
            && Forest(p', h')
            && RootsOf(p', h') == Redirect(RootsOf(p, h), a, b)
            && ProductsOf(p', h', w[b := c]) == Scale(ProductsOf(p, h, w), RootsOf(p, h), b, c)
  {
    LinkRedirects(p, h, a, b);
    hide Times;
    hide Forest;
    hide Root;
    forall i: nat | i < |p|
      ensures Product(p[b := a], LinkedRank(h, a, b), w[b := c], i)
              == if Root(p, h, i) == b then Times(Product(p, h, w, i), c) else Product(p, h, w, i)
    {
      LinkScalesProduct(p, h, w, a, b, c, i);
    }
  }

  // ----- What the products mean --------------------------------------------

  ghost predicate InOneClass(r: seq<nat>, c: Ratio) {
    c.x < |r| && c.y < |r| && r[c.x] == r[c.y]
  }

  /** The value of i is its product times the value of its root. */
  ghost predicate FollowsAt(g: seq<real>, q: seq<real>, r: seq<nat>, i: nat) {
    i < |g| == |q| == |r| && r[i] < |r| && g[i] == Times(q[i], g[r[i]])
  }

  ghost predicate Follows(g: seq<real>, q: seq<real>, r: seq<nat>) {
    forall i: nat | i < |r| :: FollowsAt(g, q, r, i)
  }

  /** q[i] is the ratio of i to its root r[i] in every solution, and q is itself a solution. */
  ghost predicate Solves(q: seq<real>, r: seq<nat>, cs: seq<Ratio>) {
    && |q| == |r|
    && (forall i | 0 <= i < |r| :: q[i] != 0.0)
    && (forall c | c in cs :: InOneClass(r, c))
    && Satisfies(q, cs)
    && forall g: seq<real> | |g| == |q| && Satisfies(g, cs) :: Follows(g, q, r)
  }

  lemma ScaleHolds(q: seq<real>, r: seq<nat>, c: Ratio, b: nat, z: real)
    requires |q| == |r| && Holds(q, c) && InOneClass(r, c)
    ensures Holds(Scale(q, r, b, z), c)
  {
    Associate(c.value, q[c.y], z);
  }

  /** The link weight: with x = qx px and y = qy py, x / y = v fixes px / py. */
  function LinkWeight(qx: real, qy: real, v: real): real
    requires qx != 0.0
  {
    v * qy / qx
  }

  lemma LinkWeightFits(qx: real, qy: real, v: real)
    requires qx != 0.0
    ensures Times(qx, LinkWeight(qx, qy, v)) == Times(v, qy)
    ensures qy != 0.0 && v != 0.0 ==> LinkWeight(qx, qy, v) != 0.0
  {
    var n := v * qy;
    assert n / qx * qx == n;
  }

  lemma LinkWeightForced(qx: real, qy: real, v: real, gpx: real, gpy: real)
    requires qx != 0.0
    requires Times(qx, gpx) == Times(v, Times(qy, gpy))
    ensures gpx == Times(LinkWeight(qx, qy, v), gpy)
  {
    var c := LinkWeight(qx, qy, v);
    LinkWeightFits(qx, qy, v);
    Associate(v, qy, gpy);
    Associate(qx, c, gpy);
    assert qx * gpx == qx * (c * gpy);
    assert qx * (gpx - c * gpy) == 0.0;
  }

  lemma LinkFollows(q: seq<real>, r: seq<nat>, cs: seq<Ratio>, x: nat, y: nat, v: real, g: seq<real>)
    requires Solves(q, r, cs) && x < |r| && y < |r| && r[x] != r[y]
    requires |g| == |q| && Satisfies(g, cs) && Holds(g, Ratio(x, y, v))
    ensures Follows(g, Scale(q, r, r[x], LinkWeight(q[x], q[y], v)), Redirect(r, r[y], r[x]))
  {
    var c := LinkWeight(q[x], q[y], v);
    var q', r' := Scale(q, r, r[x], c), Redirect(r, r[y], r[x]);
    hide Times;
    assert FollowsAt(g, q, r, x) && FollowsAt(g, q, r, y);
    LinkWeightForced(q[x], q[y], v, g[r[x]], g[r[y]]);
    forall i: nat | i < |r|
      ensures FollowsAt(g, q', r', i)
    {
      assert FollowsAt(g, q, r, i);
      Associate(q[i], c, g[r[y]]);
    }
  }

  /** Merging two classes with x / y = v keeps the products a description of all solutions. */
  lemma LinkSolves(q: seq<real>, r: seq<nat>, cs: seq<Ratio>, x: nat, y: nat, v: real)
    requires Solves(q, r, cs) && x < |r| && y < |r| && r[x] != r[y] && v != 0.0
    ensures Solves(Scale(q, r, r[x], LinkWeight(q[x], q[y], v)), Redirect(r, r[y], r[x]), cs + [Ratio(x, y, v)])
  {
    hide Follows;
    var c := LinkWeight(q[x], q[y], v);
    var q', r', cs' := Scale(q, r, r[x], c), Redirect(r, r[y], r[x]), cs + [Ratio(x, y, v)];
    LinkWeightFits(q[x], q[y], v);
    assert forall i | 0 <= i < |r| :: q[i] != 0.0 ==> Times(q[i], c) != 0.0;
    hide Times;
    hide LinkWeight;
    forall d | d in cs'
      ensures InOneClass(r', d) && Holds(q', d)
    {
      if d in cs {
        assert InOneClass(r, d) && Holds(q, d);
        ScaleHolds(q, r, d, r[x], c);
      }
    }
    forall g: seq<real> | |g| == |q'| && Satisfies(g, cs')
      ensures Follows(g, q', r')
    {
      assert Ratio(x, y, v) in cs';
      assert Satisfies(g, cs) by {
        forall d | d in cs
          ensures Holds(g, d)
        {
          assert d in cs';
        }
      }
      LinkFollows(q, r, cs, x, y, v, g);
    }
  }

  /** In one class, every solution has the ratio of the products. */
  lemma RatioInSolution(q: seq<real>, r: seq<nat>, cs: seq<Ratio>, x: nat, y: nat, g: seq<real>)
    requires Solves(q, r, cs) && x < |r| && y < |r| && r[x] == r[y]
    requires |g| == |q| && Satisfies(g, cs) && g[y] != 0.0
    ensures g[x] / g[y] == q[x] / q[y]
  {
    assert FollowsAt(g, q, r, x) && FollowsAt(g, q, r, y);
    CancelFactor(q[x], q[y], g[r[x]]);
  }

  lemma CancelFactor(a: real, b: real, t: real)
    requires b != 0.0 && Times(b, t) != 0.0
    ensures Times(a, t) / Times(b, t) == a / b
  {
    var z := a / b;
    assert a == z * b;
    assert a * t == z * (b * t);
  }

  /** Ratios compose. */
  lemma RatiosCompose(a: real, b: real, c: real)
    requires b != 0.0 && c != 0.0
    ensures (a / b) * (b / c) == a / c
  {
    var z, u := a / b, b / c;
    assert a == z * b && b == u * c;
    assert a == (z * u) * c;
  }
}

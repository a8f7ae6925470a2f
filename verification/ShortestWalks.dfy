/** Breadth-first search on values: the invariant of the algorithm and what it ends in. */
module ShortestWalks {
  import opened GraphTheory
  import opened Sequences

  /** v has a distance of at most one more than u's. */
  ghost predicate Settled(dist: seq<int>, u: nat, v: nat) {
    u < |dist| && v < |dist| && 0 <= dist[v] <= dist[u] + 1
  }

  /** q is the queue; its first `done` nodes are finished, and so are the first
      `i` edges of the next one. */
  ghost predicate Searching(adj: Adjacency, s: nat, q: seq<nat>, done: nat, i: nat, dist: seq<int>, maxDist: int) {
    && WellFormed(adj) && |dist| == |adj| && s < |adj| && done <= |q| && |q| > 0
    && Distinct(q) && Below(q, |adj|)
    && dist[s] == 0
    && (forall v: nat | v < |adj| :: dist[v] == -1 || (0 <= dist[v] && Reach(adj, s, v, dist[v])))
    && (forall v: nat | v < |adj| :: v in q <==> dist[v] != -1)
    && (forall j, k | 0 <= j <= k < |q| :: dist[q[j]] <= dist[q[k]])
    && (forall j, e | 0 <= j < done && 0 <= e < |adj[q[j]]| :: Settled(dist, q[j], adj[q[j]][e]))
    && (done < |q| ==>
          && i <= |adj[q[done]]|
          && (forall e | 0 <= e < i :: Settled(dist, q[done], adj[q[done]][e]))
          && dist[q[|q| - 1]] <= dist[q[done]] + 1)
    && maxDist == dist[q[|q| - 1]]
  }

  lemma SearchStart(adj: Adjacency, s: nat, q: seq<nat>, dist: seq<int>)
    requires WellFormed(adj) && |dist| == |adj| && s < |adj| && q == [s]
    requires forall v: nat | v < |adj| :: dist[v] == if v == s then 0 else -1
    ensures Searching(adj, s, q, 0, 0, dist, 0)
  {
    ReachSelf(adj, s);
  }

  lemma SearchTake(adj: Adjacency, s: nat, q: seq<nat>, done: nat, i: nat, dist: seq<int>, maxDist: int)
    requires Searching(adj, s, q, done, i, dist, maxDist) && done < |q|
    ensures q[done] < |adj|
  {
  }

  /** A neighbour that already has a distance has one small enough. */
  lemma SearchSeen(adj: Adjacency, s: nat, q: seq<nat>, done: nat, i: nat, dist: seq<int>, maxDist: int)
    requires Searching(adj, s, q, done, i, dist, maxDist) && done < |q|
    requires q[done] < |adj| && i < |adj[q[done]]| && adj[q[done]][i] < |dist| && dist[adj[q[done]][i]] != -1
    ensures Searching(adj, s, q, done, i + 1, dist, maxDist)
  {
    var v := adj[q[done]][i];
    assert v in q;
    var j :| 0 <= j < |q| && q[j] == v;
    assert dist[q[j]] <= dist[q[|q| - 1]];
    assert Settled(dist, q[done], v);
  }

  /** A neighbour without a distance gets one more than the current node's and joins the queue. */
  lemma SearchNew(adj: Adjacency, s: nat, q: seq<nat>, done: nat, i: nat, dist: seq<int>, maxDist: int)
    requires Searching(adj, s, q, done, i, dist, maxDist) && done < |q|
    requires q[done] < |adj| && i < |adj[q[done]]| && adj[q[done]][i] < |dist| && dist[adj[q[done]][i]] == -1
    ensures |q| < |adj|
    ensures var u, v := q[done], adj[q[done]][i];
            var d := dist[u] + 1;
            && d >= maxDist
            && Searching(adj, s, q + [v], done, i + 1, dist[v := d], d)
  {
    var u, v := q[done], adj[q[done]][i];
    var q', dist' := q + [v], dist[v := dist[u] + 1];
    DistinctBelow(q, |adj|);
    assert v !in q && u in q;
    ReachEdge(adj, s, u, v, dist[u]);
    forall j, e | 0 <= j < done && 0 <= e < |adj[q'[j]]|
      ensures Settled(dist', q'[j], adj[q'[j]][e])
    {
      assert Settled(dist, q[j], adj[q[j]][e]);
    }
    forall e | 0 <= e < i + 1
      ensures Settled(dist', q'[done], adj[q'[done]][e])
    {
      assert e < i ==> Settled(dist, q[done], adj[q[done]][e]);
    }
  }

  lemma SearchAdvance(adj: Adjacency, s: nat, q: seq<nat>, done: nat, dist: seq<int>, maxDist: int)
    requires done < |q| && q[done] < |adj|
    requires Searching(adj, s, q, done, |adj[q[done]]|, dist, maxDist)
    ensures Searching(adj, s, q, done + 1, 0, dist, maxDist)
  {
  }

  lemma {:induction false} WalksAreSettled(adj: Adjacency, s: nat, q: seq<nat>, dist: seq<int>, maxDist: int, v: nat, k: int)
    requires Searching(adj, s, q, |q|, 0, dist, maxDist) && Reach(adj, s, v, k)
    ensures v < |adj| && 0 <= dist[v] <= k
    decreases k
  {
    if k != 0 {
      var u := ReachLastEdge(adj, s, v, k);
      WalksAreSettled(adj, s, q, dist, maxDist, u, k - 1);
      assert u in q;
      var j :| 0 <= j < |q| && q[j] == u;
      var e :| 0 <= e < |adj[u]| && adj[u][e] == v;
      assert Settled(dist, q[j], adj[q[j]][e]);
    }
  }

  lemma SearchEnd(adj: Adjacency, s: nat, q: seq<nat>, dist: seq<int>, maxDist: int)
    requires Searching(adj, s, q, |q|, 0, dist, maxDist)
    ensures |dist| == |adj| && q[|q| - 1] < |adj| && dist[q[|q| - 1]] == maxDist
    ensures forall v: nat | v < |adj| :: IsDistance(adj, s, v, dist[v]) && dist[v] <= maxDist
  {
    forall v: nat | v < |adj|
      ensures IsDistance(adj, s, v, dist[v]) && dist[v] <= maxDist
    {
      forall k | Reach(adj, s, v, k)
        ensures 0 <= dist[v] <= k
      {
        WalksAreSettled(adj, s, q, dist, maxDist, v, k);
      }
      if dist[v] != -1 {
        assert v in q;
      }
    }
  }
}

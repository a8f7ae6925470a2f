/** Directed graphs as adjacency lists, their walks and their cycles. */
module GraphTheory {

  type Adjacency = seq<seq<nat>>

  ghost predicate WellFormed(adj: Adjacency) {
    forall u, i | 0 <= u < |adj| && 0 <= i < |adj[u]| :: adj[u][i] < |adj|
  }

  // ----- Walks and cycles --------------------------------------------------

  ghost predicate IsWalk(adj: Adjacency, p: seq<nat>) {
    && |p| >= 1
    && (forall i | 0 <= i < |p| :: p[i] < |adj|)
    && (forall i | 0 <= i < |p| - 1 :: p[i + 1] in adj[p[i]])
  }

  ghost predicate IsCycle(adj: Adjacency, p: seq<nat>) {
    IsWalk(adj, p) && |p| >= 2 && p[0] == p[|p| - 1]
  }

  ghost predicate Acyclic(adj: Adjacency) {
    forall p: seq<nat> :: !IsCycle(adj, p)
  }

  /** Some walk leads from a node on a cycle to v. */
  ghost predicate BehindCycle(adj: Adjacency, v: nat) {
    exists c: seq<nat>, p: seq<nat> :: IsCycle(adj, c) && IsWalk(adj, p) && p[0] == c[0] && p[|p| - 1] == v
  }

  /** The nodes that no cycle leads to. */
  ghost function Sortable(adj: Adjacency): set<nat> {
    set v: nat | v < |adj| && !BehindCycle(adj, v)
  }

  /** v can be reached from s by a walk of exactly k edges. */
  ghost predicate Reach(adj: Adjacency, s: nat, v: nat, k: int) {
    exists p: seq<nat> :: IsWalk(adj, p) && p[0] == s && p[|p| - 1] == v && |p| == k + 1
  }

  /** d is the number of edges of a shortest walk from s to v, or -1 if there is none. */
  ghost predicate IsDistance(adj: Adjacency, s: nat, v: nat, d: int) {
    if d == -1 then forall k :: !Reach(adj, s, v, k)
    else Reach(adj, s, v, d) && forall k :: Reach(adj, s, v, k) ==> d <= k
  }

  lemma ReachSelf(adj: Adjacency, s: nat)
    requires s < |adj|
    ensures Reach(adj, s, s, 0)
  {
    assert IsWalk(adj, [s]);
  }

  lemma ReachEdge(adj: Adjacency, s: nat, u: nat, v: nat, k: int)
    requires Reach(adj, s, u, k) && v in adj[u] && v < |adj|
    ensures Reach(adj, s, v, k + 1)
  {
    var p: seq<nat> :| IsWalk(adj, p) && p[0] == s && p[|p| - 1] == u && |p| == k + 1;
    assert IsWalk(adj, p + [v]);
  }

  /** Every walk but the empty one ends with an edge. */
  lemma ReachLastEdge(adj: Adjacency, s: nat, v: nat, k: int) returns (u: nat)
    requires Reach(adj, s, v, k) && k != 0
    ensures k > 0 && u < |adj| && Reach(adj, s, u, k - 1) && v in adj[u]
  {
    var p: seq<nat> :| IsWalk(adj, p) && p[0] == s && p[|p| - 1] == v && |p| == k + 1;
    u := p[k - 1];
    assert p[k - 1 + 1] in adj[u];
    assert IsWalk(adj, p[..k]);
  }
}

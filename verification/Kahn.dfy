/** Kahn's topological sort on values: the invariant of the algorithm and what it ends in. */
module Kahn {
  import opened GraphTheory
  import opened Sequences

  // ----- Counting edges ----------------------------------------------------

  /** The number of edges into v that leave the first k nodes outside `done`. */
  function EdgesInto(adj: Adjacency, done: set<nat>, v: nat, k: nat): nat
    requires k <= |adj|
  {
    if k == 0 then 0
    else EdgesInto(adj, done, v, k - 1) + if k - 1 in done then 0 else multiset(adj[k - 1])[v]
  }

  lemma {:induction false} FinishNode(adj: Adjacency, done: set<nat>, u: nat, v: nat, k: nat)
    requires k <= |adj| && u !in done
    ensures EdgesInto(adj, done, v, k)
            == EdgesInto(adj, done + {u}, v, k) + if u < k then multiset(adj[u])[v] else 0
  {
    if k != 0 {
      FinishNode(adj, done, u, v, k - 1);
    }
  }

  lemma {:induction false} NoEdgesInto(adj: Adjacency, done: set<nat>, v: nat, k: nat)
    requires k <= |adj|
    ensures EdgesInto(adj, done, v, k) == 0 <==> forall u: nat | u < k && u !in done :: v !in adj[u]
  {
    if k != 0 {
      NoEdgesInto(adj, done, v, k - 1);
    }
  }

  lemma {:induction false} OneMoreEdge(adj: Adjacency, u: nat, v: nat, w: nat, k: nat)
    requires k <= |adj| && u < |adj|
    ensures EdgesInto(adj[u := adj[u] + [v]], {}, w, k)
            == EdgesInto(adj, {}, w, k) + if u < k && w == v then 1 else 0
  {
    if k != 0 {
      OneMoreEdge(adj, u, v, w, k - 1);
    }
  }

  // ----- Kahn's algorithm on values ----------------------------------------

  /** q is the queue, of which the first `done` nodes have been taken; `pending`
      holds the targets of the last taken node not yet counted down. */
  ghost predicate Sorting(adj: Adjacency, q: seq<nat>, done: nat, indeg: seq<int>, pending: multiset<nat>) {
    && |indeg| == |adj| && done <= |q|
    && Distinct(q) && Below(q, |adj|)
    && (forall v: nat | v < |adj| :: indeg[v] == EdgesInto(adj, ToSet(q[..done]), v, |adj|) + pending[v])
    && (forall v: nat | v < |adj| :: v in q <==> indeg[v] == 0)
    && (forall j, u: nat | 0 <= j < |q| && u < |adj| && q[j] in adj[u] :: u in q[..j] && u in q[..done])
  }

  /** Before anything is taken the queue holds exactly the nodes without incoming edges. */
  lemma Start(adj: Adjacency, q: seq<nat>, indeg: seq<int>)
    requires |indeg| == |adj| && Distinct(q) && Below(q, |adj|)
    requires forall v: nat | v < |adj| :: indeg[v] == EdgesInto(adj, {}, v, |adj|)
    requires forall v: nat | v < |adj| :: v in q <==> indeg[v] == 0
    ensures Sorting(adj, q, 0, indeg, multiset{})
  {
    assert ToSet(q[..0]) == {};
    forall j, u: nat | 0 <= j < |q| && u < |adj| && q[j] in adj[u]
      ensures false
    {
      assert q[j] in q;
      NoEdgesInto(adj, {}, q[j], |adj|);
    }
  }

  lemma Take(adj: Adjacency, q: seq<nat>, done: nat, indeg: seq<int>)
    requires Sorting(adj, q, done, indeg, multiset{}) && done < |q|
    ensures q[done] < |adj|
    ensures Sorting(adj, q, done + 1, indeg, multiset(adj[q[done]]))
  {
    var u := q[done];
    assert ToSet(q[..done + 1]) == ToSet(q[..done]) + {u};
    forall v: nat | v < |adj|
      ensures indeg[v] == EdgesInto(adj, ToSet(q[..done + 1]), v, |adj|) + multiset(adj[u])[v]
    {
      FinishNode(adj, ToSet(q[..done]), u, v, |adj|);
    }
    forall j, w: nat | 0 <= j < |q| && w < |adj| && q[j] in adj[w]
      ensures w in q[..done + 1]
    {
      assert w in q[..done];
    }
  }

  /** A node with an edge still pending is not queued, so the queue has room for it. */
  lemma Room(adj: Adjacency, q: seq<nat>, done: nat, indeg: seq<int>, pending: multiset<nat>, v: nat)
    requires Sorting(adj, q, done, indeg, pending) && v < |adj| && v in pending
    ensures indeg[v] > 0 && v !in q && |q| < |adj|
  {
    DistinctBelow(q, |adj|);
    assert v !in q;
  }

  /** Counting down an edge of a node that keeps others. */
  lemma CountDown(adj: Adjacency, q: seq<nat>, done: nat, indeg: seq<int>, pending: multiset<nat>, v: nat)
    requires Sorting(adj, q, done, indeg, pending) && v < |adj| && v in pending && indeg[v] != 1
    ensures Sorting(adj, q, done, indeg[v := indeg[v] - 1], pending - multiset{v})
  {
    Room(adj, q, done, indeg, pending, v);
  }

  /** Counting down the last edge of a node queues it. */
  lemma Enqueue(adj: Adjacency, q: seq<nat>, done: nat, indeg: seq<int>, pending: multiset<nat>, v: nat)
    requires Sorting(adj, q, done, indeg, pending) && v < |adj| && v in pending && indeg[v] == 1
    ensures Sorting(adj, q + [v], done, indeg[v := 0], pending - multiset{v})
  {
    Room(adj, q, done, indeg, pending, v);
    NoEdgesInto(adj, ToSet(q[..done]), v, |adj|);
    var q' := q + [v];
    assert q'[..done] == q[..done];
    forall j, u: nat | 0 <= j < |q'| && u < |adj| && q'[j] in adj[u]
      ensures u in q'[..j] && u in q'[..done]
    {
      if j == |q| {
        assert u in q[..done];
        assert q'[..j] == q;
      } else {
        assert q'[..j] == q[..j];
      }
    }
  }

  // ----- What the finished queue means -------------------------------------

  /** Distinct nodes, each placed after all of its predecessors. */
  ghost predicate IsTopologicalOrder(adj: Adjacency, q: seq<nat>) {
    && Distinct(q) && Below(q, |adj|)
    && forall j, u: nat | 0 <= j < |q| && u < |adj| && q[j] in adj[u] :: u in q[..j]
  }

  lemma {:induction false} WalkMovesForward(adj: Adjacency, q: seq<nat>, p: seq<nat>, j: nat) returns (i: nat)
    requires IsTopologicalOrder(adj, q) && IsWalk(adj, p)
    requires j < |q| && q[j] == p[|p| - 1]
    ensures i <= j && q[i] == p[0]
    ensures |p| >= 2 ==> i < j
    decreases |p|
  {
    if |p| == 1 {
      i := j;
    } else {
      var u := p[|p| - 2];
      assert p[|p| - 2 + 1] in adj[u];
      assert u in q[..j];
      var k :| 0 <= k < j && q[..j][k] == u;
      i := WalkMovesForward(adj, q, p[..|p| - 1], k);
    }
  }

  /** A full topological order leaves no room for a cycle. */
  lemma FullOrderAcyclic(adj: Adjacency, q: seq<nat>)
    requires IsTopologicalOrder(adj, q) && |q| == |adj|
    ensures Acyclic(adj)
  {
    forall p: seq<nat>
      ensures !IsCycle(adj, p)
    {
      if IsCycle(adj, p) {
        DistinctBelow(q, |adj|);
        assert p[|p| - 1] in q;
        var j :| 0 <= j < |q| && q[j] == p[|p| - 1];
        var i := WalkMovesForward(adj, q, p, j);
        assert false;
      }
    }
  }

  ghost predicate LeftOut(adj: Adjacency, q: seq<nat>, v: nat) {
    v < |adj| && v !in q
  }

  ghost predicate OutsideEdge(adj: Adjacency, q: seq<nat>, u: nat, v: nat) {
    LeftOut(adj, q, u) && v in adj[u]
  }

  ghost predicate EachHasOutsidePredecessor(adj: Adjacency, q: seq<nat>) {
    forall v: nat | LeftOut(adj, q, v) :: HasOutsidePredecessor(adj, q, v)
  }

  ghost predicate HasOutsidePredecessor(adj: Adjacency, q: seq<nat>, v: nat) {
    exists u: nat :: OutsideEdge(adj, q, u, v)
  }

  /** From a node left out one can walk backwards for ever through nodes left out. */
  lemma {:induction false} BackwardWalk(adj: Adjacency, q: seq<nat>, x: nat, k: nat) returns (p: seq<nat>)
    requires EachHasOutsidePredecessor(adj, q)
    requires LeftOut(adj, q, x)
    ensures IsWalk(adj, p) && |p| == k + 1 && p[k] == x
    decreases k
  {
    if k == 0 {
      p := [x];
    } else {
      assert HasOutsidePredecessor(adj, q, x);
      var u: nat :| OutsideEdge(adj, q, u, x);
      var before := BackwardWalk(adj, q, u, k - 1);
      p := before + [x];
    }
  }

  /** The walk backwards meets some node twice: a cycle, from which it leads to x. */
  lemma LeftOutMeansCycle(adj: Adjacency, q: seq<nat>, x: nat)
    requires EachHasOutsidePredecessor(adj, q)
    requires LeftOut(adj, q, x)
    ensures BehindCycle(adj, x) && !Acyclic(adj)
  {
    var p := BackwardWalk(adj, q, x, |adj|);
    var i, j := Pigeonhole(p, |adj|);
    assert IsCycle(adj, p[i..j + 1]);
    assert IsWalk(adj, p[i..]);
  }

  /** No walk from a cycle ends at a placed node. */
  lemma PlacedNotBehindCycle(adj: Adjacency, q: seq<nat>, j: nat)
    requires IsTopologicalOrder(adj, q) && j < |q|
    ensures !BehindCycle(adj, q[j])
  {
    if BehindCycle(adj, q[j]) {
      var c: seq<nat>, p: seq<nat> :| IsCycle(adj, c) && IsWalk(adj, p) && p[0] == c[0] && p[|p| - 1] == q[j];
      var i := WalkMovesForward(adj, q, p, j);
      var k := WalkMovesForward(adj, q, c, i);
      assert false;
    }
  }

  /** The finished queue is a topological order of exactly the nodes no cycle leads to. */
  lemma Finish(adj: Adjacency, q: seq<nat>, indeg: seq<int>)
    requires Sorting(adj, q, |q|, indeg, multiset{})
    ensures IsTopologicalOrder(adj, q)
    ensures |q| <= |adj|
    ensures |q| == |adj| <==> Acyclic(adj)
    ensures forall v: nat | v < |adj| :: v in q <==> !BehindCycle(adj, v)
    ensures |q| == |Sortable(adj)|
  {
    DistinctBelow(q, |adj|);
    assert q[..|q|] == q;
    FinishedQueue(adj, q, indeg);
    hide Sorting;
    hide BehindCycle;
    forall v: nat | v < |adj|
      ensures v in q <==> !BehindCycle(adj, v)
    {
      if v in q {
        var j :| 0 <= j < |q| && q[j] == v;
        PlacedNotBehindCycle(adj, q, j);
      } else {
        LeftOutMeansCycle(adj, q, v);
      }
    }
    DistinctSize(q);
    assert ToSet(q) == Sortable(adj);
    if |q| == |adj| {
      FullOrderAcyclic(adj, q);
    } else {
      var x: int :| 0 <= x < |adj| && x !in q;
      LeftOutMeansCycle(adj, q, x);
    }
  }

  lemma FinishedQueue(adj: Adjacency, q: seq<nat>, indeg: seq<int>)
    requires Sorting(adj, q, |q|, indeg, multiset{})
    ensures IsTopologicalOrder(adj, q) && EachHasOutsidePredecessor(adj, q)
  {
    assert q[..|q|] == q;
    forall v: nat | LeftOut(adj, q, v)
      ensures HasOutsidePredecessor(adj, q, v)
    {
      NoEdgesInto(adj, ToSet(q), v, |adj|);
      var u: nat :| u < |adj| && u !in ToSet(q) && v in adj[u];
      assert OutsideEdge(adj, q, u, v);
    }
  }
}

/** The directed graph of djlc/include/graph.h. */
module Graph {
  import opened GraphTheory
  import opened Kahn
  import opened ShortestWalks
  import opened Sequences

  // ----- The graph ---------------------------------------------------------

  class Graph {
    const n: nat
    const adj: array<seq<nat>>
    const indegree: array<int>

    ghost predicate Shape()
      reads adj
    {
      && adj.Length == n && indegree.Length == n
      && WellFormed(adj[..])
    }

    /** The stored in-degrees count the incoming edges, with multiplicity. */
    ghost predicate Valid()
      reads adj, indegree
    {
      && Shape()
      && forall v: nat | v < n :: indegree[v] == EdgesInto(adj[..], {}, v, n)
    }

    constructor (n: nat)
      ensures Valid() && fresh(adj) && fresh(indegree)
      ensures this.n == n && adj[..] == seq(n, _ => [])
    {
      this.n := n;
      adj := new seq<nat>[n](_ => []);
      indegree := new int[n](_ => 0);
      new;
      forall v: nat | v < n
        ensures EdgesInto(adj[..], {}, v, n) == 0
      {
        NoEdgesInto(adj[..], {}, v, n);
      }
    }

    method AddEdge(u: nat, v: nat)
      requires Valid() && u < n && v < n
      modifies adj, indegree
      ensures Valid()
      ensures adj[..] == old(adj[..])[u := old(adj[u]) + [v]]
    {
      ghost var before := adj[..];
      adj[u] := adj[u] + [v];
      indegree[v] := indegree[v] + 1;
      assert adj[..] == before[u := before[u] + [v]];
      forall w: nat | w < n
        ensures indegree[w] == EdgesInto(adj[..], {}, w, n)
      {
        OneMoreEdge(before, u, v, w, n);
      }
    }

    /** Recounts the in-degrees of any well-formed adjacency. */
    method ResetIndegree()
      requires Shape()
      modifies indegree
      ensures Valid()
    {
      forall v | 0 <= v < n {
        indegree[v] := 0;
      }
      for u := 0 to n
        invariant forall v: nat | v < n :: indegree[v] == EdgesInto(adj[..], {}, v, u)
      {
        ghost var out := adj[..][u];
        for i := 0 to |adj[u]|
          invariant forall v: nat | v < n :: indegree[v] == EdgesInto(adj[..], {}, v, u) + multiset(out[..i])[v]
        {
          var v := adj[u][i];
          assert v == adj[..][u][i];
          assert out[..i + 1] == out[..i] + [v];
          indegree[v] := indegree[v] + 1;
        }
        assert out[..|out|] == out;
      }
    }

    /** Kahn's algorithm; the order is written to `result` unless it is null. Exactly
        the nodes that no cycle leads to are placed. */
    method TopoSort(result: array?<nat>) returns (count: nat)
      requires Valid()
      requires result != null ==> result.Length >= n
      modifies result
      ensures count <= n
      ensures count == n <==> Acyclic(adj[..])
      ensures count == |Sortable(adj[..])|
      ensures result != null ==> IsTopologicalOrder(adj[..], result[..count])
      ensures result != null ==> forall v: nat | v < n :: v in result[..count] <==> !BehindCycle(adj[..], v)
      ensures result != null ==> forall i | count <= i < result.Length :: result[i] == old(result[i])
    {
      hide Sorting;
      hide Acyclic;
      hide BehindCycle;
      hide Sortable;
      hide IsTopologicalOrder;
      ghost var g := adj[..];
      var indeg := new int[n];
      forall v | 0 <= v < n {
        indeg[v] := indegree[v];
      }
      var queue := new nat[n];
      var rear := EnqueueSources(indeg, queue);
      var front := 0;
      Start(g, queue[..rear], indeg[..]);
      count := 0;
      while front < rear
        invariant front <= rear <= n && count == front
        invariant adj[..] == g
        invariant Sorting(g, queue[..rear], front, indeg[..], multiset{})
        invariant result != null ==> result[..count] == queue[..count]
        invariant result != null ==> forall i | count <= i < result.Length :: result[i] == old(result[i])
        decreases n - front
      {
        var u := queue[front];
        Take(g, queue[..rear], front, indeg[..]);
        front := front + 1;
        if result != null {
          result[count] := u;
        }
        count := count + 1;
        rear := RelaxEdges(g, u, indeg, queue, front, rear);
      }
      Finish(g, queue[..rear], indeg[..]);
    }

    /** Queues every node without incoming edges. */
    method EnqueueSources(indeg: array<int>, queue: array<nat>) returns (rear: nat)
      requires indeg.Length == n && queue.Length == n
      modifies queue
      ensures rear <= n
      ensures Distinct(queue[..rear]) && Below(queue[..rear], n)
      ensures forall v: nat | v < n :: v in queue[..rear] <==> indeg[v] == 0
    {
      rear := 0;
      for i := 0 to n
        invariant rear <= i
        invariant Distinct(queue[..rear]) && Below(queue[..rear], i)
        invariant forall v: nat | v < i :: v in queue[..rear] <==> indeg[v] == 0
      {
        if indeg[i] == 0 {
          ghost var q := queue[..rear];
          queue[rear] := i;
          rear := rear + 1;
          assert queue[..rear] == q + [i];
        }
      }
    }

    /** The inner loop: counts down the edges leaving u and queues what reaches zero. */
    method RelaxEdges(ghost g: Adjacency, u: nat, indeg: array<int>, queue: array<nat>, ghost front: nat, rear0: nat)
      returns (rear: nat)
      requires adj.Length == n && g == adj[..] && WellFormed(g) && u < n
      requires indeg.Length == n && queue.Length == n && rear0 <= n
      requires Sorting(g, queue[..rear0], front, indeg[..], multiset(g[u]))
      modifies indeg, queue
      ensures rear0 <= rear <= n && queue[..rear0] == old(queue[..rear0])
      ensures Sorting(g, queue[..rear], front, indeg[..], multiset{})
    {
      hide Sorting;
      rear := rear0;
      assert g[u][0..] == g[u];
      for i := 0 to |adj[u]|
        invariant rear0 <= rear <= n && queue[..rear0] == old(queue[..rear0])
        invariant Sorting(g, queue[..rear], front, indeg[..], multiset(g[u][i..]))
      {
        var v := adj[u][i];
        ghost var pending := multiset(g[u][i..]);
        assert g[u][i..] == [v] + g[u][i + 1..];
        assert multiset(g[u][i + 1..]) == pending - multiset{v};
        Room(g, queue[..rear], front, indeg[..], pending, v);
        ghost var q, d := queue[..rear], indeg[..];
        if indeg[v] == 1 {
          Enqueue(g, q, front, d, pending, v);
        } else {
          CountDown(g, q, front, d, pending, v);
        }
        indeg[v] := indeg[v] - 1;
        assert indeg[..] == d[v := d[v] - 1];
        if indeg[v] == 0 {
          queue[rear] := v;
          rear := rear + 1;
          assert queue[..rear] == q + [v];
        }
      }
    }

    /** Breadth-first search; fills `dist` and returns the largest finite distance. */
    method Bfs(start: nat, dist: array<int>) returns (maxDist: int)
      requires Shape() && start < n && dist.Length == n
      modifies dist
      ensures forall v: nat | v < n :: IsDistance(adj[..], start, v, dist[v])
      ensures exists v: nat :: v < n && dist[v] == maxDist
      ensures forall v: nat | v < n :: dist[v] <= maxDist
    {
      hide Searching;
      hide IsDistance;
      ghost var g := adj[..];
      var queue := new nat[n];
      forall v | 0 <= v < n {
        dist[v] := -1;
      }
      dist[start] := 0;
      queue[0] := start;
      var front, rear := 0, 1;
      maxDist := 0;
      SearchStart(g, start, queue[..rear], dist[..]);
      while front < rear
        invariant front <= rear <= n && adj[..] == g
        invariant Searching(g, start, queue[..rear], front, 0, dist[..], maxDist)
        decreases n - front
      {
        var u := queue[front];
        SearchTake(g, start, queue[..rear], front, 0, dist[..], maxDist);
        front := front + 1;
        rear, maxDist := Discover(g, start, u, dist, queue, front - 1, rear, maxDist);
        SearchAdvance(g, start, queue[..rear], front - 1, dist[..], maxDist);
      }
      SearchEnd(g, start, queue[..rear], dist[..], maxDist);
      assert dist[..][queue[..rear][rear - 1]] == maxDist;
      assert forall v: nat | v < n :: dist[v] == dist[..][v];
    }

    /** The inner loop: gives the neighbours of u that have no distance yet one more than u's. */
    method Discover(ghost g: Adjacency, ghost start: nat, u: nat, dist: array<int>, queue: array<nat>,
                    ghost done: nat, rear0: nat, max0: int)
      returns (rear: nat, maxDist: int)
      requires adj.Length == n && g == adj[..] && WellFormed(g) && u < n
      requires dist.Length == n && queue.Length == n && done < rear0 <= n && queue[done] == u
      requires Searching(g, start, queue[..rear0], done, 0, dist[..], max0)
      modifies dist, queue
      ensures rear0 <= rear <= n && queue[..rear0] == old(queue[..rear0])
      ensures Searching(g, start, queue[..rear], done, |g[u]|, dist[..], maxDist)
    {
      hide Searching;
      rear, maxDist := rear0, max0;
      for i := 0 to |adj[u]|
        invariant rear0 <= rear <= n && queue[..rear0] == old(queue[..rear0])
        invariant Searching(g, start, queue[..rear], done, i, dist[..], maxDist)
      {
        var v := adj[u][i];
        assert v == g[u][i];
        ghost var q, d := queue[..rear], dist[..];
        assert q[done] == u;
        if dist[v] == -1 {
          SearchNew(g, start, q, done, i, d, maxDist);
          dist[v] := dist[u] + 1;
          if dist[v] > maxDist {
            maxDist := dist[v];
          }
          queue[rear] := v;
          rear := rear + 1;
          assert queue[..rear] == q + [v] && dist[..] == d[v := d[u] + 1];
        } else {
          SearchSeen(g, start, q, done, i, d, maxDist);
        }
      }
    }

    method HasCycle() returns (b: bool)
      requires Valid()
      ensures b <==> !Acyclic(adj[..])
    {
      var count := TopoSort(null);
      b := count < n;
    }

    method CanFinish() returns (b: bool)
      requires Valid()
      ensures b <==> Acyclic(adj[..])
    {
      var count := TopoSort(null);
      b := count == n;
    }
  }
}

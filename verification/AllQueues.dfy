/** Every queue of the kernel, ready and wait queues alike, threaded through the
    single `next` link of one pool of control blocks. */
module AllQueues {
  import opened Sequences
  import opened TaskData
  import opened TaskLists

  /** The `next` link of every task. */
  ghost function NextsOf(pool: seq<Tcb>): (n: seq<Tcb?>)
    reads pool`next
    ensures |n| == |pool| && forall i | 0 <= i < |pool| :: n[i] == pool[i].next
  {
    if pool == [] then [] else NextsOf(pool[..|pool| - 1]) + [pool[|pool| - 1].next]
  }

  /** The list head and ids are intact under the given links. */
  ghost predicate LinkedBy(pool: seq<Tcb>, nexts: seq<Tcb?>, head: Tcb?, ids: seq<nat>) {
    && IsPool(pool) && |nexts| == |pool| && Distinct(ids) && Below(ids, |pool|)
    && head == Node(pool, ids, 0)
    && forall k: nat | k < |ids| :: nexts[ids[k]] == Node(pool, ids, k + 1)
  }

  lemma LinkedIsLinkedBy(pool: seq<Tcb>, head: Tcb?, ids: seq<nat>)
    ensures Linked(pool, head, ids) <==> LinkedBy(pool, NextsOf(pool), head, ids)
  {
    if Distinct(ids) && Below(ids, |pool|) && IsPool(pool) {
      NodesDistinct(pool, ids);
      if LinkedBy(pool, NextsOf(pool), head, ids) {
        forall k: nat | k < |ids|
          ensures Node(pool, ids, k).next == Node(pool, ids, k + 1)
        {
          assert NextsOf(pool)[ids[k]] == pool[ids[k]].next;
        }
      }
      if Linked(pool, head, ids) {
        forall k: nat | k < |ids|
          ensures NextsOf(pool)[ids[k]] == Node(pool, ids, k + 1)
        {
          assert Node(pool, ids, k).next == Node(pool, ids, k + 1);
        }
      }
    }
  }

  /** A list stays intact when the links of its members do. */
  lemma LinkedByKept(pool: seq<Tcb>, n: seq<Tcb?>, n': seq<Tcb?>, head: Tcb?, ids: seq<nat>)
    requires LinkedBy(pool, n, head, ids) && |n'| == |n|
    requires forall i | i in ids :: i < |n| && n[i] == n'[i]
    ensures LinkedBy(pool, n', head, ids)
  {
  }

  class AllQueues {
    const queues: seq<TaskQueue>

    /** The queues are intact lists, and no task is in two of them. */
    ghost predicate Valid(pool: seq<Tcb>)
      reads queues, pool`next
    {
      && (forall p, q | 0 <= p < q < |queues| :: queues[p] != queues[q])
      && (forall p | 0 <= p < |queues| :: queues[p].Valid(pool))
      && Disjoint(Ids())
    }

    ghost function Ids(): (ids: seq<seq<nat>>)
      reads queues
      ensures |ids| == |queues|
    {
      seq(|queues|, p requires 0 <= p < |queues| reads queues => queues[p].ids)
    }

    lemma IdsAt(t: nat)
      ensures forall p | 0 <= p < |queues| :: Ids()[p] == queues[p].ids
      ensures Listed(Ids(), t) <==> exists p :: 0 <= p < |queues| && t in queues[p].ids
    {
      if p :| 0 <= p < |queues| && t in queues[p].ids {
        assert t in Ids()[p];
      }
    }

    /** After a change of queue k, the other queues are intact if their members' links are. */
    lemma OthersValid(pool: seq<Tcb>, k: nat, n: seq<Tcb?>)
      requires IsPool(pool) && |n| == |pool|
      requires forall p | 0 <= p < |queues| && p != k :: LinkedBy(pool, n, queues[p].head, queues[p].ids)
      requires forall p, i | 0 <= p < |queues| && p != k && i in queues[p].ids :: i < |n| && n[i] == pool[i].next
      ensures forall p | 0 <= p < |queues| && p != k :: queues[p].Valid(pool)
    {
      forall p | 0 <= p < |queues| && p != k
        ensures queues[p].Valid(pool)
      {
        LinkedByKept(pool, n, NextsOf(pool), queues[p].head, queues[p].ids);
        LinkedIsLinkedBy(pool, queues[p].head, queues[p].ids);
      }
    }

    /** No other queue shares a member with queue k. */
    lemma OthersApart(k: nat)
      requires Disjoint(Ids()) && k < |queues|
      ensures forall p, i | 0 <= p < |queues| && p != k && i in queues[p].ids :: i !in queues[k].ids && Listed(Ids(), i)
    {
      assert Ids()[k] == queues[k].ids;
      forall p, i | 0 <= p < |queues| && p != k && i in queues[p].ids
        ensures i !in queues[k].ids && Listed(Ids(), i)
      {
        assert i in Ids()[p];
      }
    }

    lemma ValidLinkedBy(pool: seq<Tcb>)
      requires Valid(pool) && |queues| > 0
      ensures IsPool(pool)
      ensures forall p | 0 <= p < |queues| :: LinkedBy(pool, NextsOf(pool), queues[p].head, queues[p].ids)
      ensures forall p, i | 0 <= p < |queues| && i in queues[p].ids :: i < |pool|
    {
      assert queues[0].Valid(pool);
      forall p | 0 <= p < |queues|
        ensures LinkedBy(pool, NextsOf(pool), queues[p].head, queues[p].ids)
      {
        LinkedIsLinkedBy(pool, queues[p].head, queues[p].ids);
      }
    }

    constructor (pool: seq<Tcb>, count: nat)
      requires IsPool(pool)
      ensures fresh(queues) && |queues| == count && Valid(pool)
      ensures forall p | 0 <= p < count :: Ids()[p] == []
    {
      var qs: seq<TaskQueue> := [];
      while |qs| < count
        invariant |qs| <= count && fresh(qs)
        invariant forall p | 0 <= p < |qs| :: qs[p].head == null && qs[p].ids == []
        invariant forall p, q | 0 <= p < q < |qs| :: qs[p] != qs[q]
      {
        var q := new TaskQueue();
        qs := qs + [q];
      }
      queues := qs;
    }

    /** A new task at the end of the pool disturbs no list. */
    lemma ValidInLargerPool(pool: seq<Tcb>, t: Tcb)
      requires Valid(pool) && IsPool(pool + [t])
      ensures Valid(pool + [t])
    {
      forall p | 0 <= p < |queues|
        ensures queues[p].Valid(pool + [t])
      {
        var ids := queues[p].ids;
        assert queues[p].Valid(pool);
        forall k: nat
          ensures Node(pool + [t], ids, k) == Node(pool, ids, k)
        {
        }
      }
    }

    method Append(pool: seq<Tcb>, k: nat, t: Tcb)
      requires Valid(pool) && k < |queues| && t in pool && !Listed(Ids(), t.id)
      modifies queues, pool`next
      ensures Valid(pool) && Ids() == old(Ids())[k := old(Ids())[k] + [t.id]]
    {
      hide Linked;
      hide LinkedBy;
      hide Disjoint;
      hide Listed;
      IdsAt(t.id);
      ghost var n := NextsOf(pool);
      ValidLinkedBy(pool);
      OthersApart(k);
      DisjointAfter(Ids(), k, Ids()[k] + [t.id], t.id);
      queues[k].Append(pool, t);
      OthersValid(pool, k, n);
      assert Ids() == old(Ids())[k := old(Ids())[k] + [t.id]];
    }

    method Remove(pool: seq<Tcb>, k: nat, t: Tcb) returns (found: bool)
      requires Valid(pool) && k < |queues| && t in pool
      modifies queues, pool`next
      ensures Valid(pool) && Ids() == old(Ids())[k := Without(old(Ids())[k], t.id)]
      ensures found <==> t.id in old(Ids())[k]
    {
      hide Linked;
      hide LinkedBy;
      hide Disjoint;
      hide Listed;
      hide Without;
      IdsAt(t.id);
      ghost var n := NextsOf(pool);
      ValidLinkedBy(pool);
      OthersApart(k);
      WithoutMembers(queues[k].ids, t.id);
      DisjointAfter(Ids(), k, Without(Ids()[k], t.id), t.id);
      found := queues[k].Remove(pool, t);
      OthersValid(pool, k, n);
      assert Ids() == old(Ids())[k := Without(old(Ids())[k], t.id)];
    }

    method AddByPriority(pool: seq<Tcb>, k: nat, t: Tcb)
      requires Valid(pool) && k < |queues| && t in pool && !Listed(Ids(), t.id)
      modifies queues, pool`next
      ensures Valid(pool) && Below(old(Ids())[k], |pool|) && t.id < |pool|
      ensures Ids() == old(Ids())[k := InsertByPriority(Priorities(pool), old(Ids())[k], t.id)]
    {
      hide Linked;
      hide LinkedBy;
      hide Disjoint;
      hide Listed;
      hide InsertByPriority;
      IdsAt(t.id);
      ghost var n, prio, ids := NextsOf(pool), Priorities(pool), queues[k].ids;
      ValidLinkedBy(pool);
      OthersApart(k);
      assert pool[t.id] == t && forall i | 0 <= i < |ids| :: ids[i] in ids;
      InsertByPriorityMembers(prio, ids, t.id);
      DisjointAfter(Ids(), k, InsertByPriority(prio, ids, t.id), t.id);
      queues[k].AddByPriority(pool, t);
      OthersValid(pool, k, n);
      assert Ids() == old(Ids())[k := InsertByPriority(prio, ids, t.id)];
    }

    method Pop(pool: seq<Tcb>, k: nat) returns (t: Tcb?)
      requires Valid(pool) && k < |queues|
      modifies queues, pool`next
      ensures Valid(pool)
      ensures if old(Ids())[k] == [] then t == null && Ids() == old(Ids())
              else t != null && t in pool && t.id == old(Ids())[k][0] && Ids() == old(Ids())[k := old(Ids())[k][1..]]
    {
      hide Linked;
      hide LinkedBy;
      hide Disjoint;
      hide Listed;
      IdsAt(0);
      ghost var n, ids := NextsOf(pool), queues[k].ids;
      ValidLinkedBy(pool);
      OthersApart(k);
      DisjointAfter(Ids(), k, if ids == [] then [] else ids[1..], 0);
      t := queues[k].Pop(pool);
      OthersValid(pool, k, n);
      assert Ids() == old(Ids())[k := if ids == [] then [] else ids[1..]];
    }
  }
}

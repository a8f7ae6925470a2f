/** Task control blocks and the intrusive singly linked lists the kernel threads through them. */
module TaskLists {
  import opened Sequences
  import opened TaskData

  class Tcb {
    const id: nat              // position in the task pool
    const affinityMask: nat
    var priority: nat
    var basePriority: nat
    var state: TaskState
    var wakeReason: WakeReason
    var next: Tcb?             // ready queue or wait queue link
    var wakeTick: nat
    var delayNext: Tcb?        // delay list link

    constructor (id: nat, priority: nat, affinityMask: nat)
      ensures this.id == id && this.affinityMask == affinityMask
      ensures this.priority == priority && basePriority == priority
      ensures state == READY && wakeReason == NONE && next == null && delayNext == null
    {
      this.id := id;
      this.affinityMask := affinityMask;
      this.priority := priority;
      basePriority := priority;
      state := READY;
      wakeReason := NONE;
      next := null;
      wakeTick := 0;
      delayNext := null;
    }
  }

  ghost predicate IsPool(pool: seq<Tcb>) {
    forall i | 0 <= i < |pool| :: pool[i].id == i
  }

  /** The k-th node of the list of ids, or null past its end. */
  ghost function Node(pool: seq<Tcb>, ids: seq<nat>, k: nat): Tcb? {
    if k < |ids| && ids[k] < |pool| then pool[ids[k]] else null
  }

  /** Following `next` from head visits exactly the tasks listed in ids, in order. */
  ghost predicate Linked(pool: seq<Tcb>, head: Tcb?, ids: seq<nat>)
    reads pool`next
  {
    && IsPool(pool) && Distinct(ids) && Below(ids, |pool|)
    && head == Node(pool, ids, 0)
    && forall k: nat | k < |ids| :: Node(pool, ids, k).next == Node(pool, ids, k + 1)
  }

  lemma NodeAfterInsert(pool: seq<Tcb>, ids: seq<nat>, k: nat, t: nat, j: nat)
    requires k <= |ids| && t < |pool|
    ensures j < k ==> Node(pool, InsertAt(ids, k, t), j) == Node(pool, ids, j)
    ensures j == k ==> Node(pool, InsertAt(ids, k, t), j) == pool[t]
    ensures j > k ==> Node(pool, InsertAt(ids, k, t), j) == Node(pool, ids, j - 1)
  {
  }

  lemma NodeAfterDrop(pool: seq<Tcb>, ids: seq<nat>, k: nat, j: nat)
    requires k < |ids|
    ensures j < k ==> Node(pool, DropAt(ids, k), j) == Node(pool, ids, j)
    ensures j >= k ==> Node(pool, DropAt(ids, k), j) == Node(pool, ids, j + 1)
  {
  }

  /** Distinct ids are distinct nodes. */
  lemma NodesDistinct(pool: seq<Tcb>, ids: seq<nat>)
    requires IsPool(pool) && Distinct(ids) && Below(ids, |pool|)
    ensures forall i: nat, j: nat | i < |ids| && j < |ids| && i != j :: Node(pool, ids, i) != Node(pool, ids, j)
    ensures forall i: nat | i < |ids| :: Node(pool, ids, i) == pool[ids[i]] && pool[ids[i]].id == ids[i]
  {
  }

  class TaskQueue {
    var head: Tcb?
    ghost var ids: seq<nat>

    ghost predicate Valid(pool: seq<Tcb>)
      reads this, pool`next
    {
      Linked(pool, head, ids)
    }

    constructor ()
      ensures head == null && ids == []
    {
      head := null;
      ids := [];
    }

    /** Links t in behind the node `prev`, or at the head if prev is null. */
    method LinkAfter(pool: seq<Tcb>, prev: Tcb?, ghost k: nat, t: Tcb)
      requires Valid(pool) && k <= |ids|
      requires t in pool && t.id !in ids
      requires if k == 0 then prev == null else prev == Node(pool, ids, k - 1)
      modifies this, pool`next
      ensures Valid(pool) && ids == InsertAt(old(ids), k, t.id)
      ensures forall u | u in pool && u.id !in ids :: u.next == old(u.next)
    {
      NodesDistinct(pool, ids);
      InsertKeepsDistinct(ids, k, t.id, |pool|);
      assert pool[t.id] == t;
      hide Distinct;
      hide Below;
      hide InsertAt;
      if prev == null {
        t.next := head;
        head := t;
      } else {
        t.next := prev.next;
        prev.next := t;
      }
      ghost var before := ids;
      ids := InsertAt(ids, k, t.id);
      NodesDistinct(pool, ids);
      NodeAfterInsert(pool, before, k, t.id, 0);
      forall i: nat | i < |ids|
        ensures Node(pool, ids, i).next == Node(pool, ids, i + 1)
      {
        NodeAfterInsert(pool, before, k, t.id, i);
        NodeAfterInsert(pool, before, k, t.id, i + 1);
      }
    }

    /** Unlinks t, which follows `prev` (or is the head if prev is null). */
    method UnlinkAfter(pool: seq<Tcb>, prev: Tcb?, ghost k: nat, t: Tcb)
      requires Valid(pool) && k < |ids|
      requires t == Node(pool, ids, k)
      requires if k == 0 then prev == null else prev == Node(pool, ids, k - 1)
      modifies this, pool`next
      ensures Valid(pool) && ids == DropAt(old(ids), k)
      ensures t.next == null
      ensures forall u | u in pool && u.id !in old(ids) :: u.next == old(u.next)
    {
      NodesDistinct(pool, ids);
      DropKeepsDistinct(ids, k, |pool|);
      hide Distinct;
      hide Below;
      hide DropAt;
      if prev == null {
        head := t.next;
      } else {
        prev.next := t.next;
      }
      t.next := null;
      ghost var before := ids;
      ids := DropAt(ids, k);
      NodesDistinct(pool, ids);
      NodeAfterDrop(pool, before, k, 0);
      forall i: nat | i < |ids|
        ensures Node(pool, ids, i).next == Node(pool, ids, i + 1)
      {
        NodeAfterDrop(pool, before, k, i);
        NodeAfterDrop(pool, before, k, i + 1);
      }
    }

    /** Adds t at the end. */
    method Append(pool: seq<Tcb>, t: Tcb)
      requires Valid(pool) && t in pool && t.id !in ids
      modifies this, pool`next
      ensures Valid(pool) && ids == old(ids) + [t.id]
      ensures forall u | u in pool && u.id !in ids :: u.next == old(u.next)
    {
      NodesDistinct(pool, ids);
      var prev: Tcb?, cur := null, head;
      ghost var k := 0;
      while cur != null
        invariant Cursor(pool, prev, cur, k)
        decreases |ids| - k
      {
        prev, cur := cur, cur.next;
        k := k + 1;
      }
      assert k == |ids|;
      LinkAfter(pool, prev, k, t);
    }

    /** prev and cur are the nodes before and at position k. */
    ghost predicate Cursor(pool: seq<Tcb>, prev: Tcb?, cur: Tcb?, k: nat)
      reads this, pool`next
    {
      && Valid(pool) && k <= |ids|
      && cur == Node(pool, ids, k)
      && (if k == 0 then prev == null else prev == Node(pool, ids, k - 1))
    }

    /** Removes t if it is in the list. */
    method Remove(pool: seq<Tcb>, t: Tcb) returns (found: bool)
      requires Valid(pool) && t in pool
      modifies this, pool`next
      ensures Valid(pool) && ids == Without(old(ids), t.id)
      ensures found <==> t.id in old(ids)
      ensures found ==> t.next == null
      ensures forall u | u in pool && u.id !in old(ids) :: u.next == old(u.next)
    {
      NodesDistinct(pool, ids);
      var prev: Tcb?, cur := null, head;
      ghost var k := 0;
      while cur != null && cur != t
        invariant Cursor(pool, prev, cur, k)
        invariant t.id !in ids[..k]
        decreases |ids| - k
      {
        assert ids[..k + 1] == ids[..k] + [ids[k]];
        prev, cur := cur, cur.next;
        k := k + 1;
      }
      found := cur != null;
      if found {
        WithoutAt(ids, k);
        UnlinkAfter(pool, prev, k, t);
      } else {
        assert ids[..k] == ids;
        WithoutAbsent(ids, t.id);
      }
    }

    /** waitqueue_add: behind everything of at least its priority. */
    method AddByPriority(pool: seq<Tcb>, t: Tcb)
      requires Valid(pool) && t in pool && t.id !in ids
      modifies this, pool`next
      ensures Valid(pool) && ids == InsertByPriority(Priorities(pool), old(ids), t.id)
      ensures forall u | u in pool && u.id !in ids :: u.next == old(u.next)
    {
      NodesDistinct(pool, ids);
      ghost var prio := Priorities(pool);
      var prev: Tcb?, cur := null, head;
      ghost var k := 0;
      while cur != null && cur.priority >= t.priority
        invariant Cursor(pool, prev, cur, k)
        invariant forall i | 0 <= i < k :: prio[ids[i]] >= prio[t.id]
        decreases |ids| - k
      {
        prev, cur := cur, cur.next;
        k := k + 1;
      }
      InsertByPriorityAt(prio, ids, t.id, k);
      LinkAfter(pool, prev, k, t);
      InsertKeepsDistinct(old(ids), k, t.id, |pool|);
      assert Priorities(pool) == prio;
    }

    /** waitqueue_pop: the first task, or null. */
    method Pop(pool: seq<Tcb>) returns (t: Tcb?)
      requires Valid(pool)
      modifies this, pool`next
      ensures Valid(pool)
      ensures if old(ids) == [] then t == null && ids == []
              else t != null && t in pool && t.id == old(ids)[0] && ids == old(ids)[1..] && t.next == null
      ensures forall u | u in pool && u.id !in old(ids) :: u.next == old(u.next)
    {
      NodesDistinct(pool, ids);
      t := head;
      if t != null {
        UnlinkAfter(pool, null, 0, t);
      }
    }
  }

  /** The priorities of the tasks of a pool. */
  ghost function Priorities(pool: seq<Tcb>): (p: seq<nat>)
    reads pool`priority
    ensures |p| == |pool| && forall i | 0 <= i < |pool| :: p[i] == pool[i].priority
  {
    if pool == [] then [] else Priorities(pool[..|pool| - 1]) + [pool[|pool| - 1].priority]
  }
}

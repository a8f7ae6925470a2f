/** The delay list in memory, threaded through the control blocks' second link. */
module Delays {
  import opened Sequences
  import opened TaskData
  import opened TaskLists
  import DP = DelayProtocol
  import opened DelayProtocol

  /** Following `delayNext` from head visits exactly the tasks listed in ids, in order. */
  ghost predicate Chained(pool: seq<Tcb>, head: Tcb?, ids: seq<nat>)
    reads pool`delayNext
  {
    && IsPool(pool) && Distinct(ids) && Below(ids, |pool|)
    && head == Node(pool, ids, 0)
    && forall k: nat | k < |ids| :: Node(pool, ids, k).delayNext == Node(pool, ids, k + 1)
  }

  ghost function WakesOf(pool: seq<Tcb>): (w: seq<nat>)
    reads pool`wakeTick
    ensures |w| == |pool| && forall i | 0 <= i < |pool| :: w[i] == pool[i].wakeTick
  {
    if pool == [] then [] else WakesOf(pool[..|pool| - 1]) + [pool[|pool| - 1].wakeTick]
  }

  /** The listed tasks with their wake-up ticks. */
  function Listing(ids: seq<nat>, wakes: seq<nat>): (list: seq<Entry>)
    requires Below(ids, |wakes|)
    ensures |list| == |ids| && forall k | 0 <= k < |ids| :: list[k] == Entry(ids[k], wakes[ids[k]])
    ensures Tasks(list) == ids
  {
    seq(|ids|, k requires 0 <= k < |ids| => Entry(ids[k], wakes[ids[k]]))
  }

  lemma {:induction false} InsertPlace(list: seq<Entry>, e: Entry, k: nat)
    requires k <= |list| && forall i | 0 <= i < k :: list[i].wake <= e.wake
    requires k < |list| ==> list[k].wake > e.wake
    ensures Insert(list, e) == list[..k] + [e] + list[k..]
  {
    if k != 0 {
      InsertPlace(list[1..], e, k - 1);
      assert [list[0]] + (list[1..][..k - 1] + [e] + list[1..][k - 1..]) == list[..k] + [e] + list[k..];
    }
  }

  lemma {:induction false} RemovePlace(list: seq<Entry>, t: nat, k: nat)
    requires k <= |list| && forall i | 0 <= i < k :: list[i].task != t
    requires k < |list| ==> list[k].task == t
    ensures k == |list| ==> Remove(list, t) == list
    ensures k < |list| ==> Remove(list, t) == list[..k] + list[k + 1..]
  {
    if k != 0 {
      RemovePlace(list[1..], t, k - 1);
      if k < |list| {
        assert [list[0]] + (list[1..][..k - 1] + list[1..][k..]) == list[..k] + list[k + 1..];
      }
    }
  }

  lemma ListingAfterInsert(ids: seq<nat>, wakes: seq<nat>, k: nat, t: nat)
    requires Below(ids, |wakes|) && k <= |ids| && t < |wakes|
    ensures Below(InsertAt(ids, k, t), |wakes|)
    ensures Listing(InsertAt(ids, k, t), wakes) == Listing(ids, wakes)[..k] + [Entry(t, wakes[t])] + Listing(ids, wakes)[k..]
  {
  }

  lemma ListingAfterDrop(ids: seq<nat>, wakes: seq<nat>, k: nat)
    requires Below(ids, |wakes|) && k < |ids|
    ensures Below(DropAt(ids, k), |wakes|)
    ensures Listing(DropAt(ids, k), wakes) == Listing(ids, wakes)[..k] + Listing(ids, wakes)[k + 1..]
  {
  }

  class DelayList {
    var head: Tcb?
    ghost var ids: seq<nat>

    ghost predicate Valid(pool: seq<Tcb>)
      reads this, pool`delayNext
    {
      Chained(pool, head, ids)
    }

    ghost function Entries(pool: seq<Tcb>): seq<Entry>
      requires Valid(pool)
      reads this, pool`delayNext, pool`wakeTick
    {
      Listing(ids, WakesOf(pool))
    }

    constructor ()
      ensures head == null && ids == []
    {
      head := null;
      ids := [];
    }

    /** prev and cur are the tasks before and at position k. */
    ghost predicate Cursor(pool: seq<Tcb>, prev: Tcb?, cur: Tcb?, k: nat)
      reads this, pool`delayNext
    {
      && Valid(pool) && k <= |ids|
      && cur == Node(pool, ids, k)
      && (if k == 0 then prev == null else prev == Node(pool, ids, k - 1))
    }

    method LinkAfter(pool: seq<Tcb>, prev: Tcb?, cur: Tcb?, ghost k: nat, t: Tcb)
      requires Cursor(pool, prev, cur, k) && t in pool && t.id !in ids
      modifies this, pool`delayNext
      ensures Valid(pool) && ids == InsertAt(old(ids), k, t.id)
    {
      NodesDistinct(pool, ids);
      InsertKeepsDistinct(ids, k, t.id, |pool|);
      assert pool[t.id] == t;
      hide Distinct;
      hide Below;
      hide InsertAt;
      t.delayNext := cur;
      if prev == null {
        head := t;
      } else {
        prev.delayNext := t;
      }
      ghost var before := ids;
      ids := InsertAt(ids, k, t.id);
      NodesDistinct(pool, ids);
      NodeAfterInsert(pool, before, k, t.id, 0);
      forall i: nat | i < |ids|
        ensures Node(pool, ids, i).delayNext == Node(pool, ids, i + 1)
      {
        NodeAfterInsert(pool, before, k, t.id, i);
        NodeAfterInsert(pool, before, k, t.id, i + 1);
      }
    }

    method UnlinkAfter(pool: seq<Tcb>, prev: Tcb?, cur: Tcb, ghost k: nat)
      requires Cursor(pool, prev, cur, k) && k < |ids|
      modifies this, pool`delayNext
      ensures Valid(pool) && ids == DropAt(old(ids), k)
    {
      NodesDistinct(pool, ids);
      DropKeepsDistinct(ids, k, |pool|);
      hide Distinct;
      hide Below;
      hide DropAt;
      if prev == null {
        head := cur.delayNext;
      } else {
        prev.delayNext := cur.delayNext;
      }
      cur.delayNext := null;
      ghost var before := ids;
      ids := DropAt(ids, k);
      NodesDistinct(pool, ids);
      NodeAfterDrop(pool, before, k, 0);
      forall i: nat | i < |ids|
        ensures Node(pool, ids, i).delayNext == Node(pool, ids, i + 1)
      {
        NodeAfterDrop(pool, before, k, i);
        NodeAfterDrop(pool, before, k, i + 1);
      }
    }

    /** delay_add_locked. */
    method Add(pool: seq<Tcb>, t: Tcb, wakeTick: nat)
      requires Valid(pool) && t in pool && t.id !in ids
      modifies this, pool`delayNext, t`wakeTick, t`wakeReason
      ensures Valid(pool) && Entries(pool) == Insert(old(Entries(pool)), Entry(t.id, wakeTick))
      ensures t.wakeReason == NONE
    {
      ghost var list := Entries(pool);
      t.wakeTick := wakeTick;
      t.wakeReason := NONE;
      assert Entries(pool) == list;
      Place(pool, t, wakeTick);
    }

    /** The search and the linking of delay_add_locked. */
    method Place(pool: seq<Tcb>, t: Tcb, wakeTick: nat)
      requires Valid(pool) && t in pool && t.id !in ids && t.wakeTick == wakeTick
      modifies this, pool`delayNext
      ensures Valid(pool) && Entries(pool) == Insert(old(Entries(pool)), Entry(t.id, wakeTick))
    {
      ghost var list, wakes := Entries(pool), WakesOf(pool);
      NodesDistinct(pool, ids);
      var prev: Tcb?, cur := null, head;
      ghost var k := 0;
      while cur != null && cur.wakeTick <= wakeTick
        invariant Cursor(pool, prev, cur, k)
        invariant forall i | 0 <= i < k :: list[i].wake <= wakeTick
        decreases |ids| - k
      {
        prev, cur := cur, cur.delayNext;
        k := k + 1;
      }
      InsertPlace(list, Entry(t.id, wakeTick), k);
      ListingAfterInsert(ids, wakes, k, t.id);
      LinkAfter(pool, prev, cur, k, t);
      assert WakesOf(pool) == wakes;
    }

    /** delay_remove. */
    method Remove(pool: seq<Tcb>, t: Tcb)
      requires Valid(pool) && t in pool
      modifies this, pool`delayNext
      ensures Valid(pool) && Entries(pool) == DP.Remove(old(Entries(pool)), t.id)
    {
      ghost var list, wakes := Entries(pool), WakesOf(pool);
      NodesDistinct(pool, ids);
      var prev: Tcb?, cur := null, head;
      ghost var k := 0;
      while cur != null && cur != t
        invariant Cursor(pool, prev, cur, k)
        invariant forall i | 0 <= i < k :: list[i].task != t.id
        decreases |ids| - k
      {
        prev, cur := cur, cur.delayNext;
        k := k + 1;
      }
      RemovePlace(list, t.id, k);
      if cur != null {
        ListingAfterDrop(ids, wakes, k);
        UnlinkAfter(pool, prev, cur, k);
        assert WakesOf(pool) == wakes;
      }
    }

    /** Takes the first task off a list that is not empty. */
    method Pop(pool: seq<Tcb>) returns (t: Tcb)
      requires Valid(pool) && head != null
      modifies this, pool`delayNext
      ensures old(ids) != [] && t in pool && t == old(head) && t.id == old(ids)[0]
      ensures Valid(pool) && Entries(pool) == old(Entries(pool))[1..] && ids == old(ids)[1..]
    {
      NodesDistinct(pool, ids);
      ghost var wakes := WakesOf(pool);
      ListingAfterDrop(ids, wakes, 0);
      t := head;
      UnlinkAfter(pool, null, t, 0);
      assert WakesOf(pool) == wakes;
    }
  }
}

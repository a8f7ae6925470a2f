/** The system tick: tick_increment wakes the tasks whose delay is over, and
    delay_ticks puts the running task on the delay list. */
module Ticks {
  import opened Sequences
  import opened TaskData
  import opened TaskLists
  import Kernel
  import opened Scheduling
  import opened DelayProtocol
  import opened Delays

  ghost function ReasonsOf(pool: seq<Tcb>): (r: seq<WakeReason>)
    reads pool`wakeReason
    ensures |r| == |pool| && forall i | 0 <= i < |pool| :: r[i] == pool[i].wakeReason
  {
    if pool == [] then [] else ReasonsOf(pool[..|pool| - 1]) + [pool[|pool| - 1].wakeReason]
  }

  class SystemTick {
    const kernel: Kernel.Kernel
    const delays: DelayList
    var tick: nat

    ghost predicate Valid()
      reads this, kernel, kernel.lists.queues, kernel.pool`next, kernel.pool`delayNext, kernel.current, delays
    {
      kernel.Valid() && delays.Valid(kernel.pool)
    }

    /** What the list and the tick stand for. */
    ghost function View(): DelayProtocol.Delays
      requires delays.Valid(kernel.pool)
      reads this, kernel, kernel.pool`delayNext, kernel.pool`wakeTick, delays
    {
      DelayProtocol.Delays(delays.Entries(kernel.pool), tick)
    }

    /** No delayed task is in a ready or wait queue. */
    ghost predicate Apart()
      requires |kernel.lists.queues| >= MAX_PRIORITY
      reads kernel.lists.queues, delays
    {
      forall t | t in delays.ids :: !kernel.InList(t)
    }

    constructor (kernel: Kernel.Kernel, delays: DelayList)
      requires kernel.Valid() && delays.head == null && delays.ids == []
      ensures Valid() && this.kernel == kernel && this.delays == delays && View() == Delays([], 0)
    {
      this.kernel := kernel;
      this.delays := delays;
      tick := 0;
      new;
      assert delays.Entries(kernel.pool) == [];
    }

    /** Why each task last woke. */
    ghost function Reasons(): seq<WakeReason>
      reads kernel, kernel.pool`wakeReason
    {
      ReasonsOf(kernel.pool)
    }

    lemma ViewFits()
      requires Valid()
      ensures Shape(kernel.Model()) && Below(Tasks(View().list), |kernel.Model().states|)
      ensures Tasks(View().list) == delays.ids && View().tick == tick
    {
      kernel.ValidShape();
    }

    lemma HeadIsFirst()
      requires Valid()
      ensures delays.head == null <==> View().list == []
      ensures delays.head != null ==> delays.head.wakeTick == View().list[0].wake
    {
      NodesDistinct(kernel.pool, delays.ids);
    }

    // The steps on the list alone and on the kernel alone.

    method Unlist() returns (t: Tcb)
      requires Valid() && delays.head != null
      modifies delays, kernel.pool`delayNext
      ensures Valid() && old(delays.ids) != [] && t in kernel.pool && t == old(delays.head) && t.id == old(delays.ids)[0]
      ensures delays.ids == old(delays.ids)[1..] && View() == old(View()).(list := old(View()).list[1..])
      ensures kernel.Model() == old(kernel.Model()) && kernel.Waits() == old(kernel.Waits())
      ensures kernel.InList(t.id) == old(kernel.InList(t.id)) && Reasons() == old(Reasons())
    {
      t := delays.Pop(kernel.pool);
    }

    method List(t: Tcb, wakeTick: nat)
      requires Valid() && t in kernel.pool && t.id !in delays.ids
      modifies delays, kernel.pool`delayNext, t`wakeTick, t`wakeReason
      ensures Valid() && View() == old(View()).(list := Insert(old(View()).list, Entry(t.id, wakeTick)))
      ensures kernel.Model() == old(kernel.Model()) && kernel.Waits() == old(kernel.Waits())
      ensures t.wakeReason == NONE
    {
      delays.Add(kernel.pool, t, wakeTick);
    }

    method Ready(t: Tcb)
      requires Valid() && t in kernel.pool && !kernel.InList(t.id)
      modifies kernel.lists.queues, kernel.pool`next, t`state, t`wakeReason
      ensures Valid() && View() == old(View()) && kernel.Waits() == old(kernel.Waits())
      ensures Shape(old(kernel.Model())) && t.id < |old(kernel.Model()).states|
      ensures kernel.Model() == MakeReady(old(kernel.Model()), t.id)
      ensures t.id < |old(Reasons())| && Reasons() == old(Reasons())[t.id := TIMEOUT]
    {
      hide Kernel.Kernel.Valid;
      hide Kernel.Kernel.Model;
      hide Kernel.Kernel.Waits;
      hide Scheduling.MakeReady;
      hide Scheduling.Block;
      hide DelayList.Valid;
      hide DelayList.Entries;
      hide Listing;
      kernel.InPool(t);
      kernel.PoolIds();
      ghost var before := Reasons();
      kernel.Wake(t, TIMEOUT);
      assert Reasons() == before[t.id := TIMEOUT];
    }

    method Block(t: Tcb)
      requires Valid() && t in kernel.pool
      modifies kernel.lists.queues, kernel.pool`next, t`state
      ensures Valid() && View() == old(View()) && kernel.Waits() == old(kernel.Waits())
      ensures Shape(old(kernel.Model())) && t.id < |old(kernel.Model()).states|
      ensures kernel.Model() == Scheduling.Block(old(kernel.Model()), t.id)
    {
      hide Kernel.Kernel.Valid;
      hide Kernel.Kernel.Model;
      hide Kernel.Kernel.Waits;
      hide Scheduling.MakeReady;
      hide Scheduling.Block;
      hide DelayList.Valid;
      hide DelayList.Entries;
      hide Listing;
      kernel.Block(t);
    }

    /** One round of delay_check_wakeups: the first task is taken off and made ready. */
    method WakeOne()
      requires Valid() && Apart() && delays.head != null
      modifies delays, kernel.lists.queues, kernel.pool`next, kernel.pool`state, kernel.pool`wakeReason, kernel.pool`delayNext
      ensures Valid() && Apart() && kernel.Waits() == old(kernel.Waits())
      ensures Shape(old(kernel.Model())) && old(delays.ids) != [] && old(delays.ids)[0] < |old(kernel.Model()).states|
      ensures kernel.Model() == MakeReady(old(kernel.Model()), old(delays.ids)[0])
      ensures delays.ids == old(delays.ids)[1..] && View() == old(View()).(list := old(View()).list[1..])
      ensures old(delays.ids)[0] < |old(Reasons())| && Reasons() == old(Reasons())[old(delays.ids)[0] := TIMEOUT]
    {
      ghost var ids, s := delays.ids, kernel.Model();
      ApartMeans();
      hide Kernel.Kernel.Valid;
      hide Kernel.Kernel.Model;
      hide Kernel.Kernel.Waits;
      hide Kernel.Kernel.InList;
      hide Scheduling.MakeReady;
      hide View;
      hide Valid;
      hide Apart;
      hide ReasonsOf;
      var t := Unlist();
      Ready(t);
      StillApart(s, ids);
    }

    lemma ApartMeans()
      requires Valid()
      ensures Distinct(delays.ids)
      ensures Apart() <==> forall t | t in delays.ids :: !Listed(kernel.Model().ready, t) && !Listed(kernel.Waits(), t)
      ensures delays.head != null ==> delays.ids != [] && (Apart() ==> !kernel.InList(delays.ids[0]))
    {
    }

    /** Waking the first of ids queues none of the others. */
    lemma StillApart(s: Sched, ids: seq<nat>)
      requires Valid() && Shape(s) && ids != [] && Distinct(ids) && ids[0] < |s.states| && delays.ids == ids[1..]
      requires forall t | t in ids :: !Listed(s.ready, t) && !Listed(kernel.Waits(), t)
      requires kernel.Model() == MakeReady(s, ids[0])
      ensures Apart()
    {
      forall t | t in delays.ids
        ensures !Listed(kernel.Model().ready, t) && t in ids
      {
        var i :| 0 <= i < |ids[1..]| && ids[1..][i] == t;
        assert ids[i + 1] == t;
        if Listed(MakeReady(s, ids[0]).ready, t) {
          Kernel.MakeReadyQueuesNoOther(s, ids[0], t);
        }
      }
    }

    /** tick_increment. */
    method TickIncrement()
      requires Valid() && Apart()
      modifies this, delays, kernel.lists.queues, kernel.pool`next, kernel.pool`state, kernel.pool`wakeReason, kernel.pool`delayNext
      ensures Valid() && Apart() && kernel.Waits() == old(kernel.Waits())
      ensures Shape(old(kernel.Model())) && Below(Tasks(old(View()).list), |old(kernel.Model()).states|)
      ensures (kernel.Model(), View()) == Tick(old(kernel.Model()), old(View()))
      ensures Marked(old(Reasons()), old(delays.ids))
    {
      ViewFits();
      hide Kernel.Kernel.Valid;
      hide Kernel.Kernel.Model;
      hide Kernel.Kernel.Waits;
      hide Marked;
      hide ReasonsOf;
      hide Expire;
      Advance();
      CheckWakeups();
    }

    method Advance()
      requires Valid() && Apart()
      modifies this
      ensures Valid() && Apart() && View() == old(View()).(tick := old(View()).tick + 1)
      ensures kernel.Model() == old(kernel.Model()) && kernel.Waits() == old(kernel.Waits())
    {
      tick := tick + 1;
    }

    /** Exactly the tasks that have left the list since are marked as timed out. */
    ghost predicate Marked(reasons: seq<WakeReason>, ids: seq<nat>)
      reads this, delays, kernel, kernel.pool`wakeReason
    {
      && |Reasons()| == |reasons|
      && forall i | 0 <= i < |reasons| :: Reasons()[i] == if i in ids && i !in delays.ids then TIMEOUT else reasons[i]
    }

    lemma HeadLeaves(ids: seq<nat>)
      requires ids != [] && Distinct(ids) && delays.ids == ids[1..]
      ensures forall i :: i in ids <==> i == ids[0] || i in delays.ids
      ensures ids[0] !in delays.ids
    {
      assert ids == [ids[0]] + ids[1..];
    }

    /** delay_check_wakeups at the present tick. */
    method CheckWakeups()
      requires Valid() && Apart()
      modifies delays, kernel.lists.queues, kernel.pool`next, kernel.pool`state, kernel.pool`wakeReason, kernel.pool`delayNext
      ensures Valid() && Apart() && kernel.Waits() == old(kernel.Waits())
      ensures Shape(old(kernel.Model())) && Below(Tasks(old(View()).list), |old(kernel.Model()).states|)
      ensures (kernel.Model(), View()) == Expire(old(kernel.Model()), old(View()))
      ensures Marked(old(Reasons()), old(delays.ids))
    {
      hide Expire;
      hide Marked;
      hide Apart;
      hide Valid;
      hide View;
      hide Kernel.Kernel.Model;
      hide Kernel.Kernel.Waits;
      Unfold();
      ViewFits();
      StartMarked();
      ghost var s, view := kernel.Model(), View();
      while delays.head != null && delays.head.wakeTick <= tick
        invariant kernel.Valid() && delays.Valid(kernel.pool) && Valid() && Apart() && kernel.Waits() == old(kernel.Waits())
        invariant Shape(kernel.Model()) && Below(Tasks(View().list), |kernel.Model().states|)
        invariant Expire(kernel.Model(), View()) == Expire(s, view)
        invariant Marked(old(Reasons()), old(delays.ids)) && forall i | i in delays.ids :: i in old(delays.ids)
        decreases |delays.ids|
      {
        WakeRound(old(Reasons()), old(delays.ids));
        Unfold();
        ViewFits();
      }
      ExpireStops();
    }

    lemma Unfold()
      requires Valid()
      ensures kernel.Valid() && delays.Valid(kernel.pool) && |kernel.lists.queues| >= MAX_PRIORITY
    {
    }

    lemma StartMarked()
      ensures Marked(Reasons(), delays.ids)
    {
    }

    lemma ExpireStops()
      requires Valid() && !(delays.head != null && delays.head.wakeTick <= tick)
      requires Shape(kernel.Model()) && Below(Tasks(View().list), |kernel.Model().states|)
      ensures Expire(kernel.Model(), View()) == (kernel.Model(), View())
    {
      HeadIsFirst();
    }

    /** The round of the loop that takes off a due head. */
    method WakeRound(ghost reasons: seq<WakeReason>, ghost all: seq<nat>)
      requires Valid() && Apart() && delays.head != null && delays.head.wakeTick <= tick
      requires Marked(reasons, all) && forall i | i in delays.ids :: i in all
      modifies delays, kernel.lists.queues, kernel.pool`next, kernel.pool`state, kernel.pool`wakeReason, kernel.pool`delayNext
      ensures Valid() && Apart() && kernel.Waits() == old(kernel.Waits()) && |delays.ids| < old(|delays.ids|)
      ensures Shape(old(kernel.Model())) && Below(Tasks(old(View()).list), |old(kernel.Model()).states|)
      ensures Shape(kernel.Model()) && Below(Tasks(View().list), |kernel.Model().states|)
      ensures Expire(kernel.Model(), View()) == Expire(old(kernel.Model()), old(View()))
      ensures Marked(reasons, all) && forall i | i in delays.ids :: i in all
    {
      hide Kernel.Kernel.Valid;
      hide Kernel.Kernel.Model;
      hide Kernel.Kernel.Waits;
      hide Scheduling.MakeReady;
      hide View;
      hide Valid;
      hide Apart;
      hide Shape;
      hide ReasonsOf;
      Unfold();
      ViewFits();
      HeadIsFirst();
      ApartMeans();
      ghost var ids := delays.ids;
      WakeOne();
      Unfold();
      ViewFits();
      HeadLeaves(ids);
    }

    /** delay_ticks by the running task t, up to its yield. */
    method DelayTicks(t: Tcb, ticks: nat)
      requires Valid() && t in kernel.pool && (ticks > 0 ==> t.id !in delays.ids)
      modifies delays, kernel.lists.queues, kernel.pool
      ensures Valid() && kernel.Waits() == old(kernel.Waits())
      ensures Shape(old(kernel.Model())) && t.id < |old(kernel.Model()).states|
      ensures kernel.Model() == Delay(old(kernel.Model()), old(View()), t.id, ticks).0
      ensures View() == Delay(old(kernel.Model()), old(View()), t.id, ticks).1
      ensures ticks > 0 ==> t.wakeReason == NONE
    {
      hide Shape;
      hide Kernel.Kernel.Valid;
      hide Kernel.Kernel.Model;
      hide Kernel.Kernel.Waits;
      hide Valid;
      hide View;
      hide Insert;
      hide Scheduling.Block;
      hide DelayList.Valid;
      hide IsPool;
      Fits(t);
      if ticks > 0 {
        ListAndBlock(t, tick + ticks);
      }
    }

    lemma Fits(t: Tcb)
      requires Valid() && t in kernel.pool
      ensures Shape(kernel.Model()) && t.id < |kernel.Model().states| && View().tick == tick
    {
      ViewFits();
      kernel.InPool(t);
    }

    method ListAndBlock(t: Tcb, wakeTick: nat)
      requires Valid() && t in kernel.pool && t.id !in delays.ids
      modifies delays, kernel.lists.queues, kernel.pool
      ensures Valid() && kernel.Waits() == old(kernel.Waits())
      ensures Shape(old(kernel.Model())) && t.id < |old(kernel.Model()).states|
      ensures kernel.Model() == Scheduling.Block(old(kernel.Model()), t.id)
      ensures View() == old(View()).(list := Insert(old(View()).list, Entry(t.id, wakeTick)))
      ensures t.wakeReason == NONE
    {
      hide Kernel.Kernel.Valid;
      hide Kernel.Kernel.Model;
      hide Kernel.Kernel.Waits;
      hide Scheduling.Block;
      hide Valid;
      hide View;
      hide Insert;
      List(t, wakeTick);
      Block(t);
    }

    /** delay_remove. */
    method DelayRemove(t: Tcb)
      requires Valid() && t in kernel.pool
      modifies delays, kernel.pool`delayNext
      ensures Valid() && kernel.Model() == old(kernel.Model()) && kernel.Waits() == old(kernel.Waits())
      ensures View().list == Remove(old(View()).list, t.id) && View().tick == old(View()).tick
    {
      delays.Remove(kernel.pool, t);
    }
  }
}

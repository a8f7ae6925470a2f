/** The mutex in memory: an owner, a lock count and one of the kernel's wait
    queues, with mutex_lock and mutex_unlock refining the protocol's steps. */
module Mutexes {
  import opened Sequences
  import opened TaskData
  import opened TaskLists
  import Kernel
  import opened Scheduling
  import opened WaitOrder
  import opened MutexProtocol

  class Mutex {
    const kernel: Kernel.Kernel
    const queue: nat            // which of the kernel's wait queues it uses
    var owner: Tcb?
    var lockCount: nat
    ghost var view: MutexProtocol.Mutex   // what the fields and the wait queue stand for

    ghost predicate Valid()
      reads this, kernel, kernel.lists.queues, kernel.pool`next, kernel.current
    {
      && kernel.Valid() && queue < |kernel.Waits()|
      && (owner != null ==> owner in kernel.pool)
      && lockCount < COUNT_RANGE
      && view == MutexProtocol.Mutex(OwnerId(owner), lockCount, kernel.Waits()[queue])
    }

    static ghost function OwnerId(owner: Tcb?): int {
      if owner == null then -1 else owner.id
    }

    /** mutex_init. */
    constructor (kernel: Kernel.Kernel, queue: nat)
      requires kernel.Valid() && queue < |kernel.Waits()| && kernel.Waits()[queue] == []
      ensures Valid() && this.kernel == kernel && this.queue == queue && view == FREE
    {
      this.kernel := kernel;
      this.queue := queue;
      owner := null;
      lockCount := 0;
      view := FREE;
    }

    lemma ViewFits(t: Tcb)
      requires Valid() && t in kernel.pool
      ensures Fits(kernel.Model(), view, t.id)
      ensures t.priority == kernel.Model().prio[t.id] && t.basePriority == kernel.Model().base[t.id]
      ensures owner != null && owner != t ==> owner.id != t.id && view.owner == owner.id != -1
      ensures view.owner == t.id <==> owner == t
      ensures kernel.Waits()[queue := view.waiters] == kernel.Waits()
    {
      kernel.ValidShape();
      kernel.InPool(t);
      if owner != null {
        kernel.InPool(owner);
      }
      kernel.WaitersBelow(queue);
    }

    lemma Unfold()
      requires Valid()
      ensures |kernel.lists.queues| >= MAX_PRIORITY
      ensures kernel.Valid() && queue < |kernel.Waits()| && (owner != null ==> owner in kernel.pool) && lockCount < COUNT_RANGE
      ensures view == MutexProtocol.Mutex(OwnerId(owner), lockCount, kernel.Waits()[queue])
    {
    }

    /** Writes the two fields. */
    method Assign(owner: Tcb?, lockCount: nat)
      requires kernel.Valid() && queue < |kernel.Waits()|
      requires (owner != null ==> owner in kernel.pool) && lockCount < COUNT_RANGE
      modifies this
      ensures Valid() && this.owner == owner && this.lockCount == lockCount
      ensures view == MutexProtocol.Mutex(OwnerId(owner), lockCount, kernel.Waits()[queue])
      ensures kernel.Model() == old(kernel.Model()) && kernel.Waits() == old(kernel.Waits())
    {
      this.owner := owner;
      this.lockCount := lockCount;
      view := MutexProtocol.Mutex(OwnerId(owner), lockCount, kernel.Waits()[queue]);
    }

    /** mutex_lock by the task running on the core, up to its yield. A caller that
        has to wait is in no queue, and a ready owner is in no wait queue. */
    method Lock(core: nat, wait: bool) returns (outcome: Outcome)
      requires Valid() && core < kernel.current.Length && kernel.current[core] != null
      requires owner != null && owner != kernel.current[core] && wait ==>
                 && !kernel.InList(kernel.current[core].id)
                 && (owner.state == READY ==> !Listed(kernel.Waits(), owner.id))
      modifies this, kernel.lists.queues, kernel.pool
      ensures Valid() && Fits(old(kernel.Model()), old(view), kernel.current[core].id)
      ensures outcome == LockOutcome(old(view), kernel.current[core].id, wait)
      ensures outcome == TAKEN <==> old(owner) == null || old(owner) == kernel.current[core]
      ensures outcome == REFUSED <==> old(owner) != null && old(owner) != kernel.current[core] && !wait
      ensures outcome == TAKEN ==> owner == kernel.current[core]
      ensures outcome != TAKEN ==> owner == old(owner) && lockCount == old(lockCount)
      ensures (kernel.Model(), view) == MutexProtocol.Lock(old(kernel.Model()), old(view), kernel.current[core].id, wait)
      ensures kernel.Waits() == old(kernel.Waits())[queue := view.waiters]
    {
      hide Kernel.Kernel.Valid;
      hide Kernel.Kernel.Model;
      hide Kernel.Kernel.Waits;
      hide Kernel.Kernel.InList;
      hide Fits;
      var t := kernel.current[core];
      kernel.CurrentInPool(core);
      ViewFits(t);
      if owner == t {
        Assign(t, (lockCount + 1) % COUNT_RANGE);
        outcome := TAKEN;
      } else if owner == null {
        Assign(t, 1);
        outcome := TAKEN;
      } else if !wait {
        outcome := REFUSED;
      } else {
        Wait(t);
        outcome := MUST_WAIT;
      }
    }

    /** In a run of the protocol, the executing task meets what Lock asks of the queues. */
    lemma RunsMayLock(r: Run)
      requires Valid() && kernel.Model() == r.sched && view == r.mutex && MutexInv(r) && Executes(r.sched)
      requires forall k, w | 0 <= k < |kernel.Waits()| && k != queue && w in kernel.Waits()[k] :: Kernel.Kernel.BlockedTask(r.sched, w)
      ensures kernel.current.Length == 1 && kernel.current[0] != null && kernel.current[0].id == Caller(r.sched)
      ensures !kernel.InList(kernel.current[0].id)
      ensures owner != null && owner.state == READY ==> !Listed(kernel.Waits(), owner.id)
    {
      kernel.CoreCount();
      kernel.CurrentInPool(0);
      kernel.InPool(kernel.current[0]);
      forall k, w | 0 <= k < |kernel.Waits()| && w in kernel.Waits()[k]
        ensures Kernel.Kernel.BlockedTask(r.sched, w)
      {
        if k == queue {
          var i :| 0 <= i < |view.waiters| && view.waiters[i] == w;
          assert IsWaiting(r.sched, r.since, r.clock, view.waiters[i]);
        }
      }
      kernel.QueueMembership(kernel.current[0]);
      if owner != null {
        kernel.QueueMembership(owner);
      }
    }

    /** The part of mutex_lock that boosts the owner and puts the caller to sleep. */
    method Wait(t: Tcb)
      requires Valid() && t in kernel.pool && owner != null && owner != t
      requires !kernel.InList(t.id) && (owner.state == READY ==> !Listed(kernel.Waits(), owner.id))
      modifies this, kernel.lists.queues, kernel.pool
      ensures Valid() && Fits(old(kernel.Model()), old(view), t.id)
      ensures kernel.Model() == MutexProtocol.Lock(old(kernel.Model()), old(view), t.id, true).0
      ensures view == MutexProtocol.Lock(old(kernel.Model()), old(view), t.id, true).1
      ensures kernel.Waits() == old(kernel.Waits())[queue := view.waiters]
      ensures owner == old(owner) && lockCount == old(lockCount)
    {
      hide Shape;
      hide Fits;
      hide Kernel.Kernel.Valid;
      hide Kernel.Kernel.Model;
      hide Kernel.Kernel.Waits;
      hide Kernel.Kernel.InList;
      hide Valid;
      hide InsertByPriority;
      hide MutexProtocol.Lock;
      hide Scheduling.Boost;
      hide Scheduling.Block;
      Unfold();
      ViewFits(t);
      LockByWaiting(kernel.Model(), view, t.id);
      ghost var b := kernel.BoostAndSleep(owner, t, queue);
      Assign(owner, lockCount);
    }

    /** mutex_unlock by the task running on the core. */
    method Unlock(core: nat)
      requires Valid() && core < kernel.current.Length && kernel.current[core] != null
      modifies this, kernel.lists.queues, kernel.pool
      ensures Valid() && Fits(old(kernel.Model()), old(view), kernel.current[core].id)
      ensures (kernel.Model(), view) == MutexProtocol.Unlock(old(kernel.Model()), old(view), kernel.current[core].id)
      ensures kernel.Waits() == old(kernel.Waits())[queue := view.waiters]
      ensures owner != null && owner != old(owner) ==> owner.wakeReason == SIGNALED
    {
      hide Kernel.Kernel.Valid;
      hide Kernel.Kernel.Model;
      hide Kernel.Kernel.Waits;
      hide Kernel.Kernel.InList;
      hide Fits;
      var t := kernel.current[core];
      kernel.CurrentInPool(core);
      ViewFits(t);
      if owner == t {
        if lockCount > 1 {
          Assign(t, lockCount - 1);
        } else {
          Release(t);
        }
      }
    }

    /** The last unlock: restores the caller's priority and wakes the first waiter, if any. */
    method Release(t: Tcb)
      requires Valid() && t in kernel.pool && owner == t && lockCount <= 1
      modifies this, kernel.lists.queues, kernel.pool
      ensures Valid() && Fits(old(kernel.Model()), old(view), t.id)
      ensures kernel.Model() == MutexProtocol.Unlock(old(kernel.Model()), old(view), t.id).0
      ensures view == MutexProtocol.Unlock(old(kernel.Model()), old(view), t.id).1
      ensures kernel.Waits() == old(kernel.Waits())[queue := view.waiters]
      ensures owner != null ==> owner.wakeReason == SIGNALED
    {
      hide Kernel.Kernel.Valid;
      hide Kernel.Kernel.Model;
      hide Kernel.Kernel.Waits;
      hide Kernel.Kernel.InList;
      hide Fits;
      hide Valid;
      hide MutexProtocol.Unlock;
      hide Scheduling.MakeReady;
      Unfold();
      ViewFits(t);
      UnlockLast(kernel.Model(), view, t.id);
      kernel.SetEffectivePriority(t, t.basePriority);
      var next := kernel.WakeFirst(queue);
      Assign(next, if next == null then 0 else 1);
    }
  }

  /** mutex_lock when the mutex is taken, spelt out. */
  lemma LockByWaiting(s: Sched, m: MutexProtocol.Mutex, t: nat)
    requires Fits(s, m, t) && m.owner != -1 && m.owner != t
    ensures var b := Boost(s, m.owner, s.prio[t]);
            && Shape(b) && Below(m.waiters, |b.prio|) && t < |b.prio| && t < |b.states|
            && MutexProtocol.Lock(s, m, t, true) == (Block(b, t), m.(waiters := InsertByPriority(b.prio, m.waiters, t)))
  {
    BoostShape(s, m.owner, s.prio[t]);
  }

  /** mutex_unlock of the outermost lock, spelt out. */
  lemma UnlockLast(s: Sched, m: MutexProtocol.Mutex, t: nat)
    requires Fits(s, m, t) && m.owner == t && m.count <= 1
    ensures var r := s.(prio := s.prio[t := s.base[t]]);
            && Shape(r)
            && (m.waiters == [] ==> MutexProtocol.Unlock(s, m, t) == (r, m.(owner := -1, count := 0)))
            && (m.waiters != [] ==> MutexProtocol.Unlock(s, m, t)
                                      == (MakeReady(r, m.waiters[0]), MutexProtocol.Mutex(m.waiters[0], 1, m.waiters[1..])))
  {
  }
}

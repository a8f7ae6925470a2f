/** The semaphore in memory: a count and one of the kernel's wait queues, with
    sem_wait and sem_signal refining the protocol's steps. */
module Semaphores {
  import opened Sequences
  import opened TaskData
  import opened TaskLists
  import Kernel
  import opened Scheduling
  import opened WaitOrder
  import opened SemaphoreProtocol

  class Semaphore {
    const kernel: Kernel.Kernel
    const queue: nat            // which of the kernel's wait queues it uses
    const maxCount: int
    var count: int
    ghost var view: SemaphoreProtocol.Semaphore   // what the fields and the wait queue stand for

    ghost predicate Valid()
      reads this, kernel, kernel.lists.queues, kernel.pool`next, kernel.current
    {
      && kernel.Valid() && queue < |kernel.Waits()|
      && view == SemaphoreProtocol.Semaphore(count, maxCount, kernel.Waits()[queue])
    }

    /** sem_init_counting; sem_init is the case of maxCount 1. */
    constructor (kernel: Kernel.Kernel, queue: nat, maxCount: int, initial: int)
      requires kernel.Valid() && queue < |kernel.Waits()| && kernel.Waits()[queue] == []
      ensures Valid() && this.kernel == kernel && this.queue == queue
      ensures view == SemaphoreProtocol.Semaphore(initial, maxCount, [])
    {
      this.kernel := kernel;
      this.queue := queue;
      this.maxCount := maxCount;
      count := initial;
      view := SemaphoreProtocol.Semaphore(initial, maxCount, []);
    }

    lemma ViewFits()
      requires Valid()
      ensures Shape(kernel.Model()) && Below(view.waiters, |kernel.Model().states|)
      ensures kernel.Waits()[queue := view.waiters] == kernel.Waits()
    {
      kernel.ValidShape();
      kernel.WaitersBelow(queue);
    }

    method Assign(count: int)
      requires kernel.Valid() && queue < |kernel.Waits()|
      modifies this
      ensures Valid() && view == SemaphoreProtocol.Semaphore(count, maxCount, kernel.Waits()[queue])
      ensures kernel.Model() == old(kernel.Model()) && kernel.Waits() == old(kernel.Waits())
    {
      this.count := count;
      view := SemaphoreProtocol.Semaphore(count, maxCount, kernel.Waits()[queue]);
    }

    /** sem_wait by the task running on the core, up to its yield. A caller that
        has to wait is in no queue. */
    method Wait(core: nat, wait: bool) returns (outcome: Outcome)
      requires Valid() && core < kernel.current.Length && kernel.current[core] != null
      requires count <= 0 && wait ==> !kernel.InList(kernel.current[core].id)
      modifies this, kernel.lists.queues, kernel.pool`next, kernel.pool`state
      ensures Valid() && Fits(old(kernel.Model()), old(view), kernel.current[core].id)
      ensures outcome == WaitOutcome(old(view), wait)
      ensures outcome == TAKEN <==> old(count) > 0
      ensures outcome == REFUSED <==> old(count) <= 0 && !wait
      ensures count == old(count) - if outcome == TAKEN then 1 else 0
      ensures (kernel.Model(), view) == SemaphoreProtocol.Wait(old(kernel.Model()), old(view), kernel.current[core].id, wait)
      ensures kernel.Waits() == old(kernel.Waits())[queue := view.waiters]
    {
      hide Kernel.Kernel.Valid;
      hide Kernel.Kernel.Model;
      hide Kernel.Kernel.Waits;
      hide Kernel.Kernel.InList;
      hide Shape;
      hide Scheduling.Block;
      var t := kernel.current[core];
      ViewFits();
      kernel.CurrentInPool(core);
      kernel.InPool(t);
      kernel.CoreCount();
      if count > 0 {
        Assign(count - 1);
        outcome := TAKEN;
      } else if !wait {
        outcome := REFUSED;
      } else {
        Join(t);
        outcome := MUST_WAIT;
      }
    }

    /** In a run of the protocol, the executing task meets what Wait asks of the queues. */
    lemma RunsMayWait(initial: int, r: Run)
      requires Valid() && kernel.Model() == r.sched && view == r.sem
      requires SemaphoreInv(maxCount, initial, r) && Executes(r.sched)
      requires forall k, w | 0 <= k < |kernel.Waits()| && k != queue && w in kernel.Waits()[k] :: Kernel.Kernel.BlockedTask(r.sched, w)
      ensures kernel.current.Length == 1 && kernel.current[0] != null && kernel.current[0].id == Caller(r.sched)
      ensures !kernel.InList(kernel.current[0].id)
    {
      kernel.CoreCount();
      kernel.CurrentInPool(0);
      kernel.InPool(kernel.current[0]);
      forall k, w | 0 <= k < |kernel.Waits()| && w in kernel.Waits()[k]
        ensures Kernel.Kernel.BlockedTask(r.sched, w)
      {
        if k == queue {
          var i :| 0 <= i < |view.waiters| && view.waiters[i] == w;
          assert IsWaiting(r.sched, r.since, r.clock, view.waiters[i]);
        }
      }
      kernel.QueueMembership(kernel.current[0]);
    }

    /** The part of sem_wait that puts the caller to sleep. */
    method Join(t: Tcb)
      requires Valid() && t in kernel.pool && !kernel.InList(t.id)
      modifies this, kernel.lists.queues, kernel.pool`next, t`state
      ensures Valid() && Fits(old(kernel.Model()), old(view), t.id)
      ensures kernel.Model() == Block(old(kernel.Model()), t.id)
      ensures view == old(view).(waiters := InsertByPriority(old(kernel.Model()).prio, old(view).waiters, t.id))
      ensures kernel.Waits() == old(kernel.Waits())[queue := view.waiters]
    {
      hide Kernel.Kernel.Valid;
      hide Kernel.Kernel.Model;
      hide Kernel.Kernel.Waits;
      hide Kernel.Kernel.InList;
      hide Shape;
      hide Scheduling.Block;
      ViewFits();
      kernel.InPool(t);
      kernel.Sleep(queue, t);
      Assign(count);
    }

    /** sem_signal. */
    method Signal()
      requires Valid()
      modifies this, kernel.lists.queues, kernel.pool`next, kernel.pool`state, kernel.pool`wakeReason
      ensures Valid() && Shape(old(kernel.Model())) && Below(old(view).waiters, |old(kernel.Model()).states|)
      ensures (kernel.Model(), view) == SemaphoreProtocol.Signal(old(kernel.Model()), old(view))
      ensures kernel.Waits() == old(kernel.Waits())[queue := view.waiters]
      ensures forall u | u in kernel.pool && old(view).waiters != [] && u.id == old(view).waiters[0] :: u.wakeReason == SIGNALED
    {
      hide Kernel.Kernel.Valid;
      hide Kernel.Kernel.Model;
      hide Kernel.Kernel.Waits;
      hide Shape;
      hide Scheduling.MakeReady;
      ViewFits();
      var task := kernel.WakeFirst(queue);
      if task != null {
        Assign(count);
        kernel.SameTask(task);
      } else if count < maxCount {
        Assign(count + 1);
      }
    }
  }
}

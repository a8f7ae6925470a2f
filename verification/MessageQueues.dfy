/** The message queue's non-blocking calls: each successful one wakes the first
    task waiting for the opposite operation. */
module MessageQueues {
  import opened Sequences
  import opened TaskData
  import opened TaskLists
  import Kernel
  import opened Scheduling
  import opened RingBuffer

  /** The scheduler state after the first of the waiters, if any, is woken. */
  function WakeHead(s: Sched, waiters: seq<nat>): Sched
    requires Shape(s) && Below(waiters, |s.states|)
  {
    if waiters == [] then s else MakeReady(s, waiters[0])
  }

  function Rest(waiters: seq<nat>): seq<nat> {
    if waiters == [] then [] else waiters[1..]
  }

  class MessageQueue {
    const kernel: Kernel.Kernel
    const ring: Ring
    const senders: nat          // the wait queue of blocked senders
    const receivers: nat        // the wait queue of blocked receivers

    ghost predicate Valid()
      reads this, ring, kernel, kernel.lists.queues, kernel.pool`next, kernel.current
    {
      ring.Valid() && kernel.Valid() && senders < |kernel.Waits()| && receivers < |kernel.Waits()|
    }

    /** The first of the waiters, if any, knows that it was signalled. */
    ghost predicate Signalled(waiters: seq<nat>)
      reads this, kernel, kernel.pool`wakeReason
    {
      waiters != [] ==> forall u | u in kernel.pool && u.id == waiters[0] :: u.wakeReason == SIGNALED
    }

    constructor (kernel: Kernel.Kernel, ring: Ring, senders: nat, receivers: nat)
      requires ring.Valid() && kernel.Valid() && senders < |kernel.Waits()| && receivers < |kernel.Waits()|
      ensures Valid() && this.kernel == kernel && this.ring == ring && this.senders == senders && this.receivers == receivers
    {
      this.kernel := kernel;
      this.ring := ring;
      this.senders := senders;
      this.receivers := receivers;
    }

    /** Wakes the first task of a wait queue, if any. */
    method WakeOne(queue: nat)
      requires Valid() && queue < |kernel.Waits()|
      modifies kernel.lists.queues, kernel.pool
      ensures Valid() && Shape(old(kernel.Model())) && Below(old(kernel.Waits())[queue], |old(kernel.Model()).states|)
      ensures kernel.Model() == WakeHead(old(kernel.Model()), old(kernel.Waits())[queue])
      ensures kernel.Waits() == old(kernel.Waits())[queue := Rest(old(kernel.Waits())[queue])]
      ensures Signalled(old(kernel.Waits())[queue])
      ensures ring.Messages() == old(ring.Messages())
    {
      WaitersFit(queue);
      ghost var w := kernel.Waits();
      assert w[queue := w[queue]] == w;
      hide Kernel.Kernel.Valid;
      hide Kernel.Kernel.Model;
      hide Kernel.Kernel.Waits;
      hide MakeReady;
      hide Shape;
      hide Ring.Valid;
      hide Ring.Messages;
      var task := kernel.WakeFirst(queue);
      if task != null {
        kernel.SameTask(task);
      }
    }

    // The steps on the ring leave the kernel alone.

    method Put(item: seq<Byte>) returns (ok: bool)
      requires Valid() && |item| == ring.itemSize
      modifies ring, ring.buffer
      ensures Valid() && (ok <==> old(|ring.Messages()|) < ring.capacity)
      ensures ring.Messages() == if ok then old(ring.Messages()) + [item] else old(ring.Messages())
      ensures kernel.Model() == old(kernel.Model()) && kernel.Waits() == old(kernel.Waits())
    {
      hide Kernel.Kernel.Valid;
      hide Kernel.Kernel.Model;
      hide Kernel.Kernel.Waits;
      hide MakeReady;
      hide Shape;
      hide Ring.Valid;
      hide Ring.Messages;
      ok := ring.Send(item);
    }

    method PutFront(item: seq<Byte>) returns (ok: bool)
      requires Valid() && |item| == ring.itemSize
      modifies ring, ring.buffer
      ensures Valid() && (ok <==> old(|ring.Messages()|) < ring.capacity)
      ensures ring.Messages() == if ok then [item] + old(ring.Messages()) else old(ring.Messages())
      ensures kernel.Model() == old(kernel.Model()) && kernel.Waits() == old(kernel.Waits())
    {
      hide Kernel.Kernel.Valid;
      hide Kernel.Kernel.Model;
      hide Kernel.Kernel.Waits;
      hide MakeReady;
      hide Shape;
      hide Ring.Valid;
      hide Ring.Messages;
      ok := ring.SendFront(item);
    }

    method Take() returns (ok: bool, item: seq<Byte>)
      requires Valid()
      modifies ring
      ensures Valid() && (ok <==> old(ring.Messages()) != [])
      ensures ok ==> [item] + ring.Messages() == old(ring.Messages())
      ensures !ok ==> ring.Messages() == []
      ensures kernel.Model() == old(kernel.Model()) && kernel.Waits() == old(kernel.Waits())
    {
      hide Kernel.Kernel.Valid;
      hide Kernel.Kernel.Model;
      hide Kernel.Kernel.Waits;
      hide MakeReady;
      hide Shape;
      hide Ring.Valid;
      hide Ring.Messages;
      ok, item := ring.Receive();
    }

    /** queue_send without waiting. */
    method TrySend(item: seq<Byte>) returns (ok: bool)
      requires Valid() && |item| == ring.itemSize
      modifies ring, ring.buffer, kernel.lists.queues, kernel.pool
      ensures Valid() && Shape(old(kernel.Model())) && Below(old(kernel.Waits())[receivers], |old(kernel.Model()).states|)
      ensures ok <==> old(|ring.Messages()|) < ring.capacity
      ensures ring.Messages() == if ok then old(ring.Messages()) + [item] else old(ring.Messages())
      ensures kernel.Model() == if ok then WakeHead(old(kernel.Model()), old(kernel.Waits())[receivers]) else old(kernel.Model())
      ensures kernel.Waits() == if ok then old(kernel.Waits())[receivers := Rest(old(kernel.Waits())[receivers])] else old(kernel.Waits())
      ensures ok ==> Signalled(old(kernel.Waits())[receivers])
    {
      WaitersFit(receivers);
      hide Kernel.Kernel.Valid;
      hide Kernel.Kernel.Model;
      hide Kernel.Kernel.Waits;
      hide MakeReady;
      hide Shape;
      hide Ring.Valid;
      hide Ring.Messages;
      hide Valid;
      hide WakeHead;
      hide Signalled;
      ok := Put(item);
      if ok {
        WakeOne(receivers);
      }
    }

    /** queue_send_front without waiting. */
    method TrySendFront(item: seq<Byte>) returns (ok: bool)
      requires Valid() && |item| == ring.itemSize
      modifies ring, ring.buffer, kernel.lists.queues, kernel.pool
      ensures Valid() && Shape(old(kernel.Model())) && Below(old(kernel.Waits())[receivers], |old(kernel.Model()).states|)
      ensures ok <==> old(|ring.Messages()|) < ring.capacity
      ensures ring.Messages() == if ok then [item] + old(ring.Messages()) else old(ring.Messages())
      ensures kernel.Model() == if ok then WakeHead(old(kernel.Model()), old(kernel.Waits())[receivers]) else old(kernel.Model())
      ensures kernel.Waits() == if ok then old(kernel.Waits())[receivers := Rest(old(kernel.Waits())[receivers])] else old(kernel.Waits())
      ensures ok ==> Signalled(old(kernel.Waits())[receivers])
    {
      WaitersFit(receivers);
      hide Kernel.Kernel.Valid;
      hide Kernel.Kernel.Model;
      hide Kernel.Kernel.Waits;
      hide MakeReady;
      hide Shape;
      hide Ring.Valid;
      hide Ring.Messages;
      hide Valid;
      hide WakeHead;
      hide Signalled;
      ok := PutFront(item);
      if ok {
        WakeOne(receivers);
      }
    }

    /** queue_receive without waiting. */
    method TryReceive() returns (ok: bool, item: seq<Byte>)
      requires Valid()
      modifies ring, kernel.lists.queues, kernel.pool
      ensures Valid() && Shape(old(kernel.Model())) && Below(old(kernel.Waits())[senders], |old(kernel.Model()).states|)
      ensures ok <==> old(ring.Messages()) != []
      ensures ok ==> [item] + ring.Messages() == old(ring.Messages())
      ensures !ok ==> ring.Messages() == []
      ensures kernel.Model() == if ok then WakeHead(old(kernel.Model()), old(kernel.Waits())[senders]) else old(kernel.Model())
      ensures kernel.Waits() == if ok then old(kernel.Waits())[senders := Rest(old(kernel.Waits())[senders])] else old(kernel.Waits())
      ensures ok ==> Signalled(old(kernel.Waits())[senders])
    {
      WaitersFit(senders);
      hide Kernel.Kernel.Valid;
      hide Kernel.Kernel.Model;
      hide Kernel.Kernel.Waits;
      hide MakeReady;
      hide Shape;
      hide Ring.Valid;
      hide Ring.Messages;
      hide Valid;
      hide WakeHead;
      hide Signalled;
      ok, item := Take();
      if ok {
        WakeOne(senders);
      }
    }

    lemma WaitersFit(queue: nat)
      requires Valid() && queue < |kernel.Waits()|
      ensures Shape(kernel.Model()) && Below(kernel.Waits()[queue], |kernel.Model().states|)
    {
      kernel.ValidShape();
      kernel.WaitersBelow(queue);
    }
  }
}

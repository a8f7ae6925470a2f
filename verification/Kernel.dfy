/** The scheduler in memory: task control blocks linked into ready queues, and
    methods that change them in place, each refining its step on values. */
module Kernel {
  import opened Bits
  import opened Sequences
  import opened TaskData
  import opened TaskLists
  import opened AllQueues
  import opened Scheduling
  import SchedulerSafety
  import SchedulerRuns

  ghost function StatesOf(pool: seq<Tcb>): (s: seq<TaskState>)
    reads pool`state
    ensures |s| == |pool| && forall i | 0 <= i < |pool| :: s[i] == pool[i].state
  {
    if pool == [] then [] else StatesOf(pool[..|pool| - 1]) + [pool[|pool| - 1].state]
  }

  ghost function BasesOf(pool: seq<Tcb>): (b: seq<nat>)
    reads pool`basePriority
    ensures |b| == |pool| && forall i | 0 <= i < |pool| :: b[i] == pool[i].basePriority
  {
    if pool == [] then [] else BasesOf(pool[..|pool| - 1]) + [pool[|pool| - 1].basePriority]
  }

  function MasksOf(pool: seq<Tcb>): seq<nat> {
    seq(|pool|, i requires 0 <= i < |pool| => pool[i].affinityMask)
  }

  function IdsOf(tasks: seq<Tcb>): seq<nat> {
    seq(|tasks|, i requires 0 <= i < |tasks| => tasks[i].id)
  }

  /** What each core runs, as ids. */
  ghost function CurrentOf(current: seq<Tcb?>): seq<int>
  {
    seq(|current|, c requires 0 <= c < |current| => if current[c] == null then -1 else current[c].id)
  }

  lemma ListedParts(ids: seq<seq<nat>>, n: nat, t: nat)
    requires n <= |ids|
    ensures Listed(ids, t) <==> Listed(ids[..n], t) || Listed(ids[n..], t)
  {
    var front, back := ids[..n], ids[n..];
    if p :| 0 <= p < |ids| && t in ids[p] {
      assert if p < n then t in front[p] else t in back[p - n];
    }
    if p :| 0 <= p < |front| && t in front[p] {
      assert t in ids[p];
    }
    if p :| 0 <= p < |back| && t in back[p] {
      assert t in ids[p + n];
    }
  }

  class Kernel {
    var pool: seq<Tcb>              // the tasks created so far
    const lists: AllQueues          // the ready queues by level, then the wait queues
    const current: array<Tcb?>      // the task each core runs
    const idle: seq<Tcb>            // the idle task of each core

    ghost predicate Valid()
      reads this, lists.queues, pool`next, current
    {
      && IsPool(pool)
      && |lists.queues| >= MAX_PRIORITY && lists.Valid(pool)
      && current.Length == |idle|
      && (forall c | 0 <= c < current.Length :: current[c] == null || current[c] in pool)
      && (forall c | 0 <= c < |idle| :: idle[c] in pool)
    }

    /** The abstract scheduler state the memory stands for. */
    ghost function Model(): Sched
      requires |lists.queues| >= MAX_PRIORITY
      reads this, lists.queues, pool`state, pool`priority, pool`basePriority, current
    {
      Sched(lists.Ids()[..MAX_PRIORITY], CurrentOf(current[..]), StatesOf(pool), Priorities(pool), BasesOf(pool),
            MasksOf(pool), IdsOf(idle))
    }

    /** The tasks in each wait queue, in order. */
    ghost function Waits(): seq<seq<nat>>
      requires |lists.queues| >= MAX_PRIORITY
      reads lists.queues
    {
      lists.Ids()[MAX_PRIORITY..]
    }

    /** t is in some ready or wait queue. */
    ghost predicate InList(t: nat)
      requires |lists.queues| >= MAX_PRIORITY
      reads lists.queues
    {
      Listed(lists.Ids()[..MAX_PRIORITY], t) || Listed(Waits(), t)
    }

    /** Assembles a kernel whose tasks are all idle tasks. */
    constructor (tasks: seq<Tcb>, lists: AllQueues, current: array<Tcb?>)
      requires forall i: nat | i < |tasks| :: IdleAt(tasks[i], i)
      requires |lists.queues| >= MAX_PRIORITY && IsPool(tasks) && lists.Valid(tasks)
      requires forall p | 0 <= p < |lists.queues| :: lists.Ids()[p] == []
      requires current.Length == |tasks| && forall c | 0 <= c < |tasks| :: current[c] == null
      ensures Valid() && this.pool == tasks && this.lists == lists && this.current == current
      ensures Model() == SchedulerRuns.Boot(|tasks|)
      ensures |Waits()| == |lists.queues| - MAX_PRIORITY && forall i | 0 <= i < |Waits()| :: Waits()[i] == []
    {
      this.pool := tasks;
      this.idle := tasks;
      this.lists := lists;
      this.current := current;
      new;
      BootMatches(tasks, |tasks|);
      BootCurrent(current[..]);
      BootReady(|tasks|, lists.Ids());
    }

    /** task_init: one idle task per core, bound to it and in no queue. */
    static method TaskInit(cores: nat, waitQueues: nat) returns (k: Kernel)
      ensures k.Valid() && fresh(k) && fresh(k.lists.queues) && fresh(k.pool) && fresh(k.current)
      ensures k.Model() == SchedulerRuns.Boot(cores)
      ensures |k.Waits()| == waitQueues && forall i | 0 <= i < waitQueues :: k.Waits()[i] == []
    {
      hide Kernel.Valid;
      hide Kernel.Model;
      hide Kernel.Waits;
      var tasks := MakeIdleTasks(cores);
      var current := new Tcb?[cores](_ => null);
      BootMatches(tasks, cores);
      var lists := new AllQueues(tasks, MAX_PRIORITY + waitQueues);
      k := new Kernel(tasks, lists, current);
    }

    static lemma BootCurrent(current: seq<Tcb?>)
      requires forall c | 0 <= c < |current| :: current[c] == null
      ensures CurrentOf(current) == SchedulerRuns.Boot(|current|).current
    {
    }

    static lemma BootReady(cores: nat, ids: seq<seq<nat>>)
      requires |ids| >= MAX_PRIORITY && forall p | 0 <= p < |ids| :: ids[p] == []
      ensures ids[..MAX_PRIORITY] == SchedulerRuns.Boot(cores).ready
    {
    }

    static lemma BootMatches(pool: seq<Tcb>, cores: nat)
      requires |pool| == cores && forall i: nat | i < cores :: IdleAt(pool[i], i)
      ensures IsPool(pool)
      ensures var b := SchedulerRuns.Boot(cores);
              && StatesOf(pool) == b.states && Priorities(pool) == b.prio && BasesOf(pool) == b.base
              && MasksOf(pool) == b.mask && IdsOf(pool) == b.idle
    {
      hide StatesOf;
      hide Priorities;
      hide BasesOf;
      hide MasksOf;
      hide IdsOf;
      BootBindings(pool, cores);
      var b := SchedulerRuns.Boot(cores);
      assert StatesOf(pool) == b.states;
      assert Priorities(pool) == b.prio;
      assert BasesOf(pool) == b.base;
    }

    static lemma BootBindings(pool: seq<Tcb>, cores: nat)
      requires |pool| == cores && forall i: nat | i < cores :: IdleAt(pool[i], i)
      ensures MasksOf(pool) == SchedulerRuns.Boot(cores).mask && IdsOf(pool) == SchedulerRuns.Boot(cores).idle
    {
      hide Pow2;
      var b := SchedulerRuns.Boot(cores);
      assert MasksOf(pool) == b.mask by {
        assert forall i: nat | i < cores :: MasksOf(pool)[i] == Pow2(i) == b.mask[i];
      }
      assert IdsOf(pool) == b.idle by {
        assert forall i: nat | i < cores :: IdsOf(pool)[i] == i == b.idle[i];
      }
    }

    static method MakeIdleTasks(cores: nat) returns (tasks: seq<Tcb>)
      ensures fresh(tasks) && |tasks| == cores
      ensures forall i: nat | i < cores :: IdleAt(tasks[i], i)
    {
      tasks := [];
      while |tasks| < cores
        invariant |tasks| <= cores && fresh(tasks)
        invariant forall i: nat | i < |tasks| :: IdleAt(tasks[i], i)
      {
        var t := new Tcb(|tasks|, 0, Pow2(|tasks|));
        tasks := tasks + [t];
      }
    }

    static ghost predicate IdleAt(t: Tcb, i: nat)
      reads t
    {
      t.id == i && t.affinityMask == Pow2(i) && t.priority == 0 && t.basePriority == 0 && t.state == READY
    }

    lemma ValidShape()
      requires Valid()
      ensures Shape(Model())
    {
      forall c | 0 <= c < current.Length
        ensures -1 <= Model().current[c] < |pool|
      {
        assert current[c] != null ==> pool[current[c].id] == current[c];
      }
      forall p | 0 <= p < MAX_PRIORITY
        ensures Below(Model().ready[p], |pool|)
      {
        assert lists.queues[p].Valid(pool);
      }
    }

    lemma InPool(t: Tcb)
      requires Valid() && t in pool
      ensures t.id < |pool| && pool[t.id] == t
      ensures Model().states[t.id] == t.state && Model().prio[t.id] == t.priority && Model().base[t.id] == t.basePriority
      ensures Model().mask[t.id] == t.affinityMask
    {
    }

    lemma PoolIds()
      requires Valid()
      ensures forall i | 0 <= i < |pool| :: pool[i].id == i
    {
    }

    lemma CurrentInPool(core: nat)
      requires Valid() && core < current.Length && current[core] != null
      ensures current[core] in pool && |lists.queues| >= MAX_PRIORITY
    {
    }

    lemma SameTask(t: Tcb)
      requires Valid() && t in pool
      ensures forall u | u in pool && u.id == t.id :: u == t
    {
    }

    lemma InListMeans(t: nat)
      requires Valid()
      ensures InList(t) <==> Listed(Model().ready, t) || Listed(Waits(), t)
    {
    }

    lemma ListedSplit(t: nat)
      requires |lists.queues| >= MAX_PRIORITY
      ensures InList(t) <==> Listed(lists.Ids(), t)
    {
      ListedParts(lists.Ids(), MAX_PRIORITY, t);
    }

    // Elementary writes, each changing one component of the abstract state.

    method SetState(t: Tcb, state: TaskState)
      requires Valid() && t in pool
      modifies t`state
      ensures Valid() && t.state == state && t.id < |old(Model()).states|
      ensures Model() == old(Model()).(states := old(Model()).states[t.id := state])
    {
      InPool(t);
      t.state := state;
      assert StatesOf(pool) == old(StatesOf(pool))[t.id := state];
    }

    method SetEffectivePriority(t: Tcb, priority: nat)
      requires Valid() && t in pool
      modifies t`priority
      ensures Valid() && t.priority == priority && t.id < |old(Model()).prio|
      ensures Model() == old(Model()).(prio := old(Model()).prio[t.id := priority])
    {
      InPool(t);
      t.priority := priority;
      assert Priorities(pool) == old(Priorities(pool))[t.id := priority];
    }

    method SetBasePriority(t: Tcb, priority: nat)
      requires Valid() && t in pool
      modifies t`basePriority
      ensures Valid() && t.basePriority == priority && t.id < |old(Model()).base|
      ensures Model() == old(Model()).(base := old(Model()).base[t.id := priority])
    {
      InPool(t);
      t.basePriority := priority;
      assert BasesOf(pool) == old(BasesOf(pool))[t.id := priority];
    }

    method SetCurrent(core: nat, t: Tcb)
      requires Valid() && t in pool && core < current.Length
      modifies current
      ensures Valid() && current[core] == t && core < |old(Model()).current|
      ensures Model() == old(Model()).(current := old(Model()).current[core := t.id])
    {
      current[core] := t;
      assert CurrentOf(current[..]) == old(CurrentOf(current[..]))[core := t.id];
    }

    method Enqueue(t: Tcb, level: nat)
      requires Valid() && t in pool && !InList(t.id) && level < MAX_PRIORITY
      modifies lists.queues, pool`next
      ensures Valid() && Waits() == old(Waits())
      ensures level < |old(Model()).ready|
      ensures Model() == old(Model()).(ready := old(Model()).ready[level := old(Model()).ready[level] + [t.id]])
    {
      ListedSplit(t.id);
      lists.Append(pool, level, t);
      assert lists.Ids()[..MAX_PRIORITY] == old(lists.Ids()[..MAX_PRIORITY])[level := old(Model()).ready[level] + [t.id]];
      assert lists.Ids()[MAX_PRIORITY..] == old(lists.Ids()[MAX_PRIORITY..]);
    }

    method Dequeue(t: Tcb, level: nat) returns (found: bool)
      requires Valid() && t in pool && level < MAX_PRIORITY
      modifies lists.queues, pool`next
      ensures Valid() && Waits() == old(Waits())
      ensures level < |old(Model()).ready|
      ensures Model() == old(Model()).(ready := old(Model()).ready[level := Without(old(Model()).ready[level], t.id)])
      ensures found <==> t.id in old(Model()).ready[level]
    {
      found := lists.Remove(pool, level, t);
      assert lists.Ids()[..MAX_PRIORITY] == old(lists.Ids()[..MAX_PRIORITY])[level := Without(old(Model()).ready[level], t.id)];
      assert lists.Ids()[MAX_PRIORITY..] == old(lists.Ids()[MAX_PRIORITY..]);
    }

    // The scheduler's operations.

    /** sched_add_ready, for a task that is in no queue. */
    method AddReady(t: Tcb)
      requires Valid() && t in pool && !InList(t.id)
      modifies lists.queues, pool`next, t`state
      ensures Valid() && Waits() == old(Waits())
      ensures Shape(old(Model())) && t.id < |old(Model()).states|
      ensures Model() == Scheduling.AddReady(old(Model()), t.id)
      ensures old(t.state) != DELETED ==> t.state == READY
    {
      ValidShape();
      InPool(t);
      if t.state == DELETED {
        return;
      }
      hide Valid;
      hide Model;
      hide Waits;
      hide InList;
      Enqueue(t, Level(t.priority));
      SetState(t, READY);
    }

    /** sched_remove_ready. */
    method RemoveReady(t: Tcb)
      requires Valid() && t in pool
      modifies lists.queues, pool`next
      ensures Valid() && Waits() == old(Waits())
      ensures Shape(old(Model())) && t.id < |old(Model()).states|
      ensures Model() == Scheduling.RemoveReady(old(Model()), t.id)
    {
      ValidShape();
      InPool(t);
      ghost var s := Model();
      hide Valid;
      hide Model;
      hide Waits;
      hide Without;
      hide RemoveAnywhere;
      var level := Level(t.priority);
      var found := Dequeue(t, level);
      if found {
        return;
      }
      WithoutAbsent(s.ready[level], t.id);
      assert s.ready[level := s.ready[level]] == s.ready;
      RemoveFromAny(t);
    }

    /** The second half of sched_remove_ready: searches every level. */
    method RemoveFromAny(t: Tcb)
      requires Valid() && t in pool
      modifies lists.queues, pool`next
      ensures Valid() && Waits() == old(Waits())
      ensures Model() == old(Model()).(ready := RemoveAnywhere(old(Model()).ready, t.id, 0))
    {
      ghost var s := Model();
      hide Valid;
      hide Model;
      hide Waits;
      hide Without;
      var p := 0;
      while p < MAX_PRIORITY
        invariant p <= MAX_PRIORITY && Valid() && Model() == s && Waits() == old(Waits())
        invariant RemoveAnywhere(s.ready, t.id, 0) == RemoveAnywhere(s.ready, t.id, p)
      {
        var found := Dequeue(t, p);
        if found {
          return;
        }
        WithoutAbsent(s.ready[p], t.id);
        assert s.ready[p := s.ready[p]] == s.ready;
        p := p + 1;
      }
    }

    /** select_next_task_for_core. */
    method SelectNext(core: nat) returns (t: Tcb)
      requires Valid() && core < current.Length
      ensures t in pool && Shape(Model()) && core < |Model().current|
      ensures t.id == Scheduling.Select(Model(), core)
    {
      hide Valid;
      hide Model;
      hide FirstEligible;
      IdleInPool(core);
      var p: nat := MAX_PRIORITY;
      while p > 0
        invariant p <= MAX_PRIORITY
        invariant Scheduling.Select(Model(), core) == SelectBelow(Model(), core, p)
      {
        var first := FirstOnCore(core, p - 1);
        if first != null {
          return first;
        }
        p := p - 1;
      }
      t := idle[core];
    }

    lemma IdleInPool(core: nat)
      requires Valid() && core < current.Length
      ensures |lists.queues| >= MAX_PRIORITY
      ensures Shape(Model()) && core < |Model().current| && core < |idle| && core < |Model().idle|
      ensures idle[core] in pool && idle[core].id == Model().idle[core]
    {
      ValidShape();
    }

    /** Walks one ready queue for the first task whose affinity mask has the core's bit. */
    method FirstOnCore(core: nat, level: nat) returns (t: Tcb?)
      requires Valid() && level < MAX_PRIORITY
      ensures Shape(Model())
      ensures FirstEligible(Model().mask, core, Model().ready[level]) == if t == null then -1 else t.id
      ensures t != null ==> t in pool
    {
      ValidShape();
      ghost var ids := lists.queues[level].ids;
      assert lists.queues[level].Valid(pool) && Model().ready[level] == ids;
      NodesDistinct(pool, ids);
      t := lists.queues[level].head;
      ghost var k := 0;
      while t != null
        invariant k <= |ids| && t == Node(pool, ids, k)
        invariant FirstEligible(Model().mask, core, ids) == FirstEligible(Model().mask, core, ids[k..])
        decreases |ids| - k
      {
        assert ids[k..][0] == t.id && ids[k..][1..] == ids[k + 1..];
        if And(t.affinityMask, Pow2(core)) != 0 {
          return;
        }
        t := t.next;
        k := k + 1;
      }
    }

    /** The part of sched_start and sched_schedule that dispatches a task on a core. */
    method Dispatch(core: nat)
      requires Valid() && core < current.Length
      modifies lists.queues, pool`next, pool`state, current
      ensures Valid() && Waits() == old(Waits())
      ensures Shape(old(Model())) && core < |old(Model()).current|
      ensures Model() == Scheduling.Start(old(Model()), core)
    {
      hide Valid;
      hide Model;
      hide Waits;
      var next := SelectNext(core);
      hide Scheduling.Select;
      hide Scheduling.RemoveReady;
      RemoveReady(next);
      SetState(next, RUNNING);
      SetCurrent(core, next);
    }

    /** The selection part of sched_start. */
    method Start(core: nat)
      requires Valid() && core < current.Length
      modifies lists.queues, pool`next, pool`state, current
      ensures Valid() && Waits() == old(Waits())
      ensures Shape(old(Model())) && core < |old(Model()).current|
      ensures Model() == Scheduling.Start(old(Model()), core)
    {
      Dispatch(core);
    }

    /** Every task in a wait queue is blocked. */
    ghost predicate WaitersBlocked()
      requires |lists.queues| >= MAX_PRIORITY
      reads lists.queues, pool, this, current
    {
      forall k, w | 0 <= k < |Waits()| && w in Waits()[k] :: BlockedTask(Model(), w)
    }

    static ghost predicate BlockedTask(s: Sched, w: nat) {
      w < |s.states| && s.states[w] == BLOCKED
    }

    /** What the invariant of the runs says of the queues' links: a running task is in
        no queue, and a ready one in no wait queue. */
    lemma QueueMembership(t: Tcb)
      requires Valid() && t in pool && SchedulerSafety.Inv(Model()) && WaitersBlocked()
      ensures t.state == RUNNING ==> !InList(t.id)
      ensures t.state == READY ==> !Listed(Waits(), t.id)
    {
      InPool(t);
      if k :| 0 <= k < |Waits()| && t.id in Waits()[k] {
        assert BlockedTask(Model(), t.id);
      }
      if p :| 0 <= p < MAX_PRIORITY && t.id in Model().ready[p] {
        assert SchedulerSafety.QueuedOk(Model(), p, t.id);
      }
    }

    /** sched_schedule. A running task must be in no queue. */
    method Schedule(core: nat)
      requires Valid() && core < current.Length
      requires current[core] != null && current[core].state == RUNNING ==> !InList(current[core].id)
      modifies lists.queues, pool`next, pool`state, current
      ensures Valid() && Waits() == old(Waits())
      ensures Shape(old(Model())) && core < |old(Model()).current|
      ensures Model() == Scheduling.Schedule(old(Model()), core)
    {
      ValidShape();
      var t := current[core];
      if t != null {
        InPool(t);
      }
      ghost var s := Model();
      assert s.current[core] == if t == null then -1 else t.id;
      RequeueShape(s, core);
      if t != null && t.state == RUNNING {
        hide Valid;
        hide Model;
        hide Waits;
        SetState(t, READY);
        AddReady(t);
        Dispatch(core);
      } else {
        Dispatch(core);
      }
    }

    /** task_block. */
    method Block(t: Tcb)
      requires Valid() && t in pool
      modifies lists.queues, pool`next, t`state
      ensures Valid() && Waits() == old(Waits())
      ensures Shape(old(Model())) && t.id < |old(Model()).states|
      ensures Model() == Scheduling.Block(old(Model()), t.id)
    {
      ValidShape();
      hide Valid;
      hide Model;
      hide Waits;
      SetState(t, BLOCKED);
      RemoveReady(t);
    }

    /** task_make_ready, for a task that is in no queue. */
    method MakeReady(t: Tcb)
      requires Valid() && t in pool && !InList(t.id)
      modifies lists.queues, pool`next, t`state
      ensures Valid() && Waits() == old(Waits())
      ensures Shape(old(Model())) && t.id < |old(Model()).states|
      ensures Model() == Scheduling.MakeReady(old(Model()), t.id)
    {
      ValidShape();
      hide Valid;
      hide Model;
      hide Waits;
      SetState(t, READY);
      AddReady(t);
    }

    /** Changes a task's effective priority and moves it to its new ready queue if
        it is ready; a ready task must not be in a wait queue, nor in two ready queues. */
    method Reprioritize(t: Tcb, priority: nat)
      requires Valid() && t in pool
      requires t.state == READY ==> !Listed(Waits(), t.id)
      modifies lists.queues, pool`next, t`priority, t`state
      ensures Valid() && Waits() == old(Waits())
      ensures Shape(old(Model())) && t.id < |old(Model()).states|
      ensures Model() == Scheduling.Reprioritize(old(Model()), t.id, priority)
      ensures t.priority == priority && t.state == old(t.state)
    {
      ValidShape();
      InPool(t);
      OneQueueHolds();
      ghost var s1 := Model().(prio := Model().prio[t.id := priority]);
      RemoveShape(s1, t.id);
      hide Valid;
      hide Model;
      hide Waits;
      SetEffectivePriority(t, priority);
      if t.state == READY {
        RemovedFromReady(s1, t.id);
        RemoveReady(t);
        AddReady(t);
      }
    }

    /** task_set_priority. */
    method SetPriority(t: Tcb, priority: nat)
      requires Valid() && t in pool
      requires t.state == READY ==> !Listed(Waits(), t.id)
      modifies lists.queues, pool`next, t`basePriority, t`priority, t`state
      ensures Valid() && Waits() == old(Waits())
      ensures Shape(old(Model())) && t.id < |old(Model()).states|
      ensures Model() == Scheduling.SetPriority(old(Model()), t.id, priority)
      ensures t.priority == t.basePriority == priority && t.state == old(t.state)
    {
      hide Valid;
      hide Model;
      hide Waits;
      ValidShape();
      SetBasePriority(t, priority);
      Reprioritize(t, priority);
    }

    /** task_create; null when the pool is full. */
    method TaskCreate(priority: nat, affinity: nat) returns (t: Tcb?)
      requires Valid()
      modifies this`pool, lists.queues, pool`next
      ensures Valid() && Waits() == old(Waits())
      ensures Shape(old(Model()))
      ensures Model() == SchedulerRuns.Create(old(Model()), priority, affinity)
      ensures t == null <==> |old(pool)| >= SchedulerRuns.MAX_TASKS
      ensures t != null ==> fresh(t) && pool == old(pool) + [t]
      ensures t != null ==> t.priority == t.basePriority == priority && t.state == READY && RunsOn(t, affinity)
    {
      ValidShape();
      if |pool| >= SchedulerRuns.MAX_TASKS {
        return null;
      }
      t := NewTask(priority, affinity);
      hide Model;
      hide Waits;
      AddReady(t);
    }

    /** The control block set-up of task_create: a new task that is in no queue yet. */
    method NewTask(priority: nat, affinity: nat) returns (t: Tcb)
      requires Valid()
      modifies this`pool
      ensures Valid() && Waits() == old(Waits()) && fresh(t) && pool == old(pool) + [t] && t.state == READY
      ensures t.id == |old(Model()).states| && !InList(t.id)
      ensures Model() == SchedulerRuns.Extend(old(Model()), priority, affinity)
      ensures t.priority == t.basePriority == priority && RunsOn(t, affinity)
    {
      hide Valid;
      hide Model;
      hide Waits;
      hide InList;
      var mask := if affinity == 0 then Pow2(current.Length) - 1 else affinity;
      CoreCount();
      t := new Tcb(|pool|, priority, mask);
      Admit(t);
      forall c: nat | c < current.Length
        ensures Bit(t.affinityMask, c) <==> affinity == 0 || Bit(affinity, c)
      {
        BitOfOnes(current.Length, c);
      }
    }

    /** Of the kernel's cores, t may run on those of the mask, or on all for a mask of 0. */
    ghost predicate RunsOn(t: Tcb, affinity: nat) {
      forall c: nat | c < current.Length :: Bit(t.affinityMask, c) <==> affinity == 0 || Bit(affinity, c)
    }

    lemma CoreCount()
      requires Valid()
      ensures |Model().current| == current.Length && |Model().states| == |pool|
    {
    }

    /** Puts a control block into the pool. */
    method Admit(t: Tcb)
      requires Valid() && t.id == |pool| && t.basePriority == t.priority
      modifies this`pool
      ensures Valid() && Waits() == old(Waits()) && pool == old(pool) + [t] && !InList(t.id)
      ensures var s := old(Model()); Model() == s.(states := s.states + [t.state], prio := s.prio + [t.priority],
                                                   base := s.base + [t.priority], mask := s.mask + [t.affinityMask])
    {
      assert IsPool(pool + [t]);
      lists.ValidInLargerPool(pool, t);
      NotListedYet(t.id);
      ListedSplit(t.id);
      LargerPool(pool, t);
      hide StatesOf;
      hide BasesOf;
      hide Priorities;
      hide CurrentOf;
      hide MasksOf;
      hide IdsOf;
      hide AllQueues.Valid;
      hide Listed;
      hide InList;
      hide IsPool;
      hide Below;
      hide Distinct;
      ghost var s := Model();
      pool := pool + [t];
      assert Model().ready == s.ready && Model().current == s.current && Model().idle == s.idle;
      ListedSplit(t.id);
    }

    static lemma LargerPool(pool: seq<Tcb>, t: Tcb)
      ensures StatesOf(pool + [t]) == StatesOf(pool) + [t.state]
      ensures Priorities(pool + [t]) == Priorities(pool) + [t.priority]
      ensures BasesOf(pool + [t]) == BasesOf(pool) + [t.basePriority]
      ensures MasksOf(pool + [t]) == MasksOf(pool) + [t.affinityMask]
    {
    }

    lemma NotListedYet(t: nat)
      requires Valid() && t >= |pool|
      ensures !InList(t)
    {
      ListedSplit(t);
      forall p | 0 <= p < |lists.queues|
        ensures t !in lists.Ids()[p]
      {
        assert lists.queues[p].Valid(pool);
      }
    }

    /** Adds t to a wait queue in priority order. */
    method AddWaiter(k: nat, t: Tcb)
      requires Valid() && t in pool && k < |Waits()| && !InList(t.id)
      modifies lists.queues, pool`next
      ensures Valid() && Model() == old(Model())
      ensures t.id < |Model().prio| && Below(old(Waits())[k], |Model().prio|)
      ensures Waits() == old(Waits())[k := InsertByPriority(Model().prio, old(Waits())[k], t.id)]
    {
      ListedSplit(t.id);
      ghost var ids := lists.Ids();
      assert ids[MAX_PRIORITY..][k] == ids[MAX_PRIORITY + k];
      hide StatesOf;
      hide BasesOf;
      hide Priorities;
      hide CurrentOf;
      hide MasksOf;
      hide IdsOf;
      hide Below;
      hide AllQueues.Valid;
      hide InList;
      hide InsertByPriority;
      lists.AddByPriority(pool, MAX_PRIORITY + k, t);
      WaitQueueChanged(ids, k, InsertByPriority(Priorities(pool), ids[MAX_PRIORITY + k], t.id));
    }

    /** Takes the first task off a wait queue. */
    method PopWaiter(k: nat) returns (t: Tcb?)
      requires Valid() && k < |Waits()|
      modifies lists.queues, pool`next
      ensures Valid() && Model() == old(Model())
      ensures t == null <==> old(Waits())[k] == []
      ensures t == null ==> Waits() == old(Waits())
      ensures t != null ==> t in pool && t.id == old(Waits())[k][0] && !InList(t.id)
      ensures t != null ==> Waits() == old(Waits())[k := old(Waits())[k][1..]]
    {
      hide MasksOf;
      hide IdsOf;
      hide Below;
      hide Listed;
      hide TaskQueue.Valid;
      hide StatesOf;
      hide BasesOf;
      hide Priorities;
      hide CurrentOf;
      hide AllQueues.Valid;
      hide InList;
      hide Disjoint;
      hide Distinct;
      WaitQueueFacts(k);
      ghost var ids := lists.Ids();
      t := lists.Pop(pool, MAX_PRIORITY + k);
      if t != null {
        WaitQueueChanged(ids, k, ids[MAX_PRIORITY + k][1..]);
        PoppedIsFree(ids, MAX_PRIORITY + k, t.id);
        ListedSplit(t.id);
      }
    }

    lemma WaitQueueFacts(k: nat)
      requires Valid() && k < |Waits()|
      ensures MAX_PRIORITY + k < |lists.queues| == |lists.Ids()| && Waits()[k] == lists.Ids()[MAX_PRIORITY + k]
      ensures Disjoint(lists.Ids()) && Distinct(lists.Ids()[MAX_PRIORITY + k])
    {
      assert lists.queues[MAX_PRIORITY + k].Valid(pool);
    }

    lemma WaitersBelow(k: nat)
      requires Valid() && k < |Waits()|
      ensures Below(Waits()[k], |Model().states|)
    {
      assert lists.queues[MAX_PRIORITY + k].Valid(pool);
    }

    /** Sets the reason a task will find when it resumes. */
    method SetWakeReason(t: Tcb, reason: WakeReason)
      requires Valid() && t in pool
      modifies t`wakeReason
      ensures Valid() && t.wakeReason == reason
      ensures Model() == old(Model()) && Waits() == old(Waits()) && InList(t.id) == old(InList(t.id))
    {
      t.wakeReason := reason;
    }

    /** Makes a waiting task, by now in no queue, ready for the given reason. */
    method Wake(t: Tcb, reason: WakeReason)
      requires Valid() && t in pool && !InList(t.id)
      modifies lists.queues, pool`next, t`state, t`wakeReason
      ensures Valid() && t.wakeReason == reason && Waits() == old(Waits())
      ensures Shape(old(Model())) && t.id < |old(Model()).states|
      ensures Model() == Scheduling.MakeReady(old(Model()), t.id)
    {
      hide Valid;
      hide Model;
      hide Waits;
      hide InList;
      SetWakeReason(t, reason);
      MakeReady(t);
    }

    /** Raises a task to the priority of t, which is in no queue. */
    method Boost(o: Tcb, t: Tcb)
      requires Valid() && o in pool && t in pool && o != t && !InList(t.id)
      requires o.state == READY ==> !Listed(Waits(), o.id)
      modifies lists.queues, pool`next, o`priority, o`state
      ensures Valid() && Waits() == old(Waits()) && !InList(t.id)
      ensures Shape(old(Model())) && o.id < |old(Model()).states| && t.id < |old(Model()).prio|
      ensures Model() == Scheduling.Boost(old(Model()), o.id, old(Model()).prio[t.id])
    {
      ValidShape();
      InPool(t);
      InPool(o);
      ghost var s := Model();
      if o.priority < t.priority {
        InListMeans(t.id);
        OneQueueHolds();
        if Listed(Scheduling.Reprioritize(s, o.id, t.priority).ready, t.id) {
          ReprioritizeQueuesNoOther(s, o.id, t.priority, t.id);
        }
        hide Valid;
        hide Model;
        hide Waits;
        hide InList;
        hide Scheduling.Reprioritize;
        hide Listed;
        Reprioritize(o, t.priority);
        InListMeans(t.id);
      }
    }

    /** The wait half of the blocking calls: t joins wait queue k and blocks. */
    method Sleep(k: nat, t: Tcb)
      requires Valid() && t in pool && k < |Waits()| && !InList(t.id)
      modifies lists.queues, pool`next, t`state
      ensures Valid() && Shape(old(Model())) && t.id < |old(Model()).states|
      ensures Below(old(Waits())[k], |old(Model()).prio|)
      ensures Model() == Scheduling.Block(old(Model()), t.id)
      ensures Waits() == old(Waits())[k := InsertByPriority(old(Model()).prio, old(Waits())[k], t.id)]
    {
      hide Valid;
      hide Model;
      hide Waits;
      hide InList;
      hide Below;
      hide Scheduling.Block;
      AddWaiter(k, t);
      Block(t);
    }

    /** The waiting part of mutex_lock: the owner o is boosted, then t goes to sleep in wait queue k. */
    method BoostAndSleep(o: Tcb, t: Tcb, k: nat) returns (ghost boosted: Sched)
      requires Valid() && o in pool && t in pool && o != t && k < |Waits()| && !InList(t.id)
      requires o.state == READY ==> !Listed(Waits(), o.id)
      modifies lists.queues, pool`next, o`priority, o`state, t`state
      ensures Valid() && Shape(old(Model())) && o.id < |old(Model()).states| && t.id < |old(Model()).prio|
      ensures boosted == Scheduling.Boost(old(Model()), o.id, old(Model()).prio[t.id])
      ensures Shape(boosted) && t.id < |boosted.states| && Below(old(Waits())[k], |boosted.prio|)
      ensures Model() == Scheduling.Block(boosted, t.id)
      ensures Waits() == old(Waits())[k := InsertByPriority(boosted.prio, old(Waits())[k], t.id)]
    {
      ValidShape();
      InPool(o);
      InPool(t);
      ghost var s := Model();
      hide Valid;
      hide Model;
      hide Waits;
      hide InList;
      hide Scheduling.Boost;
      hide Scheduling.Block;
      Boost(o, t);
      boosted := Scheduling.Boost(s, o.id, s.prio[t.id]);
      Sleep(k, t);
    }

    /** The wake half: the first task of wait queue k becomes ready; null if none waits. */
    method WakeFirst(k: nat) returns (t: Tcb?)
      requires Valid() && k < |Waits()|
      modifies lists.queues, pool`next, pool`state, pool`wakeReason
      ensures Valid() && Shape(old(Model())) && (t == null <==> old(Waits())[k] == [])
      ensures t == null ==> Model() == old(Model()) && Waits() == old(Waits())
      ensures t != null ==> t in pool && t.id == old(Waits())[k][0] < |old(Model()).states| && t.wakeReason == SIGNALED
      ensures t != null ==> Model() == Scheduling.MakeReady(old(Model()), t.id)
      ensures t != null ==> Waits() == old(Waits())[k := old(Waits())[k][1..]]
    {
      ValidShape();
      hide Valid;
      hide Model;
      hide Waits;
      hide InList;
      hide Shape;
      hide Scheduling.MakeReady;
      t := PopWaiter(k);
      if t != null {
        Wake(t, SIGNALED);
      }
    }

    static lemma WaitQueueChanged(ids: seq<seq<nat>>, k: nat, queue: seq<nat>)
      requires |ids| >= MAX_PRIORITY && k < |ids| - MAX_PRIORITY
      ensures ids[MAX_PRIORITY..][k] == ids[MAX_PRIORITY + k]
      ensures ids[MAX_PRIORITY + k := queue][..MAX_PRIORITY] == ids[..MAX_PRIORITY]
      ensures ids[MAX_PRIORITY + k := queue][MAX_PRIORITY..] == ids[MAX_PRIORITY..][k := queue]
    {
    }

    static lemma PoppedIsFree(ids: seq<seq<nat>>, k: nat, t: nat)
      requires k < |ids| && Disjoint(ids) && ids[k] != [] && ids[k][0] == t
      requires Distinct(ids[k])
      ensures !Listed(ids[k := ids[k][1..]], t)
    {
      var rest := ids[k := ids[k][1..]];
      forall p | 0 <= p < |rest|
        ensures t !in rest[p]
      {
        assert t in ids[k];
      }
    }

    lemma OneQueueHolds()
      requires Valid()
      ensures SchedulerSafety.OneQueue(Model().ready)
      ensures forall p | 0 <= p < MAX_PRIORITY :: Distinct(Model().ready[p])
    {
      var ids := lists.Ids();
      forall p, q, t | 0 <= p < MAX_PRIORITY && 0 <= q < MAX_PRIORITY && t in Model().ready[p] && t in Model().ready[q]
        ensures p == q
      {
        assert t in ids[p] && t in ids[q];
      }
      forall p | 0 <= p < MAX_PRIORITY
        ensures Distinct(Model().ready[p])
      {
        assert lists.queues[p].Valid(pool);
      }
    }
  }

  /** sched_remove_ready leaves the task in no ready queue. */
  lemma RemovedFromReady(s: Sched, t: nat)
    requires Shape(s) && t < |s.states| && SchedulerSafety.OneQueue(s.ready)
    requires forall p | 0 <= p < MAX_PRIORITY :: Distinct(s.ready[p])
    ensures !Listed(RemoveReady(s, t).ready, t)
  {
    SchedulerSafety.RemoveReadyRemoves(s, t);
    forall p | 0 <= p < MAX_PRIORITY
      ensures t !in RemoveReady(s, t).ready[p]
    {
      WithoutMembers(s.ready[p], t);
    }
  }

  /** Re-sorting a task queues no other task. */
  lemma ReprioritizeQueuesNoOther(s: Sched, t: nat, p: nat, u: nat)
    requires Shape(s) && t < |s.states| && SchedulerSafety.OneQueue(s.ready) && u != t
    requires Listed(Reprioritize(s, t, p).ready, u)
    ensures Listed(s.ready, u)
  {
    var s1 := s.(prio := s.prio[t := p]);
    if s.states[t] == READY {
      SchedulerSafety.RemoveReadyRemoves(s1, t);
      var q :| 0 <= q < MAX_PRIORITY && u in Reprioritize(s, t, p).ready[q];
      WithoutMembers(s.ready[q], t);
      assert u in s.ready[q];
    }
  }

  /** Waking a task queues no other task. */
  lemma MakeReadyQueuesNoOther(s: Sched, t: nat, u: nat)
    requires Shape(s) && t < |s.states| && u != t
    requires Listed(MakeReady(s, t).ready, u)
    ensures Listed(s.ready, u)
  {
    var q :| 0 <= q < MAX_PRIORITY && u in MakeReady(s, t).ready[q];
    assert u in s.ready[q];
  }
}

/** Runs from boot that end in the cases the main theorems exclude or warn of. */
module CornerCases {
  import opened Bits
  import opened Sequences
  import opened TaskData
  import opened Scheduling
  import opened SchedulerSafety
  import opened SchedulerRuns
  import opened RoundRobin
  import opened IdleChoice
  import opened WaitOrder
  import MP = MutexProtocol

  // ----- The first steps of a core -----------------------------------------

  lemma RunsOn(s0: Sched, steps: seq<Step>, mid: Sched, step: Step, s: Sched)
    requires RunsTo(s0, steps, mid) && OneStep(mid, step, s)
    ensures RunsTo(s0, steps + [step], s)
  {
    var states :| SchedulerRuns.IsTrace(s0, steps, mid, states);
    assert SchedulerRuns.IsTrace(s0, steps + [step], s, states + [s]);
  }

  /** One core whose idle task is queued while task 1, of priority p, runs. */
  function Loaded(p: nat): Sched {
    Sched([[0], [], [], []], [1], [READY, RUNNING], [0, p], [0, p], [1, 1], [0])
  }

  function LoadSteps(p: nat): seq<Step> {
    [StartCore(0), CreateTask(p, 0), Reschedule(0)]
  }

  /** On one core, the head of the highest level in use is dispatched. */
  lemma HeadStarts(s: Sched, p: nat, t: nat, rest: seq<nat>)
    requires Shape(s) && |s.current| == 1 && Inv(Vacate(s, 0))
    requires p < MAX_PRIORITY && s.ready[p] == [t] + rest && forall q | p < q < MAX_PRIORITY :: s.ready[q] == []
    requires t < |s.states| && Bit(s.mask[t], 0)
    ensures Start(s, 0) == s.(ready := s.ready[p := rest], states := s.states[t := RUNNING], current := [t])
  {
    AndPow2(s.mask[t], 0);
    var v := Vacate(s, 0);
    FirstAt(s.mask, 0, s.ready[p], 0);
    CandidatesFirst(s.mask, 0, s.ready[p]);
    SelectReaches(s, 0, p, MAX_PRIORITY);
    assert QueuedOk(v, p, t);
    assert s.ready[p][0] == t;
    forall i | 0 <= i < |rest|
      ensures rest[i] != t
    {
      assert rest[i] == v.ready[p][i + 1];
    }
    WithoutAbsent(rest, t);
    assert Without(s.ready[p], t) == rest;
  }

  const Started := Sched([[], [], [], []], [0], [RUNNING], [0], [0], [1], [0])

  function Created(p: nat): Sched
    requires p < MAX_PRIORITY
  {
    Sched([[], [], [], []][p := [1]], [0], [RUNNING, READY], [0, p], [0, p], [1, 1], [0])
  }

  lemma BootStarts()
    ensures OneStep(Boot(1), StartCore(0), Started) && Inv(Started)
  {
    hide Inv;
    var s := Boot(1);
    BootInv(1);
    StepKeeps(s, StartCore(0));
    NothingQueued(s);
    assert s.states[0 := RUNNING] == Started.states && s.current[0 := 0] == Started.current;
    assert s.prio == Started.prio && s.base == Started.base && s.mask == Started.mask && s.idle == Started.idle;
  }

  lemma NothingQueued(s: Sched)
    requires Shape(s) && |s.current| == 1 && s.idle[0] == 0 && forall q | 0 <= q < MAX_PRIORITY :: s.ready[q] == []
    ensures Start(s, 0) == s.(ready := [[], [], [], []], states := s.states[0 := RUNNING], current := s.current[0 := 0])
  {
    hide Eligible;
    SelectBelowIsTop(s, 0, MAX_PRIORITY);
    RemoveReadyRemoves(s, 0);
    assert RemoveReady(s, 0).ready == [[], [], [], []];
  }

  lemma TaskAdded(p: nat)
    requires p < MAX_PRIORITY
    ensures OneStep(Started, CreateTask(p, 0), Created(p)) && Inv(Created(p))
  {
    hide Inv;
    BootStarts();
    StepKeeps(Started, CreateTask(p, 0));
    assert Extend(Started, p, 0) == Created(p).(ready := Started.ready) by {
      assert Pow2(1) == 2;
    }
    assert [] + [1] == [1];
    assert [RUNNING, READY][1 := READY] == [RUNNING, READY];
  }

  /** Created(p) with its running idle task put back. */
  function IdleQueued(p: nat): Sched
    requires p < MAX_PRIORITY
  {
    Sched([if p == 0 then [1, 0] else [0], [], [], []][p := if p == 0 then [1, 0] else [1]],
          [0], [READY, READY], [0, p], [0, p], [1, 1], [0])
  }

  lemma IdleRequeued(p: nat)
    requires p < MAX_PRIORITY
    ensures Shape(Created(p)) && Requeue(Created(p), 0) == IdleQueued(p)
  {
    var s := Created(p);
    assert s.states[0 := READY] == [READY, READY];
    assert s.ready[0] + [0] == IdleQueued(p).ready[0];
    assert s.ready[0 := IdleQueued(p).ready[0]] == IdleQueued(p).ready;
  }

  lemma TaskDispatched(p: nat)
    requires p < MAX_PRIORITY && Shape(IdleQueued(p)) && Inv(Vacate(IdleQueued(p), 0))
    ensures Start(IdleQueued(p), 0) == Loaded(p)
  {
    hide Inv;
    hide Start;
    hide Vacate;
    var r, rest := IdleQueued(p), if p == 0 then [0] else [];
    HeadStarts(r, p, 1, rest);
    assert r.ready[p := rest] == Loaded(p).ready;
    assert r.states[1 := RUNNING] == Loaded(p).states;
  }

  lemma TaskRuns(p: nat)
    requires p < MAX_PRIORITY
    ensures OneStep(Created(p), Reschedule(0), Loaded(p)) && Inv(Loaded(p))
  {
    hide Inv;
    hide Requeue;
    hide Start;
    hide Vacate;
    hide IdleQueued;
    hide Loaded;
    TaskAdded(p);
    IdleRequeued(p);
    StepKeeps(Created(p), Reschedule(0));
    RequeueVacates(Created(p), 0);
    TaskDispatched(p);
  }

  lemma LoadedReached(p: nat)
    requires p < MAX_PRIORITY
    ensures RunsTo(Boot(1), LoadSteps(p), Loaded(p)) && Inv(Loaded(p))
  {
    hide Inv;
    hide OneStep;
    hide Boot;
    hide Created;
    hide Loaded;
    BootStarts();
    TaskAdded(p);
    TaskRuns(p);
    assert SchedulerRuns.IsTrace(Boot(1), [], Boot(1), [Boot(1)]);
    RunsOn(Boot(1), [], Boot(1), StartCore(0), Started);
    RunsOn(Boot(1), [] + [StartCore(0)], Started, CreateTask(p, 0), Created(p));
    RunsOn(Boot(1), [] + [StartCore(0)] + [CreateTask(p, 0)], Created(p), Reschedule(0), Loaded(p));
    assert [] + [StartCore(0)] + [CreateTask(p, 0)] + [Reschedule(0)] == LoadSteps(p);
  }

  // ----- The idle task before others ---------------------------------------

  /** A task of priority 0 that was created after the core started runs, is rescheduled,
      and then waits for the idle task. */
  lemma IdleOvertakes() returns (s: Sched)
    ensures RunsTo(Boot(1), LoadSteps(0) + [Reschedule(0)], s) && Shape(s)
    ensures s.current == s.idle == [0] && s.ready[0] == [1] && EligibleTask(s, 0, 1) && s.states[1] == READY
  {
    hide Inv;
    hide Start;
    hide Vacate;
    hide Requeue;
    hide RunsTo;
    LoadedReached(0);
    s := Schedule(Loaded(0), 0);
    RunsOn(Boot(1), LoadSteps(0), Loaded(0), Reschedule(0), s);
    StepKeeps(Loaded(0), Reschedule(0));
    RequeueVacates(Loaded(0), 0);
    BothQueued();
    HeadStarts(Waiting, 0, 0, [1]);
    AndPow2(1, 0);
  }

  /** Loaded(0) with its running task put back, behind the idle task. */
  const Waiting := Sched([[0, 1], [], [], []], [1], [READY, READY], [0, 0], [0, 0], [1, 1], [0])

  lemma BothQueued()
    ensures Shape(Loaded(0)) && Requeue(Loaded(0), 0) == Waiting
    ensures Shape(Waiting) && Waiting.ready[0] == [0] + [1]
  {
    assert Loaded(0).states[1 := READY] == Waiting.states;
    assert Loaded(0).ready[0] + [1] == Waiting.ready[0];
    assert Loaded(0).ready[0 := Waiting.ready[0]] == Waiting.ready;
  }

  // ----- A wake-up too soon ------------------------------------------------

  /** A task that blocks itself is still its core's current one: a wake-up now queues it,
      and another core could run it as well. */
  lemma WakeTooSoon(p: nat) returns (s: Sched)
    requires p < MAX_PRIORITY
    ensures RunsTo(Boot(1), LoadSteps(p) + [BlockCurrent(0)], s) && Shape(s) && |s.states| == 2
    ensures Inv(s) && s.states[1] == BLOCKED && s.current == [1] && !Inv(MakeReady(s, 1))
  {
    LoadedReached(p);
    var l := Loaded(p);
    s := Block(l, 1);
    BlockKeeps(l, 0);
    RunsOn(Boot(1), LoadSteps(p), l, BlockCurrent(0), s);
    WakeSafeIff(s, 1);
    hide Inv;
    assert 1 in s.current;
  }

  // ----- A mutex locked again and again ------------------------------------

  lemma MutexRunsOn(moves: seq<MP.Move>, mid: MP.Run, move: MP.Move, r: MP.Run)
    requires MP.MutexRun(moves, mid) && MP.OneMove(mid, move, r)
    ensures MP.MutexRun(moves + [move], r)
  {
    var states :| MP.IsTrace(moves, mid, states);
    assert MP.IsTrace(moves + [move], r, states + [r]);
  }

  /** Task 1 runs and the mutex is free. */
  lemma MutexStarts() returns (moves: seq<MP.Move>, r: MP.Run)
    ensures MP.MutexRun(moves, r) && r.depth == 0 && r.mutex == MP.FREE && Executes(r.sched)
  {
    hide Inv;
    hide OneStep;
    hide Created;
    BootStarts();
    TaskAdded(1);
    TaskRuns(1);
    var r0 := MP.Run(Boot(1), MP.FREE, 0, map[], 0);
    assert MP.IsTrace([], r0, [r0]);
    var r1 := MutexKernel([], r0, StartCore(0), Started);
    var r2 := MutexKernel([] + [MP.KernelMove(StartCore(0))], r1, CreateTask(1, 0), Created(1));
    r := MutexKernel([] + [MP.KernelMove(StartCore(0))] + [MP.KernelMove(CreateTask(1, 0))], r2, Reschedule(0), Loaded(1));
    moves := [] + [MP.KernelMove(StartCore(0))] + [MP.KernelMove(CreateTask(1, 0))] + [MP.KernelMove(Reschedule(0))];
  }

  lemma MutexKernel(moves: seq<MP.Move>, mid: MP.Run, step: Step, s: Sched) returns (r: MP.Run)
    requires MP.MutexRun(moves, mid) && OneStep(mid.sched, step, s) && !step.Wake? && !step.ChangePriority?
    ensures MP.MutexRun(moves + [MP.KernelMove(step)], r)
    ensures r.sched == s && r.mutex == mid.mutex && r.depth == mid.depth
  {
    r := mid.(sched := s, clock := mid.clock + 1);
    MutexRunsOn(moves, mid, MP.KernelMove(step), r);
  }

  /** The owner may nest its locks up to 255 deep. */
  lemma {:induction false} NestedLocks(k: nat) returns (moves: seq<MP.Move>, r: MP.Run)
    requires k < MP.COUNT_RANGE
    ensures MP.MutexRun(moves, r) && r.depth == k && Executes(r.sched)
    ensures if k == 0 then r.mutex == MP.FREE else r.mutex.owner == Caller(r.sched)
  {
    if k == 0 {
      moves, r := MutexStarts();
    } else {
      var before, mid := NestedLocks(k - 1);
      MP.MutexRunsKeep(before, mid);
      MP.CallerFits(mid);
      moves, r := before + [MP.LockMove(true)], MP.After(mid, MP.LockMove(true));
      MutexRunsOn(before, mid, MP.LockMove(true), r);
    }
  }

  /** One lock more, the 256th, counts zero, and the next unlock gives the mutex away. */
  lemma LockCountWraps() returns (moves: seq<MP.Move>, r: MP.Run)
    ensures MP.MutexRun(moves, r) && r.depth == 255 && Executes(r.sched)
    ensures MP.NamesFit(r) && r.mutex.owner == Caller(r.sched)
    ensures var (s, m) := MP.Lock(r.sched, r.mutex, Caller(r.sched), true);
            m.count == 0 && MP.Unlock(s, m, Caller(r.sched)).1.owner != r.mutex.owner
  {
    moves, r := NestedLocks(255);
    MP.MutexRunsKeep(moves, r);
    MP.RecursiveLockIff(r);
  }
}

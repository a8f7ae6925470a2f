/** Whole runs of the scheduler: safety from boot on, which task is chosen, and
    round-robin fairness. */
module SchedulerRuns {
  import opened Bits
  import opened Sequences
  import opened TaskData
  import opened Scheduling
  import opened SchedulerSafety

  const MAX_TASKS: nat := 16

  // ----- Runs --------------------------------------------------------------

  /** The state task_init leaves: one idle task per core, bound to it, ready but not queued. */
  function Boot(cores: nat): Sched {
    Sched(seq(MAX_PRIORITY, _ => []), seq(cores, _ => -1), seq(cores, _ => READY),
          seq(cores, _ => 0), seq(cores, _ => 0), seq(cores, c requires 0 <= c => Pow2(c)), seq(cores, c requires 0 <= c => c))
  }

  /** The state of task_create's new control block, before it is queued. */
  function Extend(s: Sched, prio: nat, affinity: nat): Sched {
    s.(states := s.states + [READY], prio := s.prio + [prio], base := s.base + [prio],
       mask := s.mask + [if affinity == 0 then Pow2(|s.current|) - 1 else affinity])
  }

  /** task_create: fails when the pool is full. */
  function Create(s: Sched, prio: nat, affinity: nat): Sched
    requires Shape(s)
  {
    if |s.states| >= MAX_TASKS then s else AddReady(Extend(s, prio, affinity), |s.states|)
  }

  datatype Step =
    | CreateTask(prio: nat, affinity: nat)
    | StartCore(core: nat)
    | Reschedule(core: nat)
    | BlockCurrent(core: nat)
    | Wake(task: nat)
    | ChangePriority(task: nat, prio: nat)

  /** When a step may be taken: a core starts once; a running task that is not
      idle blocks itself; only a blocked task that no core still holds is woken. */
  ghost predicate Enabled(s: Sched, step: Step) {
    Shape(s) &&
    match step
    case CreateTask(_, _) => true
    case StartCore(c) => c < |s.current| && s.current[c] == -1
    case Reschedule(c) => c < |s.current|
    case BlockCurrent(c) =>
      c < |s.current| && s.current[c] != -1 && s.states[s.current[c]] == RUNNING && !IsIdle(s, s.current[c])
    case Wake(t) => t < |s.states| && s.states[t] == BLOCKED && t !in s.current
    case ChangePriority(t, _) => t < |s.states|
  }

  ghost function Apply(s: Sched, step: Step): Sched
    requires Enabled(s, step)
  {
    match step
    case CreateTask(p, a) => Create(s, p, a)
    case StartCore(c) => Start(s, c)
    case Reschedule(c) => Schedule(s, c)
    case BlockCurrent(c) => Block(s, s.current[c])
    case Wake(t) => MakeReady(s, t)
    case ChangePriority(t, p) => SetPriority(s, t, p)
  }

  /** Taking the steps one after the other leads from s0 to s. */
  ghost predicate RunsTo(s0: Sched, steps: seq<Step>, s: Sched) {
    exists states: seq<Sched> :: IsTrace(s0, steps, s, states)
  }

  ghost predicate IsTrace(s0: Sched, steps: seq<Step>, s: Sched, states: seq<Sched>) {
    && |states| == |steps| + 1 && states[0] == s0 && states[|steps|] == s
    && forall i | 0 <= i < |steps| :: OneStep(states[i], steps[i], states[i + 1])
  }

  lemma LastStep(s0: Sched, steps: seq<Step>, s: Sched) returns (mid: Sched)
    requires RunsTo(s0, steps, s) && steps != []
    ensures RunsTo(s0, steps[..|steps| - 1], mid) && OneStep(mid, steps[|steps| - 1], s)
  {
    var states :| IsTrace(s0, steps, s, states);
    var n := |steps| - 1;
    mid := states[n];
    assert OneStep(states[n], steps[n], states[n + 1]);
    assert IsTrace(s0, steps[..n], mid, states[..n + 1]);
  }

  ghost predicate OneStep(mid: Sched, step: Step, s: Sched) {
    Enabled(mid, step) && s == Apply(mid, step)
  }

  lemma BootInv(cores: nat)
    ensures Inv(Boot(cores))
  {
    var s := Boot(cores);
    forall c, d | 0 <= c < cores && 0 <= d < cores
      ensures Eligible(s.mask, d, s.idle[c]) <==> c == d
    {
      AndPow2(Pow2(c), d);
      BitOfPow2(c, d);
    }
    forall t: nat | t < cores
      ensures IsIdle(s, t)
    {
      assert s.idle[t] == t;
    }
  }

  lemma CreateKeeps(s: Sched, prio: nat, affinity: nat)
    requires Inv(s)
    ensures Inv(Create(s, prio, affinity))
  {
    if |s.states| < MAX_TASKS {
      var e, t := Extend(s, prio, affinity), |s.states|;
      forall p, u | 0 <= p < MAX_PRIORITY && u in e.ready[p]
        ensures QueuedOk(e, p, u) && u != t
      {
        assert QueuedOk(s, p, u);
      }
      forall c | 0 <= c < |s.current|
        ensures CurrentOk(e, c) && e.current[c] != t
      {
        assert CurrentOk(s, c);
      }
      assert IdlesOk(e, t) by {
        forall c, d | 0 <= c < |e.idle| && 0 <= d < |e.idle|
          ensures Eligible(e.mask, d, e.idle[c]) <==> c == d
        {
          assert Eligible(s.mask, d, s.idle[c]) <==> c == d;
          assert e.mask[e.idle[c]] == s.mask[s.idle[c]];
        }
      }
      QueueRestores(e, t);
      assert e.states[t := READY] == e.states;
    }
  }

  lemma SetPriorityKeeps(s: Sched, t: nat, p: nat)
    requires Inv(s) && t < |s.states|
    ensures Inv(SetPriority(s, t, p))
  {
    var s1 := s.(base := s.base[t := p]);
    forall q, u | 0 <= q < MAX_PRIORITY && u in s1.ready[q]
      ensures QueuedOk(s1, q, u)
    {
      assert QueuedOk(s, q, u);
    }
    forall c | 0 <= c < |s.current|
      ensures CurrentOk(s1, c)
    {
      assert CurrentOk(s, c);
    }
    ReprioritizeKeeps(s1, t, p);
  }

  /** Every step keeps the invariant. */
  lemma StepKeeps(s: Sched, step: Step)
    requires Inv(s) && Enabled(s, step)
    ensures Inv(Apply(s, step))
  {
    match step
    case CreateTask(p, a) => CreateKeeps(s, p, a);
    case StartCore(c) => StartKeeps(s, c);
    case Reschedule(c) => ScheduleKeeps(s, c);
    case BlockCurrent(c) => BlockKeeps(s, c);
    case Wake(t) => WakeSafeIff(s, t);
    case ChangePriority(t, p) => SetPriorityKeeps(s, t, p);
  }

  lemma {:induction false} RunsKeep(cores: nat, steps: seq<Step>, s: Sched)
    requires RunsTo(Boot(cores), steps, s)
    ensures Inv(s)
  {
    if steps == [] {
      BootInv(cores);
    } else {
      var mid := LastStep(Boot(cores), steps, s);
      RunsKeep(cores, steps[..|steps| - 1], mid);
      StepKeeps(mid, steps[|steps| - 1]);
    }
  }

  /** The scheduler's safety over whole runs. */
  lemma SchedulerSafe(cores: nat, steps: seq<Step>, s: Sched)
    requires RunsTo(Boot(cores), steps, s)
    // no task is current on two cores
    ensures forall c, d | 0 <= c < d < |s.current| && s.current[c] != -1 :: s.current[c] != s.current[d]
    // each task sits in at most one place of one queue
    ensures |s.ready| == MAX_PRIORITY
    ensures forall p, q, i, j | 0 <= p < MAX_PRIORITY && 0 <= q < MAX_PRIORITY && 0 <= i < |s.ready[p]| && 0 <= j < |s.ready[q]| ::
              s.ready[p][i] == s.ready[q][j] ==> p == q && i == j
    // every queued task is ready and runs on no core
    ensures forall p, t | 0 <= p < MAX_PRIORITY && t in s.ready[p] ::
              t < |s.states| && s.states[t] == READY && t !in s.current
    // a core runs only tasks whose affinity mask has its bit
    ensures forall c: nat | c < |s.current| && s.current[c] != -1 ::
              0 <= s.current[c] < |s.mask| && Bit(s.mask[s.current[c]], c)
    // no ready task is forgotten: it is queued, or an idle task that has not run yet
    ensures |s.states| == |s.prio|
    ensures forall t: nat | t < |s.states| && s.states[t] == READY && t !in s.idle :: t in s.ready[Level(s.prio[t])]
  {
    RunsKeep(cores, steps, s);
    forall p, q, i, j | 0 <= p < MAX_PRIORITY && 0 <= q < MAX_PRIORITY && 0 <= i < |s.ready[p]| && 0 <= j < |s.ready[q]|
      && s.ready[p][i] == s.ready[q][j]
      ensures p == q && i == j
    {
      assert QueuedOk(s, p, s.ready[p][i]) && QueuedOk(s, q, s.ready[q][j]);
    }
    forall p, t | 0 <= p < MAX_PRIORITY && t in s.ready[p]
      ensures t < |s.states| && s.states[t] == READY && t !in s.current
    {
      assert QueuedOk(s, p, t);
    }
    forall c: nat | c < |s.current| && s.current[c] != -1
      ensures 0 <= s.current[c] < |s.mask| && Bit(s.mask[s.current[c]], c)
    {
      assert CurrentOk(s, c);
      AndPow2(s.mask[s.current[c]], c);
    }
  }

  // ----- Which task is chosen ----------------------------------------------

  /** No task eligible on core c waits at level p or above. */
  ghost predicate NoneEligibleFrom(s: Sched, c: nat, p: nat)
    requires Shape(s)
  {
    forall q, t | p <= q < MAX_PRIORITY && t in s.ready[q] :: !EligibleTask(s, c, t)
  }

  ghost predicate EligibleTask(s: Sched, c: nat, t: nat) {
    t < |s.mask| && Eligible(s.mask, c, t)
  }

  lemma {:induction false} FirstEligibleIsFirst(mask: seq<nat>, c: nat, l: seq<nat>) returns (i: nat)
    requires forall k | 0 <= k < |l| :: l[k] < |mask|
    requires FirstEligible(mask, c, l) != -1
    ensures i < |l| && l[i] == FirstEligible(mask, c, l) && Eligible(mask, c, l[i])
    ensures forall k | 0 <= k < i :: !Eligible(mask, c, l[k])
  {
    if Eligible(mask, c, l[0]) {
      i := 0;
    } else {
      i := FirstEligibleIsFirst(mask, c, l[1..]);
      i := i + 1;
    }
  }

  /** Below level p: the first eligible task of the highest level that has one, or the idle task. */
  lemma {:induction false} SelectBelowIsTop(s: Sched, c: nat, p: nat)
    requires Shape(s) && c < |s.current| && p <= MAX_PRIORITY && NoneEligibleFrom(s, c, p)
    ensures var t := SelectBelow(s, c, p);
            || (t == s.idle[c] && NoneEligibleFrom(s, c, 0))
            || (exists q: nat, i: nat :: IsTopChoice(s, c, q, i) && s.ready[q][i] == t)
  {
    if p != 0 {
      var l := s.ready[p - 1];
      FirstEligibleFits(s.mask, c, l);
      if FirstEligible(s.mask, c, l) != -1 {
        var i := FirstEligibleIsFirst(s.mask, c, l);
        assert IsTopChoice(s, c, p - 1, i);
      } else {
        SelectBelowIsTop(s, c, p - 1);
      }
    }
  }

  /** Position i of level q holds the first eligible task of the highest level that has one. */
  ghost predicate IsTopChoice(s: Sched, c: nat, q: nat, i: nat)
    requires Shape(s)
  {
    && q < MAX_PRIORITY && i < |s.ready[q]|
    && NoneEligibleFrom(s, c, q + 1)
    && EligibleTask(s, c, s.ready[q][i])
    && forall k | 0 <= k < i :: !EligibleTask(s, c, s.ready[q][k])
  }

  /** sched_schedule runs the first eligible task of the highest level that has
      one, the running task having joined the end of its queue; failing that, the idle task. */
  lemma ScheduleIsTop(s: Sched, c: nat)
    requires Shape(s) && c < |s.current|
    ensures Shape(Requeue(s, c)) && |Schedule(s, c).current| == |s.current|
    ensures var r, t := Requeue(s, c), Schedule(s, c).current[c];
            || (t == s.idle[c] && NoneEligibleFrom(r, c, 0))
            || (exists q: nat, i: nat :: IsTopChoice(r, c, q, i) && r.ready[q][i] == t)
  {
    RequeueShape(s, c);
    SelectBelowIsTop(Requeue(s, c), c, MAX_PRIORITY);
  }
}

/** What each scheduler step does to the whole state, said of the state after it. */
module StepEffects {
  import opened Bits
  import opened Sequences
  import opened TaskData
  import opened Scheduling
  import opened SchedulerSafety
  import opened SchedulerRuns

  // ----- Levels ------------------------------------------------------------

  /** The four queues are in the order of priorities, the last one for all from 3 on. */
  lemma LevelOrder(p: nat, q: nat)
    ensures Level(p) < Level(q) <==> p < q && p < 3
    ensures p < 4 ==> Level(p) == p
  {
  }

  // ----- Boot --------------------------------------------------------------

  /** Core c's idle task is task c: of the lowest priority, ready, for that core only, in no queue. */
  lemma BootEffect(cores: nat, c: nat)
    requires c < cores
    ensures var s := Boot(cores);
            && Shape(s) && |s.states| == |s.current| == cores && s.current[c] == -1 && s.idle[c] == c
            && s.states[c] == READY && s.prio[c] == s.base[c] == 0
            && (forall d: nat | d < cores :: Bit(s.mask[c], d) <==> d == c)
            && forall q | 0 <= q < MAX_PRIORITY :: s.ready[q] == []
  {
    BootInv(cores);
    forall d: nat
      ensures Bit(Pow2(c), d) <==> d == c
    {
      BitOfPow2(c, d);
    }
  }

  // ----- Creation ----------------------------------------------------------

  /** The task numbered next: it may run on the cores of the given mask, or on all for a mask of 0. */
  lemma CreateEffect(s: Sched, prio: nat, affinity: nat)
    requires Shape(s)
    ensures var n, t := Create(s, prio, affinity), |s.states|;
            if t >= 16 then n == s
            else
              && Shape(n) && |n.states| == t + 1
              && n.states[..t] == s.states && n.prio[..t] == s.prio && n.base[..t] == s.base && n.mask[..t] == s.mask
              && n.current == s.current && n.idle == s.idle
              && n.states[t] == READY && n.prio[t] == n.base[t] == prio
              && (forall c: nat | c < |s.current| :: Bit(n.mask[t], c) <==> affinity == 0 || Bit(affinity, c))
              && forall q | 0 <= q < MAX_PRIORITY :: n.ready[q] == s.ready[q] + if q == Level(prio) then [t] else []
  {
    if |s.states| < MAX_TASKS {
      var e, t, n := Extend(s, prio, affinity), |s.states|, Create(s, prio, affinity);
      assert n == e.(ready := n.ready) by {
        assert e.states[t := READY] == e.states;
      }
      forall c: nat | c < |s.current|
        ensures Bit(n.mask[t], c) <==> affinity == 0 || Bit(affinity, c)
      {
        BitOfOnes(|s.current|, c);
      }
    }
  }

  // ----- Priorities --------------------------------------------------------

  /** A ready task goes behind all others of its new level; any other keeps the queues as they are. */
  lemma SetPriorityEffect(s: Sched, t: nat, p: nat)
    requires Inv(s) && t < |s.states|
    ensures var n := SetPriority(s, t, p);
            && n.prio == s.prio[t := p] && n.base == s.base[t := p]
            && n.(prio := s.prio, base := s.base, ready := s.ready) == s && |n.ready| == MAX_PRIORITY
            && forall q | 0 <= q < MAX_PRIORITY ::
                 n.ready[q] == if s.states[t] != READY then s.ready[q] else Without(s.ready[q], t) + if q == Level(p) then [t] else []
  {
    BaseKeeps(s, t, p);
    ReprioritizeMoves(s.(base := s.base[t := p]), t, p);
  }

  lemma BaseKeeps(s: Sched, t: nat, p: nat)
    requires Inv(s) && t < |s.states|
    ensures Inv(s.(base := s.base[t := p]))
  {
    var s1 := s.(base := s.base[t := p]);
    forall q, u | 0 <= q < MAX_PRIORITY && u in s1.ready[q]
      ensures QueuedOk(s1, q, u)
    {
      assert QueuedOk(s, q, u);
    }
    forall c | 0 <= c < |s.current|
      ensures CurrentOk(s1, c)
    {
      assert CurrentOk(s, c);
    }
  }

  /** Inheritance raises a lower priority and leaves everything as it is for a higher one. */
  lemma BoostEffect(s: Sched, t: nat, p: nat)
    requires Inv(s) && t < |s.states|
    ensures var n := Boost(s, t, p);
            if p <= s.prio[t] then n == s
            else
              && n.prio == s.prio[t := p] && n.(prio := s.prio, ready := s.ready) == s && |n.ready| == MAX_PRIORITY
              && forall q | 0 <= q < MAX_PRIORITY ::
                   n.ready[q] == if s.states[t] != READY then s.ready[q] else Without(s.ready[q], t) + if q == Level(p) then [t] else []
  {
    ReprioritizeMoves(s, t, p);
  }

  // ----- Blocking and waking -----------------------------------------------

  lemma BlockEffect(s: Sched, t: nat)
    requires Inv(s) && t < |s.states|
    ensures var n := Block(s, t);
            && n.states == s.states[t := BLOCKED] && n.(states := s.states, ready := s.ready) == s && |n.ready| == MAX_PRIORITY
            && forall q | 0 <= q < MAX_PRIORITY :: n.ready[q] == Without(s.ready[q], t)
  {
    QueuesOkOneQueue(s);
    RemoveReadyRemoves(s.(states := s.states[t := BLOCKED]), t);
  }

  /** A woken task joins the tail of its level; all others keep their places. */
  lemma WakeEffect(s: Sched, t: nat)
    requires Shape(s) && t < |s.states|
    ensures var n := MakeReady(s, t);
            && Shape(n) && n.states == s.states[t := READY] && n.(states := s.states, ready := s.ready) == s && |n.ready| == MAX_PRIORITY
            && forall q | 0 <= q < MAX_PRIORITY :: n.ready[q] == s.ready[q] + if q == Level(s.prio[t]) then [t] else []
  {
    assert s.states[t := READY][t := READY] == s.states[t := READY];
  }

  // ----- Dispatching -------------------------------------------------------

  ghost predicate WasRunning(s: Sched, c: nat)
    requires Shape(s) && c < |s.current|
  {
    s.current[c] != -1 && s.states[s.current[c]] == RUNNING
  }

  /** Level q as a reschedule of core c searches it: the task that was running is last of its level. */
  ghost function Line(s: Sched, c: nat, q: nat): (l: seq<nat>)
    requires Shape(s) && c < |s.current| && q < MAX_PRIORITY
    ensures Below(l, |s.mask|)
  {
    s.ready[q] + if WasRunning(s, c) && Level(s.prio[s.current[c]]) == q then [s.current[c]] else []
  }

  /** Task u stands in level q of the line and may run on core c. */
  ghost predicate InLine(s: Sched, c: nat, q: nat, u: nat)
    requires Shape(s) && c < |s.current|
  {
    q < MAX_PRIORITY && u in Line(s, c, q) && Bit(s.mask[u], c)
  }

  /** t is the first of its level that may run on core c, and of the highest priority among all that may,
      priorities from 3 on counting as one; if none may, it is the core's idle task. */
  ghost predicate IsChoice(s: Sched, c: nat, t: nat)
    requires Shape(s) && c < |s.current|
  {
    || (t == s.idle[c] && forall q: nat, u: nat :: !InLine(s, c, q, u))
    || (exists q: nat, i: nat :: IsFirst(s, c, q, i, t) && NoneHigher(s, c, t))
  }

  ghost predicate IsFirst(s: Sched, c: nat, q: nat, i: nat, t: nat)
    requires Shape(s) && c < |s.current|
  {
    && InLine(s, c, q, t) && i < |Line(s, c, q)| && Line(s, c, q)[i] == t
    && forall k | 0 <= k < i :: !Bit(s.mask[Line(s, c, q)[k]], c)
  }

  ghost predicate NoneHigher(s: Sched, c: nat, t: nat)
    requires Shape(s) && c < |s.current| && t < |s.prio|
  {
    forall q: nat, u: nat :: InLine(s, c, q, u) ==> s.prio[u] <= s.prio[t] || s.prio[t] >= 3
  }

  lemma RequeueIsLine(s: Sched, c: nat)
    requires Inv(s) && c < |s.current|
    ensures Shape(Requeue(s, c)) && Inv(Vacate(Requeue(s, c), c))
    ensures forall q | 0 <= q < MAX_PRIORITY :: Requeue(s, c).ready[q] == Line(s, c, q)
    ensures Requeue(s, c).(states := s.states, ready := s.ready) == s
    ensures Requeue(s, c).states == if WasRunning(s, c) then s.states[s.current[c] := READY] else s.states
  {
    RequeueVacates(s, c);
  }

  lemma ChoiceIsTop(s: Sched, c: nat)
    requires Inv(s) && c < |s.current|
    ensures Shape(Requeue(s, c)) && IsChoice(s, c, Select(Requeue(s, c), c))
  {
    RequeueIsLine(s, c);
    var r := Requeue(s, c);
    hide Inv;
    hide Requeue;
    hide Line;
    forall u: nat | u < |s.mask|
      ensures EligibleTask(r, c, u) <==> Bit(s.mask[u], c)
    {
      AndPow2(s.mask[u], c);
    }
    SelectBelowIsTop(r, c, MAX_PRIORITY);
    hide Eligible;
    hide Bit;
    hide Shape;
    assert forall q: nat, u: nat | InLine(s, c, q, u) :: u in r.ready[q] && EligibleTask(r, c, u);
    if !NoneEligibleFrom(r, c, 0) {
      var q: nat, i: nat :| IsTopChoice(r, c, q, i) && r.ready[q][i] == Select(r, c);
      TopIsFirst(s, c, r, q, i);
    }
  }

  lemma TopIsFirst(s: Sched, c: nat, r: Sched, q: nat, i: nat)
    requires Inv(s) && Shape(s) && c < |s.current| && Shape(r) && IsTopChoice(r, c, q, i) && r.mask == s.mask && |r.current| == |s.current|
    requires forall p | 0 <= p < MAX_PRIORITY :: r.ready[p] == Line(s, c, p)
    requires forall u: nat | u < |s.mask| :: EligibleTask(r, c, u) <==> Bit(s.mask[u], c)
    ensures IsFirst(s, c, q, i, r.ready[q][i]) && NoneHigher(s, c, r.ready[q][i])
  {
    hide Inv;
    hide Line;
    hide Bit;
    hide Eligible;
    var t := r.ready[q][i];
    assert IsFirst(s, c, q, i, t);
    LineLevels(s, c, q, t);
    forall p: nat, u: nat | InLine(s, c, p, u)
      ensures s.prio[u] <= s.prio[t] || s.prio[t] >= 3
    {
      LineLevels(s, c, p, u);
      assert p <= q by {
        assert EligibleTask(r, c, u) && u in r.ready[p];
      }
    }
  }

  lemma LineLevels(s: Sched, c: nat, q: nat, u: nat)
    requires Inv(s) && c < |s.current| && InLine(s, c, q, u)
    ensures Level(s.prio[u]) == q
  {
    if u in s.ready[q] {
      assert QueuedOk(s, q, u);
    }
  }

  /** What dispatching t on core c makes of a requeued state. */
  ghost predicate Dispatched(s: Sched, c: nat, n: Sched)
    requires Shape(s) && c < |s.current|
  {
    && |n.current| == |s.current| && 0 <= n.current[c] < |s.states|
    && var t := n.current[c];
    && IsChoice(s, c, t)
    && n.current == s.current[c := t]
    && n.states == (if WasRunning(s, c) then s.states[s.current[c] := READY] else s.states)[t := RUNNING]
    && n.(current := s.current, states := s.states, ready := s.ready) == s && |n.ready| == MAX_PRIORITY
    && forall q | 0 <= q < MAX_PRIORITY :: n.ready[q] == Without(Line(s, c, q), t)
  }

  /** sched_schedule: the task that was running is put back, and the choice is taken off its queue and runs. */
  lemma ScheduleEffect(s: Sched, c: nat)
    requires Inv(s) && c < |s.current|
    ensures Dispatched(s, c, Schedule(s, c))
  {
    RequeueIsLine(s, c);
    ChoiceIsTop(s, c);
    hide Inv;
    hide Requeue;
    hide IsChoice;
    var r := Requeue(s, c);
    VacatedQueues(Vacate(r, c));
    QueuesOkOneQueue(Vacate(r, c));
    RemoveReadyRemoves(r, Select(r, c));
  }

  lemma VacatedQueues(s: Sched)
    requires Inv(s)
    ensures Shape(s) && QueuesOk(s)
  {
  }

  /** sched_start: the same, no task having run on the core before. */
  lemma StartEffect(s: Sched, c: nat)
    requires Inv(s) && c < |s.current| && s.current[c] == -1
    ensures Dispatched(s, c, Start(s, c))
  {
    ScheduleEffect(s, c);
  }

  // ----- Affinity over runs ------------------------------------------------

  /** No step changes the affinity of a task once created. */
  lemma StepKeepsMask(s: Sched, step: Step, s': Sched, t: nat)
    requires Inv(s) && OneStep(s, step, s') && t < |s.mask|
    ensures Inv(s') && t < |s'.mask| && s'.mask[t] == s.mask[t]
  {
    StepKeeps(s, step);
    match step
    case CreateTask(p, a) => CreateEffect(s, p, a);
    case StartCore(c) => StartEffect(s, c);
    case Reschedule(c) => ScheduleEffect(s, c);
    case BlockCurrent(c) => BlockEffect(s, s.current[c]);
    case Wake(u) => WakeEffect(s, u);
    case ChangePriority(u, p) => SetPriorityEffect(s, u, p);
  }

  lemma {:induction false} RunKeepsMask(s0: Sched, steps: seq<Step>, s: Sched, t: nat)
    requires Inv(s0) && RunsTo(s0, steps, s) && t < |s0.mask|
    ensures Inv(s) && t < |s.mask| && s.mask[t] == s0.mask[t]
    decreases |steps|
  {
    if steps != [] {
      var mid := LastStep(s0, steps, s);
      RunKeepsMask(s0, steps[..|steps| - 1], mid, t);
      StepKeepsMask(mid, steps[|steps| - 1], s, t);
    }
  }

  /** A task created for some cores runs on these only, as long as the kernel runs. */
  lemma AffinityHonoured(cores: nat, first: seq<Step>, mid: Sched, prio: nat, affinity: nat, created: Sched,
                         later: seq<Step>, s: Sched, c: nat)
    requires RunsTo(Boot(cores), first, mid) && |mid.states| < 16 && affinity != 0
    requires OneStep(mid, CreateTask(prio, affinity), created) && RunsTo(created, later, s)
    requires c < |s.current| && s.current[c] == |mid.states|
    ensures Bit(affinity, c)
  {
    var t := |mid.states|;
    RunsKeep(cores, first, mid);
    CreateEffect(mid, prio, affinity);
    StepKeeps(mid, CreateTask(prio, affinity));
    RunKeepsMask(created, later, s, t);
    RunKeepsCores(created, later, s);
    assert CurrentOk(s, c);
    AndPow2(s.mask[t], c);
  }

  lemma {:induction false} RunKeepsCores(s0: Sched, steps: seq<Step>, s: Sched)
    requires Inv(s0) && RunsTo(s0, steps, s)
    ensures Inv(s) && |s.current| == |s0.current|
    decreases |steps|
  {
    if steps != [] {
      var mid := LastStep(s0, steps, s);
      RunKeepsCores(s0, steps[..|steps| - 1], mid);
      StepKeeps(mid, steps[|steps| - 1]);
    }
  }
}

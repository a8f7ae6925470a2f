/** The scheduler of daniertos/v3-smp on values: ready queues, per-core current
    tasks, and the steps taken under the scheduler lock. */
module Scheduling {
  import opened Bits
  import opened Sequences
  import opened TaskData

  const MAX_PRIORITY: nat := 4

  datatype Sched = Sched(
    ready: seq<seq<nat>>,       // one queue per priority level
    current: seq<int>,          // the task each core runs, or -1
    states: seq<TaskState>,
    prio: seq<nat>,
    base: seq<nat>,
    mask: seq<nat>,             // affinity masks
    idle: seq<nat>)             // the idle task of each core

  ghost predicate Shape(s: Sched) {
    && |s.ready| == MAX_PRIORITY
    && |s.prio| == |s.base| == |s.mask| == |s.states|
    && |s.idle| == |s.current|
    && (forall p | 0 <= p < MAX_PRIORITY :: Below(s.ready[p], |s.states|))
    && (forall c | 0 <= c < |s.current| :: -1 <= s.current[c] < |s.states|)
    && (forall c | 0 <= c < |s.idle| :: s.idle[c] < |s.states|)
  }

  // ----- The operations ----------------------------------------------------

  /** Priorities above the range share the top queue. */
  function Level(p: nat): nat {
    if p >= MAX_PRIORITY then MAX_PRIORITY - 1 else p
  }

  /** sched_add_ready. */
  function AddReady(s: Sched, t: nat): Sched
    requires Shape(s) && t < |s.states|
  {
    if s.states[t] == DELETED then s
    else
      var l := Level(s.prio[t]);
      s.(ready := s.ready[l := s.ready[l] + [t]], states := s.states[t := READY])
  }

  /** The fallback scan of sched_remove_ready over levels p and up. */
  function RemoveAnywhere(ready: seq<seq<nat>>, t: nat, p: nat): seq<seq<nat>>
    requires p <= |ready|
    decreases |ready| - p
  {
    if p == |ready| then ready
    else if t in ready[p] then ready[p := Without(ready[p], t)]
    else RemoveAnywhere(ready, t, p + 1)
  }

  /** sched_remove_ready: looks at the task's own level first, then everywhere. */
  function RemoveReady(s: Sched, t: nat): Sched
    requires Shape(s) && t < |s.states|
  {
    var l := Level(s.prio[t]);
    if t in s.ready[l] then s.(ready := s.ready[l := Without(s.ready[l], t)])
    else s.(ready := RemoveAnywhere(s.ready, t, 0))
  }

  /** The affinity test: mask & (1 << core). */
  predicate Eligible(mask: seq<nat>, c: nat, t: nat)
    requires t < |mask|
  {
    And(mask[t], Pow2(c)) != 0
  }

  function FirstEligible(mask: seq<nat>, c: nat, l: seq<nat>): (t: int)
    requires forall i | 0 <= i < |l| :: l[i] < |mask|
    ensures t == -1 || t in l
  {
    if l == [] then -1
    else if Eligible(mask, c, l[0]) then l[0]
    else FirstEligible(mask, c, l[1..])
  }

  /** The search through the levels below p, from the top; the idle task if all fail. */
  function SelectBelow(s: Sched, c: nat, p: nat): (t: nat)
    requires Shape(s) && c < |s.current| && p <= MAX_PRIORITY
    ensures t < |s.states|
  {
    if p == 0 then s.idle[c]
    else
      var t := FirstEligible(s.mask, c, s.ready[p - 1]);
      if t != -1 then t else SelectBelow(s, c, p - 1)
  }

  /** select_next_task_for_core. */
  function Select(s: Sched, c: nat): (t: nat)
    requires Shape(s) && c < |s.current|
    ensures t < |s.states|
  {
    SelectBelow(s, c, MAX_PRIORITY)
  }

  /** Takes t off the ready queues and makes it core c's running task. */
  function Dispatch(s: Sched, c: nat, t: nat): Sched
    requires Shape(s) && c < |s.current| && t < |s.states|
  {
    var r := RemoveReady(s, t);
    r.(states := r.states[t := RUNNING], current := r.current[c := t])
  }

  /** The first half of sched_schedule: a running task goes to the end of its queue. */
  function Requeue(s: Sched, c: nat): Sched
    requires Shape(s) && c < |s.current|
  {
    var t := s.current[c];
    if t != -1 && s.states[t] == RUNNING then AddReady(s.(states := s.states[t := READY]), t) else s
  }

  /** sched_start on core c. */
  function Start(s: Sched, c: nat): Sched
    requires Shape(s) && c < |s.current|
  {
    Dispatch(s, c, Select(s, c))
  }

  /** sched_schedule on core c. */
  function Schedule(s: Sched, c: nat): Sched
    requires Shape(s) && c < |s.current|
  {
    RequeueShape(s, c);
    Start(Requeue(s, c), c)
  }

  /** task_block. */
  function Block(s: Sched, t: nat): Sched
    requires Shape(s) && t < |s.states|
  {
    RemoveReady(s.(states := s.states[t := BLOCKED]), t)
  }

  /** task_make_ready. */
  function MakeReady(s: Sched, t: nat): Sched
    requires Shape(s) && t < |s.states|
  {
    AddReady(s.(states := s.states[t := READY]), t)
  }

  /** A new effective priority, with the task moved to its new queue if it is ready. */
  function Reprioritize(s: Sched, t: nat, p: nat): Sched
    requires Shape(s) && t < |s.states|
  {
    var s1 := s.(prio := s.prio[t := p]);
    RemoveShape(s1, t);
    if s.states[t] == READY then AddReady(RemoveReady(s1, t), t) else s1
  }

  /** Raises t to at least priority p. */
  function Boost(s: Sched, t: nat, p: nat): Sched
    requires Shape(s) && t < |s.states|
  {
    if s.prio[t] < p then Reprioritize(s, t, p) else s
  }

  /** task_set_priority. */
  function SetPriority(s: Sched, t: nat, p: nat): Sched
    requires Shape(s) && t < |s.states|
  {
    Reprioritize(s.(base := s.base[t := p]), t, p)
  }

  // ----- Shapes ------------------------------------------------------------

  lemma RequeueShape(s: Sched, c: nat)
    requires Shape(s) && c < |s.current|
    ensures Shape(Requeue(s, c)) && |Requeue(s, c).current| == |s.current|
  {
  }

  lemma {:induction false} RemoveAnywhereShape(ready: seq<seq<nat>>, t: nat, p: nat, n: nat)
    requires p <= |ready|
    requires forall q | 0 <= q < |ready| :: Below(ready[q], n)
    ensures |RemoveAnywhere(ready, t, p)| == |ready|
    ensures forall q | 0 <= q < |ready| :: Below(RemoveAnywhere(ready, t, p)[q], n)
    decreases |ready| - p
  {
    if p < |ready| {
      if t in ready[p] {
        WithoutBelow(ready[p], t, n);
      } else {
        RemoveAnywhereShape(ready, t, p + 1, n);
      }
    }
  }

  lemma RemoveShape(s: Sched, t: nat)
    requires Shape(s) && t < |s.states|
    ensures Shape(RemoveReady(s, t))
  {
    WithoutBelow(s.ready[Level(s.prio[t])], t, |s.states|);
    RemoveAnywhereShape(s.ready, t, 0, |s.states|);
  }

  lemma BoostShape(s: Sched, t: nat, p: nat)
    requires Shape(s) && t < |s.states|
    ensures Shape(Boost(s, t, p)) && |Boost(s, t, p).states| == |s.states|
  {
    RemoveShape(s.(prio := s.prio[t := p]), t);
  }
}

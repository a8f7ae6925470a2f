/** The order a wait queue keeps: by priority, and first come first served within one priority. */
module WaitOrder {
  import opened Sequences
  import opened TaskData
  import opened Scheduling
  import opened SchedulerSafety
  import opened SchedulerRuns

  /** How an attempt to take a mutex or a semaphore turns out. */
  datatype Outcome = TAKEN | REFUSED | MUST_WAIT

  /** The task the one core holds, or -1. */
  function Caller(s: Sched): int {
    if |s.current| == 0 then -1 else s.current[0]
  }

  /** A task that is not idle executes on the core. */
  ghost predicate Executes(s: Sched) {
    Shape(s) && Caller(s) != -1 && s.states[Caller(s)] == RUNNING && !IsIdle(s, Caller(s))
  }

  /** u is to be woken before v: it has the higher priority, or the same one and waits longer. */
  ghost predicate Before(prio: seq<nat>, since: map<nat, nat>, u: nat, v: nat) {
    && u < |prio| && v < |prio| && u in since && v in since
    && (prio[u] > prio[v] || (prio[u] == prio[v] && since[u] < since[v]))
  }

  ghost predicate Ordered(prio: seq<nat>, since: map<nat, nat>, ids: seq<nat>) {
    forall i, j | 0 <= i < j < |ids| :: Before(prio, since, ids[i], ids[j])
  }

  /** Every waiter is blocked and began to wait before `now`. */
  ghost predicate Waiting(s: Sched, since: map<nat, nat>, now: nat, ids: seq<nat>) {
    forall i | 0 <= i < |ids| :: IsWaiting(s, since, now, ids[i])
  }

  ghost predicate IsWaiting(s: Sched, since: map<nat, nat>, now: nat, w: nat) {
    w < |s.states| && w < |s.prio| && s.states[w] == BLOCKED && w in since && since[w] < now
  }

  ghost predicate WaitInv(s: Sched, since: map<nat, nat>, now: nat, ids: seq<nat>) {
    Waiting(s, since, now, ids) && Ordered(s.prio, since, ids)
  }

  lemma {:induction false} InsertOrdered(prio: seq<nat>, since: map<nat, nat>, now: nat, ids: seq<nat>, t: nat)
    requires t < |prio| && t !in ids
    requires forall i | 0 <= i < |ids| :: ids[i] < |prio| && ids[i] in since && since[ids[i]] < now
    requires Ordered(prio, since, ids)
    ensures Ordered(prio, since[t := now], InsertByPriority(prio, ids, t))
  {
    if ids != [] && prio[ids[0]] >= prio[t] {
      var rest := InsertByPriority(prio, ids[1..], t);
      InsertOrdered(prio, since, now, ids[1..], t);
      InsertByPriorityMembers(prio, ids[1..], t);
      forall j | 0 <= j < |rest|
        ensures Before(prio, since[t := now], ids[0], rest[j])
      {
        assert rest[j] in rest;
        if rest[j] != t {
          var i :| 0 <= i < |ids[1..]| && ids[1..][i] == rest[j];
          assert Before(prio, since, ids[0], ids[i + 1]);
        }
      }
    } else {
      forall j | 0 <= j < |ids|
        ensures Before(prio, since[t := now], t, ids[j])
      {
        if j > 0 {
          assert Before(prio, since, ids[0], ids[j]);
        }
      }
      forall i, j | 0 <= i < j < |ids|
        ensures Before(prio, since[t := now], ids[i], ids[j])
      {
        assert Before(prio, since, ids[i], ids[j]);
      }
    }
  }

  /** A task that starts to wait. */
  lemma WaitAdd(s: Sched, since: map<nat, nat>, now: nat, ids: seq<nat>, s': Sched, t: nat)
    requires WaitInv(s, since, now, ids) && t < |s.states| == |s.prio| && s.states[t] != BLOCKED
    requires s'.prio == s.prio && s'.states == s.states[t := BLOCKED]
    ensures t !in ids && Below(ids, |s.prio|)
    ensures WaitInv(s', since[t := now], now + 1, InsertByPriority(s.prio, ids, t))
  {
    forall i | 0 <= i < |ids|
      ensures ids[i] < |s.prio| && ids[i] in since && since[ids[i]] < now && ids[i] != t
    {
      assert IsWaiting(s, since, now, ids[i]);
    }
    InsertOrdered(s.prio, since, now, ids, t);
    InsertByPriorityMembers(s.prio, ids, t);
    var more := InsertByPriority(s.prio, ids, t);
    forall i | 0 <= i < |more|
      ensures IsWaiting(s', since[t := now], now + 1, more[i])
    {
      assert more[i] in more;
    }
  }

  /** The waiters keep their priorities and stay blocked. */
  ghost predicate Undisturbed(s: Sched, s': Sched, ids: seq<nat>) {
    forall w | w in ids :: w < |s.states| && w < |s.prio| ==>
      w < |s'.states| && w < |s'.prio| && s'.prio[w] == s.prio[w] && (s.states[w] == BLOCKED ==> s'.states[w] == BLOCKED)
  }

  lemma WaitKept(s: Sched, since: map<nat, nat>, now: nat, ids: seq<nat>, s': Sched, later: nat)
    requires WaitInv(s, since, now, ids) && Undisturbed(s, s', ids) && now <= later
    ensures WaitInv(s', since, later, ids)
  {
    forall i | 0 <= i < |ids|
      ensures IsWaiting(s', since, later, ids[i])
    {
      assert IsWaiting(s, since, now, ids[i]);
    }
    forall i, j | 0 <= i < j < |ids|
      ensures Before(s'.prio, since, ids[i], ids[j])
    {
      assert Before(s.prio, since, ids[i], ids[j]);
      assert IsWaiting(s, since, now, ids[i]) && IsWaiting(s, since, now, ids[j]);
    }
  }

  /** The first waiter is taken off and is none of the others. */
  lemma WaitPop(s: Sched, since: map<nat, nat>, now: nat, ids: seq<nat>)
    requires WaitInv(s, since, now, ids) && ids != []
    ensures WaitInv(s, since, now, ids[1..]) && ids[0] !in ids[1..]
    ensures forall w | w in ids[1..] :: Before(s.prio, since, ids[0], w)
  {
    forall i | 0 <= i < |ids[1..]|
      ensures IsWaiting(s, since, now, ids[1..][i]) && Before(s.prio, since, ids[0], ids[1..][i])
    {
      assert IsWaiting(s, since, now, ids[i + 1]);
    }
  }

  // ----- What the kernel's own steps leave alone ----------------------------

  /** No step but its wake-up unblocks a task, and no step but a priority change
      touches priorities. */
  ghost predicate StepFrame(s: Sched, step: Step, s': Sched) {
    && Shape(s) && Shape(s') && |s'.states| >= |s.states|
    && |s'.current| == |s.current| && s'.idle == s.idle
    && (forall t: nat | t < |s.states| && s.states[t] == BLOCKED && step != Wake(t) :: s'.states[t] == BLOCKED)
    && (forall t: nat | t < |s.states| && !(step.ChangePriority? && step.task == t) ::
          s'.prio[t] == s.prio[t] && s'.base[t] == s.base[t])
    && (forall t: nat | t < |s'.states| && (t >= |s.states| || (step.ChangePriority? && step.task == t)) ::
          s'.prio[t] == s'.base[t])
  }

  lemma StartFrame(s: Sched, c: nat)
    requires Inv(s) && c < |s.current|
    requires s.current[c] == -1
    ensures StepFrame(s, StartCore(c), Start(s, c))
  {
    StartKeeps(s, c);
    SelectFits(s, c, MAX_PRIORITY);
  }

  lemma ScheduleFrame(s: Sched, c: nat)
    requires Inv(s) && c < |s.current|
    ensures StepFrame(s, Reschedule(c), Schedule(s, c))
  {
    RequeueVacates(s, c);
    StartIgnoresCurrent(Requeue(s, c), c);
    StartFrame(Vacate(Requeue(s, c), c), c);
    ScheduleKeeps(s, c);
    assert Requeue(s, c).prio == s.prio;
  }

  lemma KernelStepFrame(s: Sched, step: Step)
    requires Inv(s) && Enabled(s, step)
    ensures Inv(Apply(s, step)) && StepFrame(s, step, Apply(s, step))
  {
    StepKeeps(s, step);
    match step
    case CreateTask(p, a) =>
    case StartCore(c) => StartFrame(s, c);
    case Reschedule(c) => ScheduleFrame(s, c);
    case BlockCurrent(c) => BlockKeeps(s, c);
    case Wake(t) =>
    case ChangePriority(t, p) => ChangePriorityFrame(s, t, p);
  }

  lemma ChangePriorityFrame(s: Sched, t: nat, p: nat)
    requires Inv(s) && t < |s.states|
    ensures StepFrame(s, ChangePriority(t, p), SetPriority(s, t, p))
  {
    SetPriorityKeeps(s, t, p);
    var s1 := s.(base := s.base[t := p]);
    RemoveShape(s1.(prio := s1.prio[t := p]), t);
  }
}

/** What every run of the scheduler keeps. */
module SchedulerSafety {
  import opened Bits
  import opened Sequences
  import opened TaskData
  import opened Scheduling

  // ----- The invariant -----------------------------------------------------

  ghost predicate IsIdle(s: Sched, t: nat) {
    t in s.idle
  }

  /** Every queue is duplicate-free and holds ready, non-running tasks of its level. */
  ghost predicate QueuesOk(s: Sched)
    requires Shape(s)
  {
    && (forall p | 0 <= p < MAX_PRIORITY :: Distinct(s.ready[p]))
    && (forall p, t | 0 <= p < MAX_PRIORITY && t in s.ready[p] :: QueuedOk(s, p, t))
  }

  ghost predicate QueuedOk(s: Sched, p: nat, t: nat) {
    && t < |s.states| && t < |s.prio|
    && Level(s.prio[t]) == p && s.states[t] == READY && t !in s.current
  }

  /** No task runs on two cores, each runs where it may, and running tasks are
      current somewhere; the task `but` is exempt from the last. */
  ghost predicate CurrentsOk(s: Sched, but: int)
    requires Shape(s)
  {
    && (forall c, d | 0 <= c < d < |s.current| :: s.current[c] == -1 || s.current[c] != s.current[d])
    && (forall c | 0 <= c < |s.current| :: CurrentOk(s, c))
    && (forall t: nat | t < |s.states| && t != but && s.states[t] == RUNNING :: t in s.current)
  }

  ghost predicate CurrentOk(s: Sched, c: nat)
    requires Shape(s) && c < |s.current|
  {
    s.current[c] != -1 ==> s.states[s.current[c]] != READY && Eligible(s.mask, c, s.current[c])
  }

  /** Idle tasks may run on their own core only, and (`but` excepted) never block. */
  ghost predicate IdlesOk(s: Sched, but: int)
    requires Shape(s)
  {
    && (forall c, d | 0 <= c < |s.idle| && 0 <= d < |s.idle| :: Eligible(s.mask, d, s.idle[c]) <==> c == d)
    && (forall c | 0 <= c < |s.idle| && s.idle[c] != but :: s.states[s.idle[c]] == READY || s.states[s.idle[c]] == RUNNING)
  }

  /** A ready task other than `but` is queued, unless it is an idle task that has not run yet. */
  ghost predicate NoneLost(s: Sched, but: int)
    requires Shape(s)
  {
    forall t: nat | t < |s.states| && t != but && s.states[t] == READY && !IsIdle(s, t) :: t in s.ready[Level(s.prio[t])]
  }

  ghost predicate Inv(s: Sched) {
    Shape(s) && QueuesOk(s) && CurrentsOk(s, -1) && IdlesOk(s, -1) && NoneLost(s, -1)
  }

  /** The invariant for a task t that is neither queued nor current, whatever its state. */
  ghost predicate InvBut(s: Sched, t: nat) {
    && Shape(s) && QueuesOk(s) && t < |s.states|
    && (forall p | 0 <= p < MAX_PRIORITY :: t !in s.ready[p])
    && t !in s.current
    && CurrentsOk(s, t) && IdlesOk(s, t) && NoneLost(s, t)
  }

  // ----- Taking tasks off the queues ---------------------------------------

  /** Each task is in at most one queue. */
  ghost predicate OneQueue(ready: seq<seq<nat>>) {
    forall p, q, t | 0 <= p < |ready| && 0 <= q < |ready| && t in ready[p] && t in ready[q] :: p == q
  }

  lemma {:induction false} RemoveAnywhereRemoves(ready: seq<seq<nat>>, t: nat, p: nat)
    requires p <= |ready| && OneQueue(ready)
    requires forall q | 0 <= q < p :: t !in ready[q]
    ensures |RemoveAnywhere(ready, t, p)| == |ready|
    ensures forall q | 0 <= q < |ready| :: RemoveAnywhere(ready, t, p)[q] == Without(ready[q], t)
    decreases |ready| - p
  {
    if p < |ready| && t !in ready[p] {
      RemoveAnywhereRemoves(ready, t, p + 1);
    } else {
      forall q | 0 <= q < |ready| && q != p
        ensures Without(ready[q], t) == ready[q]
      {
        WithoutAbsent(ready[q], t);
      }
    }
  }

  /** sched_remove_ready removes the task from whichever queue holds it, even a
      queue other than the one of its present priority. */
  lemma RemoveReadyRemoves(s: Sched, t: nat)
    requires Shape(s) && t < |s.states| && OneQueue(s.ready)
    ensures Shape(RemoveReady(s, t))
    ensures RemoveReady(s, t).(ready := s.ready) == s
    ensures forall p | 0 <= p < MAX_PRIORITY :: RemoveReady(s, t).ready[p] == Without(s.ready[p], t)
  {
    RemoveShape(s, t);
    var l := Level(s.prio[t]);
    if t in s.ready[l] {
      forall q | 0 <= q < MAX_PRIORITY && q != l
        ensures Without(s.ready[q], t) == s.ready[q]
      {
        WithoutAbsent(s.ready[q], t);
      }
    } else {
      RemoveAnywhereRemoves(s.ready, t, 0);
    }
  }

  /** task_init's way with an idle task: putting it on its queue and taking it off again
      leaves everything as it was. */
  lemma QueueAndUnqueue(s: Sched, t: nat)
    requires Shape(s) && t < |s.states| && s.states[t] == READY
    requires forall p | 0 <= p < MAX_PRIORITY :: t !in s.ready[p]
    ensures Shape(AddReady(s, t)) && RemoveReady(AddReady(s, t), t) == s
  {
    var l := Level(s.prio[t]);
    WithoutLast(s.ready[l], t);
    assert t in s.ready[l] + [t];
    assert s.states[t := READY] == s.states;
    assert s.ready[l := s.ready[l] + [t]][l := s.ready[l]] == s.ready;
  }

  lemma QueuesOkOneQueue(s: Sched)
    requires Shape(s) && QueuesOk(s)
    ensures OneQueue(s.ready)
  {
    forall p, q, t | 0 <= p < |s.ready| && 0 <= q < |s.ready| && t in s.ready[p] && t in s.ready[q]
      ensures p == q
    {
      assert QueuedOk(s, p, t) && QueuedOk(s, q, t);
    }
  }

  lemma NotQueued(s: Sched, t: nat)
    requires Shape(s) && QueuesOk(s) && t < |s.states|
    requires s.states[t] != READY || t in s.current
    ensures forall p | 0 <= p < MAX_PRIORITY :: t !in s.ready[p]
  {
    forall p | 0 <= p < MAX_PRIORITY
      ensures t !in s.ready[p]
    {
    }
  }

  lemma ReadyNotCurrent(s: Sched, t: nat)
    requires Shape(s) && CurrentsOk(s, -1) && t < |s.states| && s.states[t] == READY
    ensures t !in s.current
  {
    forall c | 0 <= c < |s.current|
      ensures s.current[c] != t
    {
      assert CurrentOk(s, c);
    }
  }

  // ----- A task between two places -----------------------------------------

  /** Queueing such a task restores the invariant. */
  lemma QueueRestores(s: Sched, t: nat)
    requires InvBut(s, t)
    ensures Inv(MakeReady(s, t))
  {
    var s' := MakeReady(s, t);
    var l := Level(s.prio[t]);
    assert s'.ready == s.ready[l := s.ready[l] + [t]] && s'.states == s.states[t := READY];
    forall p, u | 0 <= p < MAX_PRIORITY && u in s'.ready[p]
      ensures QueuedOk(s', p, u)
    {
      if u != t {
        assert QueuedOk(s, p, u);
      }
    }
    forall c | 0 <= c < |s.current|
      ensures CurrentOk(s', c)
    {
      assert CurrentOk(s, c);
    }
  }

  /** Giving such a task to an idle core that may run it restores the invariant. */
  lemma DispatchRestores(s: Sched, c: nat, t: nat)
    requires InvBut(s, t) && c < |s.current| && s.current[c] == -1 && Eligible(s.mask, c, t)
    ensures Inv(s.(states := s.states[t := RUNNING], current := s.current[c := t]))
  {
    var s' := s.(states := s.states[t := RUNNING], current := s.current[c := t]);
    forall p, u | 0 <= p < MAX_PRIORITY && u in s'.ready[p]
      ensures QueuedOk(s', p, u)
    {
      assert QueuedOk(s, p, u);
      assert u != t;
    }
    forall d | 0 <= d < |s.current|
      ensures CurrentOk(s', d)
    {
      assert CurrentOk(s, d);
    }
    forall u: nat | u < |s'.states| && s'.states[u] == RUNNING
      ensures u in s'.current
    {
      if u == t {
        assert s'.current[c] == t;
      } else {
        var d :| 0 <= d < |s.current| && s.current[d] == u;
        assert s'.current[d] == u;
      }
    }
  }

  /** Taking a ready task that no core runs off the queues. */
  lemma RemoveLeaves(s: Sched, t: nat)
    requires Inv(s) && t < |s.states| && t !in s.current
    ensures InvBut(RemoveReady(s, t), t)
    ensures RemoveReady(s, t).(ready := s.ready) == s
  {
    QueuesOkOneQueue(s);
    RemoveReadyRemoves(s, t);
    var s' := RemoveReady(s, t);
    forall p | 0 <= p < MAX_PRIORITY
      ensures Distinct(s'.ready[p]) && t !in s'.ready[p]
      ensures forall u | u in s'.ready[p] :: u in s.ready[p]
      ensures forall u | u in s.ready[p] && u != t :: u in s'.ready[p]
    {
      WithoutMembers(s.ready[p], t);
    }
    forall p, u | 0 <= p < MAX_PRIORITY && u in s'.ready[p]
      ensures QueuedOk(s', p, u)
    {
      assert QueuedOk(s, p, u);
    }
    forall c | 0 <= c < |s.current|
      ensures CurrentOk(s', c)
    {
      assert CurrentOk(s, c);
    }
  }

  // ----- The steps ---------------------------------------------------------

  /** Core c's task is no longer counted as running there. */
  function Vacate(s: Sched, c: nat): Sched
    requires c < |s.current|
  {
    s.(current := s.current[c := -1])
  }

  /** Once the running task has been requeued, the core holds nothing. */
  lemma RequeueVacates(s: Sched, c: nat)
    requires Inv(s) && c < |s.current|
    ensures Shape(Requeue(s, c)) && Inv(Vacate(Requeue(s, c), c))
  {
    var t := s.current[c];
    var v := Vacate(s, c);
    assert CurrentOk(s, c);
    forall p, u | 0 <= p < MAX_PRIORITY && u in v.ready[p]
      ensures QueuedOk(v, p, u)
    {
      assert QueuedOk(s, p, u);
    }
    forall d | 0 <= d < |s.current|
      ensures CurrentOk(v, d)
    {
      assert CurrentOk(s, d);
    }
    forall u: nat | u < |s.states| && u != t && s.states[u] == RUNNING
      ensures u in v.current
    {
      var d :| 0 <= d < |s.current| && s.current[d] == u;
      assert v.current[d] == u;
    }
    if t != -1 && s.states[t] == RUNNING {
      NotQueued(s, t);
      QueueRestores(v, t);
      assert Vacate(Requeue(s, c), c) == MakeReady(v, t);
    }
  }

  lemma {:induction false} FirstEligibleFits(mask: seq<nat>, c: nat, l: seq<nat>)
    requires forall i | 0 <= i < |l| :: l[i] < |mask|
    ensures var t := FirstEligible(mask, c, l);
            if t == -1 then forall u | u in l :: !Eligible(mask, c, u) else t in l && Eligible(mask, c, t)
  {
    if l != [] && !Eligible(mask, c, l[0]) {
      FirstEligibleFits(mask, c, l[1..]);
    }
  }

  /** The selected task may run on the core, and no other core runs it. */
  lemma {:induction false} SelectFits(s: Sched, c: nat, p: nat)
    requires Inv(s) && c < |s.current| && s.current[c] == -1 && p <= MAX_PRIORITY
    ensures var t := SelectBelow(s, c, p);
            Eligible(s.mask, c, t) && t !in s.current && s.states[t] == READY
  {
    if p == 0 {
      var t := s.idle[c];
      forall d | 0 <= d < |s.current|
        ensures s.current[d] != t
      {
        assert CurrentOk(s, d);
      }
    } else {
      FirstEligibleFits(s.mask, c, s.ready[p - 1]);
      var t := FirstEligible(s.mask, c, s.ready[p - 1]);
      if t != -1 {
        assert QueuedOk(s, p - 1, t);
      } else {
        SelectFits(s, c, p - 1);
      }
    }
  }

  /** Dispatching the selected task on a core that holds nothing. */
  lemma StartKeeps(s: Sched, c: nat)
    requires Inv(s) && c < |s.current| && s.current[c] == -1
    ensures Inv(Start(s, c))
  {
    var t := Select(s, c);
    SelectFits(s, c, MAX_PRIORITY);
    RemoveLeaves(s, t);
    DispatchRestores(RemoveReady(s, t), c, t);
  }

  lemma {:induction false} SelectIgnoresCurrent(s: Sched, c: nat, p: nat)
    requires Shape(s) && c < |s.current| && p <= MAX_PRIORITY
    ensures Shape(Vacate(s, c)) && SelectBelow(s, c, p) == SelectBelow(Vacate(s, c), c, p)
  {
    if p != 0 {
      SelectIgnoresCurrent(s, c, p - 1);
    }
  }

  lemma StartIgnoresCurrent(s: Sched, c: nat)
    requires Shape(s) && c < |s.current|
    ensures Shape(Vacate(s, c)) && Start(s, c) == Start(Vacate(s, c), c)
  {
    SelectIgnoresCurrent(s, c, MAX_PRIORITY);
    var t := Select(s, c);
    assert RemoveReady(Vacate(s, c), t) == Vacate(RemoveReady(s, t), c);
    assert s.current[c := -1][c := t] == s.current[c := t];
  }

  lemma ScheduleKeeps(s: Sched, c: nat)
    requires Inv(s) && c < |s.current|
    ensures Inv(Schedule(s, c))
  {
    RequeueVacates(s, c);
    StartIgnoresCurrent(Requeue(s, c), c);
    StartKeeps(Vacate(Requeue(s, c), c), c);
  }

  /** A running task that is not idle blocks; it stays current until its core schedules. */
  lemma BlockKeeps(s: Sched, c: nat)
    requires Inv(s) && c < |s.current| && s.current[c] != -1
    requires s.states[s.current[c]] == RUNNING && !IsIdle(s, s.current[c])
    ensures Inv(Block(s, s.current[c]))
    ensures Block(s, s.current[c]) == s.(states := s.states[s.current[c] := BLOCKED])
  {
    var t := s.current[c];
    var s1 := s.(states := s.states[t := BLOCKED]);
    QueuesOkOneQueue(s);
    RemoveReadyRemoves(s1, t);
    NotQueued(s, t);
    forall p | 0 <= p < MAX_PRIORITY
      ensures Without(s.ready[p], t) == s.ready[p]
    {
      WithoutAbsent(s.ready[p], t);
    }
    assert Block(s, t).ready == s.ready;
    forall p, u | 0 <= p < MAX_PRIORITY && u in s.ready[p]
      ensures QueuedOk(s1, p, u)
    {
      assert QueuedOk(s, p, u);
    }
    forall d | 0 <= d < |s.current|
      ensures CurrentOk(s1, d)
    {
      assert CurrentOk(s, d);
    }
  }

  /** Waking a blocked task is safe exactly when no core still holds it as current. */
  lemma WakeSafeIff(s: Sched, t: nat)
    requires Inv(s) && t < |s.states| && s.states[t] == BLOCKED
    ensures Inv(MakeReady(s, t)) <==> t !in s.current
  {
    if t !in s.current {
      NotQueued(s, t);
      QueueRestores(s, t);
    } else {
      var s' := MakeReady(s, t);
      var l := Level(s.prio[t]);
      assert s'.ready[l][|s.ready[l]|] == t;
      assert t in s'.ready[l] && t in s'.current;
      assert !QueuedOk(s', l, t);
    }
  }

  /** Changing a priority re-sorts a ready task into its new queue. */
  lemma ReprioritizeKeeps(s: Sched, t: nat, p: nat)
    requires Inv(s) && t < |s.states|
    ensures Inv(Reprioritize(s, t, p))
    ensures forall u: nat | u < |s.states| :: Reprioritize(s, t, p).states[u] == s.states[u]
  {
    var s1 := s.(prio := s.prio[t := p]);
    if s.states[t] == READY {
      ReadyNotCurrent(s, t);
      QueuesOkOneQueue(s);
      RemoveReadyRemoves(s, t);
      RemoveReadyRemoves(s1, t);
      RemoveLeaves(s, t);
      var r := RemoveReady(s, t);
      assert RemoveReady(s1, t) == r.(prio := r.prio[t := p]);
      NewPriority(r, t, p);
      QueueRestores(r.(prio := r.prio[t := p]), t);
      assert r.states[t := READY] == r.states;
    } else {
      forall q, u | 0 <= q < MAX_PRIORITY && u in s.ready[q]
        ensures QueuedOk(s1, q, u)
      {
        assert QueuedOk(s, q, u);
      }
      forall c | 0 <= c < |s.current|
        ensures CurrentOk(s1, c)
      {
        assert CurrentOk(s, c);
      }
    }
  }

  /** A ready task goes behind all others of its new level, although it is looked for under the
      new priority; every other task keeps its place, and only t's priority changes. */
  lemma ReprioritizeMoves(s: Sched, t: nat, p: nat)
    requires Inv(s) && t < |s.states|
    ensures var r := Reprioritize(s, t, p);
            && r.prio == s.prio[t := p] && r.(prio := s.prio, ready := s.ready) == s
            && |r.ready| == MAX_PRIORITY
            && (s.states[t] != READY ==> r.ready == s.ready)
            && (s.states[t] == READY ==>
                  forall q | 0 <= q < MAX_PRIORITY ::
                    r.ready[q] == Without(s.ready[q], t) + if q == Level(p) then [t] else [])
  {
    var s1 := s.(prio := s.prio[t := p]);
    QueuesOkOneQueue(s);
    RemoveReadyRemoves(s1, t);
    if s.states[t] == READY {
      assert s1.states[t := READY] == s1.states;
    }
  }

  lemma NewPriority(s: Sched, t: nat, p: nat)
    requires InvBut(s, t)
    ensures InvBut(s.(prio := s.prio[t := p]), t)
  {
    var s1 := s.(prio := s.prio[t := p]);
    forall q, u | 0 <= q < MAX_PRIORITY && u in s.ready[q]
      ensures QueuedOk(s1, q, u)
    {
      assert QueuedOk(s, q, u);
    }
    forall c | 0 <= c < |s.current|
      ensures CurrentOk(s1, c)
    {
      assert CurrentOk(s, c);
    }
  }
}

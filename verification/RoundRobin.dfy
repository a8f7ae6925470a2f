/** Fairness: consecutive reschedules of a core take the tasks of its top eligible
    class in turn. */
module RoundRobin {
  import opened Sequences
  import opened TaskData
  import opened Scheduling
  import opened SchedulerSafety
  import opened SchedulerRuns

  /** The members of l that may run on core c, in order. */
  function Candidates(mask: seq<nat>, c: nat, l: seq<nat>): (e: seq<nat>)
    requires forall i | 0 <= i < |l| :: l[i] < |mask|
  {
    if l == [] then []
    else if Eligible(mask, c, l[0]) then [l[0]] + Candidates(mask, c, l[1..])
    else Candidates(mask, c, l[1..])
  }

  lemma {:induction false} CandidatesMembers(mask: seq<nat>, c: nat, l: seq<nat>)
    requires forall i | 0 <= i < |l| :: l[i] < |mask|
    ensures forall t :: t in Candidates(mask, c, l) <==> t in l && Eligible(mask, c, t)
    ensures Distinct(l) ==> Distinct(Candidates(mask, c, l))
  {
    if l != [] {
      CandidatesMembers(mask, c, l[1..]);
      assert l == [l[0]] + l[1..];
      if Distinct(l) {
        assert forall i | 0 <= i < |l[1..]| :: l[1..][i] == l[i + 1];
        assert l[0] !in l[1..];
      }
    }
  }

  lemma {:induction false} CandidatesFirst(mask: seq<nat>, c: nat, l: seq<nat>)
    requires forall i | 0 <= i < |l| :: l[i] < |mask|
    ensures FirstEligible(mask, c, l) == if Candidates(mask, c, l) == [] then -1 else Candidates(mask, c, l)[0]
  {
    if l != [] {
      CandidatesFirst(mask, c, l[1..]);
    }
  }

  lemma {:induction false} CandidatesAppend(mask: seq<nat>, c: nat, l: seq<nat>, t: nat)
    requires t < |mask| && forall i | 0 <= i < |l| :: l[i] < |mask|
    ensures Candidates(mask, c, l + [t]) == Candidates(mask, c, l) + if Eligible(mask, c, t) then [t] else []
  {
    if l == [] {
      assert [t][1..] == [];
    } else {
      assert (l + [t])[1..] == l[1..] + [t];
      CandidatesAppend(mask, c, l[1..], t);
    }
  }

  lemma {:induction false} CandidatesTakeFirst(mask: seq<nat>, c: nat, l: seq<nat>)
    requires forall i | 0 <= i < |l| :: l[i] < |mask|
    requires Candidates(mask, c, l) != []
    ensures var t := Candidates(mask, c, l)[0];
            && (forall i | 0 <= i < |Without(l, t)| :: Without(l, t)[i] < |mask|)
            && Candidates(mask, c, Without(l, t)) == Candidates(mask, c, l)[1..]
  {
    if !Eligible(mask, c, l[0]) {
      CandidatesTakeFirst(mask, c, l[1..]);
      var t := Candidates(mask, c, l)[0];
      CandidatesMembers(mask, c, l);
      assert Without(l, t) == [l[0]] + Without(l[1..], t);
      assert Without(l, t)[1..] == Without(l[1..], t);
    }
  }

  /** Once the running task has been requeued, p is the highest level with tasks
      eligible on core c, and those tasks are e, in order. */
  ghost predicate Turn(s: Sched, c: nat, p: nat, e: seq<nat>) {
    && Inv(s) && c < |s.current| && p < MAX_PRIORITY
    && var r := Requeue(s, c);
    && Shape(r) && NoneEligibleFrom(r, c, p + 1)
    && Candidates(r.mask, c, r.ready[p]) == e && e != []
  }

  lemma {:induction false} SelectReaches(s: Sched, c: nat, p: nat, k: nat)
    requires Shape(s) && c < |s.current| && p < k <= MAX_PRIORITY
    requires NoneEligibleFrom(s, c, p + 1) && Candidates(s.mask, c, s.ready[p]) != []
    ensures SelectBelow(s, c, k) == Candidates(s.mask, c, s.ready[p])[0]
  {
    CandidatesFirst(s.mask, c, s.ready[k - 1]);
    FirstEligibleFits(s.mask, c, s.ready[k - 1]);
    if p < k - 1 {
      assert FirstEligible(s.mask, c, s.ready[k - 1]) != -1 ==> EligibleTask(s, c, FirstEligible(s.mask, c, s.ready[k - 1]));
      SelectReaches(s, c, p, k - 1);
    }
  }

  /** Where the chosen task goes when the core next reschedules. */
  lemma RequeueAfterDispatch(r: Sched, c: nat, p: nat, t: nat)
    requires Shape(r) && c < |r.current| && p < MAX_PRIORITY && Inv(Vacate(r, c)) && t in r.ready[p]
    ensures Shape(Dispatch(r, c, t))
    ensures var n := Requeue(Dispatch(r, c, t), c);
            && Shape(n) && n.mask == r.mask
            && n.ready[p] == Without(r.ready[p], t) + [t]
            && forall q | 0 <= q < MAX_PRIORITY && q != p :: n.ready[q] == r.ready[q]
  {
    var v := Vacate(r, c);
    assert QueuedOk(v, p, t);
    QueuesOkOneQueue(v);
    assert r.ready == v.ready;
    RemoveReadyRemoves(r, t);
    forall q | 0 <= q < MAX_PRIORITY && q != p
      ensures Without(r.ready[q], t) == r.ready[q]
    {
      WithoutAbsent(r.ready[q], t);
    }
  }

  /** One reschedule runs the first candidate and moves it to the back of the line. */
  lemma TurnStep(s: Sched, c: nat, p: nat, e: seq<nat>)
    requires Turn(s, c, p, e)
    ensures Inv(s) && Shape(s) && c < |s.current|
    ensures Shape(Schedule(s, c)) && |Schedule(s, c).current| == |s.current|
    ensures Schedule(s, c).current[c] == e[0]
    ensures Turn(Schedule(s, c), c, p, e[1..] + [e[0]])
  {
    var r, t := Requeue(s, c), e[0];
    ScheduleKeeps(s, c);
    RequeueVacates(s, c);
    SelectReaches(r, c, p, MAX_PRIORITY);
    CandidatesMembers(r.mask, c, r.ready[p]);
    assert t in r.ready[p];
    RequeueAfterDispatch(r, c, p, t);
    CandidatesTakeFirst(r.mask, c, r.ready[p]);
    CandidatesAppend(r.mask, c, Without(r.ready[p], t), t);
    var n := Requeue(Schedule(s, c), c);
    forall q, u | p + 1 <= q < MAX_PRIORITY && u in n.ready[q]
      ensures !EligibleTask(n, c, u)
    {
      assert !EligibleTask(r, c, u);
    }
  }

  ghost predicate Rescheduled(before: Sched, c: nat, after: Sched) {
    Shape(before) && c < |before.current| && after == Schedule(before, c)
  }

  /** Consecutive states of a run in which core c reschedules and nothing else happens. */
  ghost predicate OnlyReschedules(trace: seq<Sched>, c: nat) {
    forall k | 0 <= k < |trace| - 1 :: Rescheduled(trace[k], c, trace[k + 1])
  }

  /** The line of candidates after k of them have had their turn. */
  function Rotated(e: seq<nat>, k: nat): seq<nat>
    requires k <= |e|
  {
    e[k..] + e[..k]
  }

  lemma RotateOnce(e: seq<nat>, k: nat)
    requires k < |e|
    ensures Rotated(e, k) != [] && Rotated(e, k)[0] == e[k]
    ensures Rotated(e, k)[1..] + [e[k]] == Rotated(e, k + 1)
  {
  }

  lemma {:induction false} TurnAfter(trace: seq<Sched>, c: nat, p: nat, e: seq<nat>, k: nat)
    requires k <= |e| && k < |trace| && OnlyReschedules(trace, c) && Turn(trace[0], c, p, e)
    ensures Turn(trace[k], c, p, Rotated(e, k))
  {
    assert Rotated(e, 0) == e;
    hide Turn;
    hide Rotated;
    if k != 0 {
      TurnAfter(trace, c, p, e, k - 1);
      RotateOnce(e, k - 1);
      assert Rescheduled(trace[k - 1], c, trace[k - 1 + 1]);
      TurnStep(trace[k - 1], c, p, Rotated(e, k - 1));
    }
  }

  ghost predicate Runs(s: Sched, c: nat, t: nat) {
    c < |s.current| && s.current[c] == t
  }

  /** With m tasks in the top eligible class, m consecutive reschedules run each of them exactly once. */
  lemma RoundRobinFair(trace: seq<Sched>, c: nat, p: nat, e: seq<nat>)
    requires |trace| == |e| + 1 && OnlyReschedules(trace, c) && Turn(trace[0], c, p, e)
    ensures Distinct(e)
    ensures forall t :: t in e <==> t in Requeue(trace[0], c).ready[p] && EligibleTask(trace[0], c, t)
    ensures var s := trace[0];
            s.current[c] != -1 && s.states[s.current[c]] == RUNNING && Level(s.prio[s.current[c]]) == p ==> s.current[c] in e
    ensures forall k | 0 <= k < |e| :: Runs(trace[k + 1], c, e[k])
  {
    TurnMembers(trace[0], c, p, e);
    hide Turn;
    forall k | 0 <= k < |e|
      ensures Runs(trace[k + 1], c, e[k])
    {
      TurnAfter(trace, c, p, e, k);
      RotateOnce(e, k);
      assert Rescheduled(trace[k], c, trace[k + 1]);
      TurnStep(trace[k], c, p, Rotated(e, k));
    }
  }

  lemma TurnMembers(s: Sched, c: nat, p: nat, e: seq<nat>)
    requires Turn(s, c, p, e)
    ensures Distinct(e)
    ensures forall t :: t in e <==> t in Requeue(s, c).ready[p] && EligibleTask(s, c, t)
    ensures s.current[c] != -1 && s.states[s.current[c]] == RUNNING && Level(s.prio[s.current[c]]) == p ==> s.current[c] in e
  {
    var r := Requeue(s, c);
    RequeueVacates(s, c);
    CandidatesMembers(r.mask, c, r.ready[p]);
    var t := s.current[c];
    if t != -1 && s.states[t] == RUNNING && Level(s.prio[t]) == p {
      assert CurrentOk(s, c);
      assert r.ready[p][|s.ready[p]|] == t;
    }
  }
}

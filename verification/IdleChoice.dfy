/** When a core runs its idle task although another task waits for the core. */
module IdleChoice {
  import opened Sequences
  import opened TaskData
  import opened Scheduling
  import opened SchedulerSafety
  import opened SchedulerRuns
  import opened RoundRobin

  /** A task other than the core's idle task is queued and may run on the core. */
  ghost predicate OtherWaits(r: Sched, c: nat)
    requires Shape(r) && c < |r.current|
  {
    exists q, t :: 0 <= q < MAX_PRIORITY && t in r.ready[q] && EligibleTask(r, c, t) && t != r.idle[c]
  }

  /** The core's idle task is the first eligible one of its level, and no higher level has any. */
  ghost predicate IdleFirst(r: Sched, c: nat)
    requires Shape(r) && c < |r.current|
  {
    var l := Level(r.prio[r.idle[c]]);
    NoneEligibleFrom(r, c, l + 1) && FirstEligible(r.mask, c, r.ready[l]) == r.idle[c]
  }

  /** sched_schedule queues the idle task like any other that was running, so it comes first
      among its equals when it has waited longest. A task of a higher level is never passed over. */
  lemma IdleOvertakesIff(s: Sched, c: nat)
    requires Inv(s) && c < |s.current|
    ensures Shape(Requeue(s, c)) && |Requeue(s, c).current| == |s.current| == |Schedule(s, c).current|
    ensures var r := Requeue(s, c);
            Schedule(s, c).current[c] == s.idle[c] && OtherWaits(r, c) <==> IdleFirst(r, c) && OtherWaits(r, c)
    ensures forall q, t | Level(s.prio[s.idle[c]]) < q < MAX_PRIORITY && t in Requeue(s, c).ready[q] && EligibleTask(s, c, t) ::
              Schedule(s, c).current[c] != s.idle[c]
  {
    hide Eligible;
    RequeueShape(s, c);
    var r := Requeue(s, c);
    RequeueVacates(s, c);
    assert forall t :: EligibleTask(s, c, t) == EligibleTask(r, c, t);
    hide Inv;
    hide Requeue;
    SelectsIdle(r, c);
  }

  lemma SelectsIdle(r: Sched, c: nat)
    requires Shape(r) && c < |r.current| && Inv(Vacate(r, c))
    ensures Select(r, c) == r.idle[c] <==> IdleFirst(r, c) || NoneEligibleFrom(r, c, 0)
  {
    var idle, l := r.idle[c], Level(r.prio[r.idle[c]]);
    if IdleFirst(r, c) {
      CandidatesFirst(r.mask, c, r.ready[l]);
      SelectReaches(r, c, l, MAX_PRIORITY);
    }
    SelectBelowIsTop(r, c, MAX_PRIORITY);
    if Select(r, c) == idle && !NoneEligibleFrom(r, c, 0) {
      var q: nat, i: nat :| IsTopChoice(r, c, q, i) && r.ready[q][i] == idle;
      assert QueuedOk(Vacate(r, c), q, idle);
      FirstAt(r.mask, c, r.ready[q], i);
    }
  }

  lemma {:induction false} FirstAt(mask: seq<nat>, c: nat, l: seq<nat>, i: nat)
    requires forall k | 0 <= k < |l| :: l[k] < |mask|
    requires i < |l| && Eligible(mask, c, l[i]) && forall k | 0 <= k < i :: !Eligible(mask, c, l[k])
    ensures FirstEligible(mask, c, l) == l[i]
  {
    if i > 0 {
      FirstAt(mask, c, l[1..], i - 1);
    }
  }
}

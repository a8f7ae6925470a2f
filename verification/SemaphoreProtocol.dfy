/** The counting semaphore on values, and what every run of it keeps.
    Its operations are atomic steps on the one core. */
module SemaphoreProtocol {
  import opened Sequences
  import opened TaskData
  import opened Scheduling
  import opened SchedulerSafety
  import opened SchedulerRuns
  import opened WaitOrder
  import opened StepEffects

  datatype Semaphore = Semaphore(count: int, maxCount: int, waiters: seq<nat>)

  ghost predicate Fits(s: Sched, m: Semaphore, t: nat) {
    Shape(s) && t < |s.states| && Below(m.waiters, |s.states|)
  }

  /** How sem_wait turns out. */
  function WaitOutcome(m: Semaphore, wait: bool): Outcome {
    if m.count > 0 then TAKEN else if wait then MUST_WAIT else REFUSED
  }

  /** sem_wait by task t, up to the point where a waiting task yields. */
  function Wait(s: Sched, m: Semaphore, t: nat, wait: bool): (Sched, Semaphore)
    requires Fits(s, m, t)
  {
    match WaitOutcome(m, wait)
    case TAKEN => (s, m.(count := m.count - 1))
    case REFUSED => (s, m)
    case MUST_WAIT => (Block(s, t), m.(waiters := InsertByPriority(s.prio, m.waiters, t)))
  }

  /** sem_signal. */
  function Signal(s: Sched, m: Semaphore): (Sched, Semaphore)
    requires Shape(s) && Below(m.waiters, |s.states|)
  {
    if m.waiters != [] then (MakeReady(s, m.waiters[0]), m.(waiters := m.waiters[1..]))
    else if m.count < m.maxCount then (s, m.(count := m.count + 1))
    else (s, m)
  }

  // ----- Runs --------------------------------------------------------------

  /** The kernel and the semaphore, with the number of waits granted, of signals
      given and of signals lost, and for every task when it last began to wait. */
  datatype Run = Run(sched: Sched, sem: Semaphore, granted: nat, given: nat, lost: nat, since: map<nat, nat>, clock: nat)

  datatype Move =
    | KernelMove(step: Step)
    | WaitMove(wait: bool)
    | SignalMove

  /** Nobody else wakes a waiter or changes its priority, and a signal does not
      come between a task's blocking and its yield. */
  ghost predicate Allowed(r: Run, move: Move) {
    Below(r.sem.waiters, |r.sched.states|) &&
    match move
    case KernelMove(step) =>
      && Enabled(r.sched, step)
      && (step.Wake? ==> step.task !in r.sem.waiters)
      && (step.ChangePriority? ==> step.task !in r.sem.waiters)
    case WaitMove(_) => Executes(r.sched)
    case SignalMove => Shape(r.sched) && (r.sem.waiters != [] ==> r.sem.waiters[0] !in r.sched.current)
  }

  ghost function After(r: Run, move: Move): Run
    requires Allowed(r, move)
  {
    match move
    case KernelMove(step) => r.(sched := Apply(r.sched, step), clock := r.clock + 1)
    case WaitMove(wait) =>
      var (s, m) := Wait(r.sched, r.sem, Caller(r.sched), wait);
      var outcome := WaitOutcome(r.sem, wait);
      Run(s, m, if outcome == TAKEN then r.granted + 1 else r.granted, r.given, r.lost,
          if outcome == MUST_WAIT then r.since[Caller(r.sched) := r.clock] else r.since, r.clock + 1)
    case SignalMove =>
      var (s, m) := Signal(r.sched, r.sem);
      Run(s, m, if r.sem.waiters != [] then r.granted + 1 else r.granted, r.given + 1,
          if m == r.sem then r.lost + 1 else r.lost, r.since, r.clock + 1)
  }

  ghost predicate OneMove(mid: Run, move: Move, r: Run) {
    Allowed(mid, move) && r == After(mid, move)
  }

  /** Making the moves one after the other, from sem_init_counting with these counts,
      which it takes unchecked, leads to r. */
  ghost predicate SemaphoreRun(maxCount: int, initial: int, moves: seq<Move>, r: Run) {
    exists states: seq<Run> :: IsTrace(maxCount, initial, moves, r, states)
  }

  ghost predicate IsTrace(maxCount: int, initial: int, moves: seq<Move>, r: Run, states: seq<Run>) {
    && |states| == |moves| + 1 && states[|moves|] == r
    && states[0] == Run(Boot(1), Semaphore(initial, maxCount, []), 0, 0, 0, map[], 0)
    && forall i | 0 <= i < |moves| :: OneMove(states[i], moves[i], states[i + 1])
  }

  lemma LastMove(maxCount: int, initial: int, moves: seq<Move>, r: Run) returns (mid: Run)
    requires SemaphoreRun(maxCount, initial, moves, r) && moves != []
    ensures SemaphoreRun(maxCount, initial, moves[..|moves| - 1], mid) && OneMove(mid, moves[|moves| - 1], r)
  {
    var states :| IsTrace(maxCount, initial, moves, r, states);
    var n := |moves| - 1;
    mid := states[n];
    assert OneMove(states[n], moves[n], states[n + 1]);
    assert IsTrace(maxCount, initial, moves[..n], mid, states[..n + 1]);
  }

  ghost predicate SemaphoreInv(maxCount: int, initial: int, r: Run) {
    && Inv(r.sched) && |r.sched.current| == 1
    && WaitInv(r.sched, r.since, r.clock, r.sem.waiters)
    && r.sem.maxCount == maxCount
    && (r.sem.waiters != [] ==> r.sem.count <= 0)
    && r.sem.count + r.granted == initial + r.given - r.lost
    && (initial >= 0 ==> r.sem.count >= 0)
    && (r.sem.count > initial ==> r.sem.count <= maxCount)
  }

  lemma KernelMoveKeeps(maxCount: int, initial: int, r: Run, step: Step)
    requires SemaphoreInv(maxCount, initial, r) && Allowed(r, KernelMove(step))
    ensures SemaphoreInv(maxCount, initial, After(r, KernelMove(step)))
  {
    KernelStepFrame(r.sched, step);
    assert Undisturbed(r.sched, Apply(r.sched, step), r.sem.waiters);
    WaitKept(r.sched, r.since, r.clock, r.sem.waiters, Apply(r.sched, step), r.clock + 1);
  }

  lemma WaitKeeps(maxCount: int, initial: int, r: Run, wait: bool)
    requires SemaphoreInv(maxCount, initial, r) && Allowed(r, WaitMove(wait))
    ensures SemaphoreInv(maxCount, initial, After(r, WaitMove(wait)))
  {
    var s, t: nat := r.sched, Caller(r.sched);
    if WaitOutcome(r.sem, wait) == MUST_WAIT {
      BlockKeeps(s, 0);
      WaitAdd(s, r.since, r.clock, r.sem.waiters, Block(s, t), t);
    } else {
      WaitKept(s, r.since, r.clock, r.sem.waiters, s, r.clock + 1);
    }
  }

  lemma SignalKeeps(maxCount: int, initial: int, r: Run)
    requires SemaphoreInv(maxCount, initial, r) && Allowed(r, SignalMove)
    ensures SemaphoreInv(maxCount, initial, After(r, SignalMove))
  {
    var s, ids := r.sched, r.sem.waiters;
    if ids != [] {
      assert IsWaiting(s, r.since, r.clock, ids[0]);
      WaitPop(s, r.since, r.clock, ids);
      WakeSafeIff(s, ids[0]);
      var s' := MakeReady(s, ids[0]);
      assert Undisturbed(s, s', ids[1..]);
      WaitKept(s, r.since, r.clock, ids[1..], s', r.clock + 1);
      assert Signal(s, r.sem).1 != r.sem by {
        assert |ids[1..]| != |ids|;
      }
    } else {
      WaitKept(s, r.since, r.clock, ids, s, r.clock + 1);
    }
  }

  lemma {:induction false} SemaphoreRunsKeep(maxCount: int, initial: int, moves: seq<Move>, r: Run)
    requires SemaphoreRun(maxCount, initial, moves, r)
    ensures SemaphoreInv(maxCount, initial, r)
  {
    if moves == [] {
      BootInv(1);
    } else {
      var before, last := moves[..|moves| - 1], moves[|moves| - 1];
      var mid := LastMove(maxCount, initial, moves, r);
      SemaphoreRunsKeep(maxCount, initial, before, mid);
      match last
      case KernelMove(step) => KernelMoveKeeps(maxCount, initial, mid, step);
      case WaitMove(wait) => WaitKeeps(maxCount, initial, mid, wait);
      case SignalMove => SignalKeeps(maxCount, initial, mid);
    }
  }

  /** After every run: units are conserved, nobody waits while a unit is left, the
      count stays in range if it starts in range, and the queue is in order. */
  lemma SemaphoreSafe(maxCount: int, initial: int, moves: seq<Move>, r: Run)
    requires SemaphoreRun(maxCount, initial, moves, r)
    ensures r.sem.count + r.granted == initial + r.given - r.lost
    ensures r.sem.waiters != [] ==> r.sem.count <= 0
    ensures 0 <= initial <= maxCount ==> 0 <= r.sem.count <= maxCount && r.granted <= initial + r.given
    ensures forall i, j | 0 <= i < j < |r.sem.waiters| :: Before(r.sched.prio, r.since, r.sem.waiters[i], r.sem.waiters[j])
    ensures forall i | 0 <= i < |r.sem.waiters| ::
              r.sem.waiters[i] < |r.sched.states| && r.sched.states[r.sem.waiters[i]] == BLOCKED
  {
    SemaphoreRunsKeep(maxCount, initial, moves, r);
    forall i | 0 <= i < |r.sem.waiters|
      ensures r.sem.waiters[i] < |r.sched.states| && r.sched.states[r.sem.waiters[i]] == BLOCKED
    {
      assert IsWaiting(r.sched, r.since, r.clock, r.sem.waiters[i]);
    }
  }

  /** What one wait does, after any run and whether or not the caller is willing to block. */
  lemma WaitEffect(maxCount: int, initial: int, moves: seq<Move>, r: Run, wait: bool)
    requires SemaphoreRun(maxCount, initial, moves, r) && Allowed(r, WaitMove(wait))
    ensures 0 <= Caller(r.sched) < |r.sched.states|
    ensures var t, r' := Caller(r.sched), After(r, WaitMove(wait));
            && r'.given == r.given && r'.lost == r.lost
            && if r.sem.count > 0 then
                 r'.sched == r.sched && r'.sem == r.sem.(count := r.sem.count - 1) && r'.granted == r.granted + 1
               else if !wait then
                 r'.sched == r.sched && r'.sem == r.sem && r'.granted == r.granted
               else
                 && r'.sched == r.sched.(states := r.sched.states[t := BLOCKED]) && r'.granted == r.granted
                 && r'.sem.count == r.sem.count && r'.sem.maxCount == r.sem.maxCount
                 && t in r'.sem.waiters && Without(r'.sem.waiters, t) == r.sem.waiters
  {
    SemaphoreRunsKeep(maxCount, initial, moves, r);
    var s, ids, t: nat := r.sched, r.sem.waiters, Caller(r.sched);
    BlockKeeps(s, 0);
    forall i | 0 <= i < |ids|
      ensures ids[i] < |s.prio| && ids[i] != t
    {
      assert IsWaiting(s, r.since, r.clock, ids[i]);
    }
    InsertByPriorityMembers(s.prio, ids, t);
    InsertByPriorityOthers(s.prio, ids, t);
  }

  /** What one signal does, after any run. */
  lemma SignalEffect(maxCount: int, initial: int, moves: seq<Move>, r: Run)
    requires SemaphoreRun(maxCount, initial, moves, r) && Allowed(r, SignalMove)
    ensures Below(r.sem.waiters, |r.sched.states|) && |r.sched.prio| == |r.sched.states| && |r.sched.ready| == MAX_PRIORITY
    ensures var s, r' := r.sched, After(r, SignalMove);
            && r'.given == r.given + 1
            && if r.sem.waiters == [] then
                 && r'.sched == s && r'.granted == r.granted
                 && r'.sem == r.sem.(count := if r.sem.count < maxCount then r.sem.count + 1 else r.sem.count)
               else
                 var w := r.sem.waiters[0];
                 && r'.sem == r.sem.(waiters := r.sem.waiters[1..]) && r'.granted == r.granted + 1
                 && r'.sched.states == s.states[w := READY]
                 && r'.sched.(states := s.states, ready := s.ready) == s && |r'.sched.ready| == MAX_PRIORITY
                 && forall q | 0 <= q < MAX_PRIORITY ::
                      r'.sched.ready[q] == s.ready[q] + if q == Level(s.prio[w]) then [w] else []
  {
    SemaphoreRunsKeep(maxCount, initial, moves, r);
    hide Inv;
    if r.sem.waiters != [] {
      WakeEffect(r.sched, r.sem.waiters[0]);
    }
  }

  /** sem_init_counting takes its counts unchecked: the count stays between 0 and the
      maximum in every run exactly if it starts there. */
  lemma CountInRangeIff(maxCount: int, initial: int)
    ensures (forall moves, r | SemaphoreRun(maxCount, initial, moves, r) :: 0 <= r.sem.count <= maxCount)
            <==> 0 <= initial <= maxCount
  {
    var r0 := Run(Boot(1), Semaphore(initial, maxCount, []), 0, 0, 0, map[], 0);
    assert IsTrace(maxCount, initial, [], r0, [r0]);
    assert SemaphoreRun(maxCount, initial, [], r0) && r0.sem.count == initial;
    forall moves, r | SemaphoreRun(maxCount, initial, moves, r) && 0 <= initial <= maxCount
      ensures 0 <= r.sem.count <= maxCount
    {
      SemaphoreSafe(maxCount, initial, moves, r);
      SemaphoreRunsKeep(maxCount, initial, moves, r);
    }
  }

  /** A signal goes to the highest-priority longest waiter; with nobody waiting it
      is kept, unless the count has reached its maximum. */
  lemma SignalGoesToFirst(maxCount: int, initial: int, moves: seq<Move>, r: Run)
    requires SemaphoreRun(maxCount, initial, moves, r) && Allowed(r, SignalMove)
    ensures var r' := After(r, SignalMove);
            && (r.sem.waiters == [] ==> r'.sched == r.sched && r'.sem.waiters == []
                                        && (r'.lost == r.lost <==> r'.sem.count == r.sem.count + 1)
                                        && (r'.lost > r.lost <==> r.sem.count >= maxCount))
            && (r.sem.waiters != [] ==>
                  var w := r.sem.waiters[0];
                  && w < |r'.sched.states| && r'.sched.states[w] == READY
                  && r'.sem.count == r.sem.count && r'.lost == r.lost
                  && (forall u | u in r.sem.waiters && u != w :: Before(r.sched.prio, r.since, w, u) && u in r'.sem.waiters))
  {
    hide Inv;
    hide SemaphoreRun;
    hide Enabled;
    SemaphoreRunsKeep(maxCount, initial, moves, r);
    var ids := r.sem.waiters;
    if ids != [] {
      WaitPop(r.sched, r.since, r.clock, ids);
      assert ids == [ids[0]] + ids[1..];
      assert |ids[1..]| != |ids|;
    }
  }
}

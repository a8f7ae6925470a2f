/** The priority-inheritance mutex on values, and what every run of it keeps.
    Its operations are atomic steps of the task running on the one core. */
module MutexProtocol {
  import opened Sequences
  import opened TaskData
  import opened Scheduling
  import opened SchedulerSafety
  import opened SchedulerRuns
  import opened WaitOrder
  import opened StepEffects

  /** owner is -1 when the mutex is free; count is kept in eight bits. */
  datatype Mutex = Mutex(owner: int, count: nat, waiters: seq<nat>)

  const FREE := Mutex(-1, 0, [])
  const COUNT_RANGE: nat := 256

  // ----- The operations ----------------------------------------------------

  /** The caller and every task the mutex names exist. */
  ghost predicate Fits(s: Sched, m: Mutex, t: nat) {
    && Shape(s) && t < |s.states|
    && -1 <= m.owner < |s.states| && Below(m.waiters, |s.states|)
  }

  /** How mutex_lock by task t turns out. */
  function LockOutcome(m: Mutex, t: nat, wait: bool): Outcome {
    if m.owner == t || m.owner == -1 then TAKEN else if wait then MUST_WAIT else REFUSED
  }

  /** mutex_lock by task t, up to the point where a waiting task yields. */
  function Lock(s: Sched, m: Mutex, t: nat, wait: bool): (Sched, Mutex)
    requires Fits(s, m, t)
  {
    if m.owner == t then (s, m.(count := (m.count + 1) % COUNT_RANGE))
    else if m.owner == -1 then (s, m.(owner := t, count := 1))
    else if !wait then (s, m)
    else
      BoostShape(s, m.owner, s.prio[t]);
      var b := Boost(s, m.owner, s.prio[t]);
      (Block(b, t), m.(waiters := InsertByPriority(b.prio, m.waiters, t)))
  }

  /** mutex_unlock by task t. */
  function Unlock(s: Sched, m: Mutex, t: nat): (Sched, Mutex)
    requires Fits(s, m, t)
  {
    if m.owner != t then (s, m)
    else if m.count > 1 then (s, m.(count := m.count - 1))
    else
      var r := s.(prio := s.prio[t := s.base[t]]);
      if m.waiters == [] then (r, m.(owner := -1, count := 0))
      else (MakeReady(r, m.waiters[0]), Mutex(m.waiters[0], 1, m.waiters[1..]))
  }

  // ----- Runs --------------------------------------------------------------

  /** The kernel and the mutex, with the number of locks the owner has yet to
      undo, and for every task when it last began to wait. */
  datatype Run = Run(sched: Sched, mutex: Mutex, depth: nat, since: map<nat, nat>, clock: nat)

  datatype Move =
    | KernelMove(step: Step)
    | LockMove(wait: bool)
    | UnlockMove

  /** Nobody else wakes a waiter, base priorities stay while the mutex is held or
      awaited, and an owner locks at most 255 times. */
  ghost predicate Allowed(r: Run, move: Move) {
    match move
    case KernelMove(step) =>
      && Enabled(r.sched, step)
      && (step.Wake? ==> step.task !in r.mutex.waiters)
      && (step.ChangePriority? ==> step.task != r.mutex.owner && step.task !in r.mutex.waiters)
    case LockMove(_) => Executes(r.sched) && NamesFit(r) && (r.mutex.owner == Caller(r.sched) ==> r.depth < COUNT_RANGE - 1)
    case UnlockMove => Executes(r.sched) && NamesFit(r)
  }

  ghost predicate NamesFit(r: Run) {
    Caller(r.sched) >= 0 && Fits(r.sched, r.mutex, Caller(r.sched))
  }

  ghost function After(r: Run, move: Move): Run
    requires Allowed(r, move)
  {
    match move
    case KernelMove(step) => r.(sched := Apply(r.sched, step), clock := r.clock + 1)
    case LockMove(wait) =>
      var (s, m) := Lock(r.sched, r.mutex, Caller(r.sched), wait);
      var outcome := LockOutcome(r.mutex, Caller(r.sched), wait);
      Run(s, m, if outcome == TAKEN then r.depth + 1 else r.depth,
          if outcome == MUST_WAIT then r.since[Caller(r.sched) := r.clock] else r.since, r.clock + 1)
    case UnlockMove =>
      var (s, m) := Unlock(r.sched, r.mutex, Caller(r.sched));
      var depth := if r.mutex.owner != Caller(r.sched) then r.depth
                   else if r.depth > 1 then r.depth - 1
                   else if r.mutex.waiters == [] then 0 else 1;
      Run(s, m, depth, r.since, r.clock + 1)
  }

  ghost predicate OneMove(mid: Run, move: Move, r: Run) {
    Allowed(mid, move) && r == After(mid, move)
  }

  /** Making the moves one after the other, from a booted kernel with a free mutex, leads to r. */
  ghost predicate MutexRun(moves: seq<Move>, r: Run) {
    exists states: seq<Run> :: IsTrace(moves, r, states)
  }

  ghost predicate IsTrace(moves: seq<Move>, r: Run, states: seq<Run>) {
    && |states| == |moves| + 1 && states[0] == Run(Boot(1), FREE, 0, map[], 0) && states[|moves|] == r
    && forall i | 0 <= i < |moves| :: OneMove(states[i], moves[i], states[i + 1])
  }

  lemma LastMove(moves: seq<Move>, r: Run) returns (mid: Run)
    requires MutexRun(moves, r) && moves != []
    ensures MutexRun(moves[..|moves| - 1], mid) && OneMove(mid, moves[|moves| - 1], r)
  {
    var states :| IsTrace(moves, r, states);
    var n := |moves| - 1;
    mid := states[n];
    assert OneMove(states[n], moves[n], states[n + 1]);
    assert IsTrace(moves[..n], mid, states[..n + 1]);
  }

  // ----- The invariant -----------------------------------------------------

  /** A task has its base priority unless it owns the mutex; the owner has the
      largest of its base priority and the priorities of the tasks waiting for it. */
  ghost predicate Inherits(s: Sched, m: Mutex)
    requires Shape(s)
  {
    && (forall t: nat | t < |s.states| && t != m.owner :: s.prio[t] == s.base[t])
    && (0 <= m.owner < |s.states| ==> IsTop(s.prio, s.base[m.owner], m.waiters, s.prio[m.owner]))
  }

  /** top is the maximum of floor and the priorities of ids. */
  ghost predicate IsTop(prio: seq<nat>, floor: nat, ids: seq<nat>, top: nat) {
    && floor <= top && (forall w | w in ids && w < |prio| :: prio[w] <= top)
    && (top == floor || exists w :: w in ids && w < |prio| && prio[w] == top)
  }

  ghost predicate MutexInv(r: Run) {
    var s, m := r.sched, r.mutex;
    && Inv(s) && |s.current| == 1
    && -1 <= m.owner < |s.states| && m.owner !in m.waiters
    && (if m.owner == -1 then m == FREE && r.depth == 0 else 1 <= r.depth < COUNT_RANGE && m.count == r.depth)
    && WaitInv(s, r.since, r.clock, m.waiters)
    && Inherits(s, m)
  }

  /** A running task is never itself in the wait queue, and the mutex names only existing tasks. */
  lemma CallerFits(r: Run)
    requires MutexInv(r) && Executes(r.sched)
    ensures NamesFit(r) && Caller(r.sched) !in r.mutex.waiters
  {
    forall i | 0 <= i < |r.mutex.waiters|
      ensures 0 <= r.mutex.waiters[i] < |r.sched.states| && r.mutex.waiters[i] != Caller(r.sched)
    {
      assert IsWaiting(r.sched, r.since, r.clock, r.mutex.waiters[i]);
    }
  }

  lemma KernelMoveKeeps(r: Run, step: Step)
    requires MutexInv(r) && Allowed(r, KernelMove(step))
    ensures MutexInv(After(r, KernelMove(step)))
  {
    var s, s', m := r.sched, Apply(r.sched, step), r.mutex;
    KernelStepFrame(s, step);
    assert Undisturbed(s, s', m.waiters);
    WaitKept(s, r.since, r.clock, m.waiters, s', r.clock + 1);
    if m.owner != -1 {
      forall w | w in m.waiters
        ensures w < |s.prio| && s'.prio[w] == s.prio[w]
      {
        var i :| 0 <= i < |m.waiters| && m.waiters[i] == w;
        assert IsWaiting(s, r.since, r.clock, m.waiters[i]);
      }
      assert IsTop(s'.prio, s'.base[m.owner], m.waiters, s'.prio[m.owner]);
    }
  }

  /** Boosting changes one priority and no state. */
  lemma BoostFrame(s: Sched, t: nat, p: nat)
    requires Inv(s) && t < |s.states|
    ensures var b := Boost(s, t, p);
            && Inv(b) && b.states == s.states && b.base == s.base && b.current == s.current && b.idle == s.idle
            && b.prio == s.prio[t := if s.prio[t] < p then p else s.prio[t]]
  {
    if s.prio[t] < p {
      ReprioritizeKeeps(s, t, p);
    }
  }

  lemma LockKeeps(r: Run, wait: bool)
    requires MutexInv(r) && Allowed(r, LockMove(wait)) && Fits(r.sched, r.mutex, Caller(r.sched))
    ensures MutexInv(After(r, LockMove(wait)))
  {
    var s, m, t: nat := r.sched, r.mutex, Caller(r.sched);
    CallerFits(r);
    if LockOutcome(m, t, wait) == MUST_WAIT {
      WaitKeeps(r);
    } else {
      WaitKept(s, r.since, r.clock, m.waiters, s, r.clock + 1);
    }
  }

  /** Joining the wait queue, with the owner boosted first. */
  lemma WaitKeeps(r: Run)
    requires MutexInv(r) && Allowed(r, LockMove(true)) && Fits(r.sched, r.mutex, Caller(r.sched))
    requires LockOutcome(r.mutex, Caller(r.sched), true) == MUST_WAIT
    ensures MutexInv(After(r, LockMove(true)))
  {
    var s, m, t: nat := r.sched, r.mutex, Caller(r.sched);
    var o: nat, p := m.owner, s.prio[t];
    CallerFits(r);
    BoostFrame(s, o, p);
    var b := Boost(s, o, p);
    BlockKeeps(b, 0);
    assert Undisturbed(s, b, m.waiters);
    WaitKept(s, r.since, r.clock, m.waiters, b, r.clock);
    var more := InsertByPriority(b.prio, m.waiters, t);
    var b' := Block(b, t);
    WaitAdd(b, r.since, r.clock, m.waiters, b', t);
    InsertByPriorityMembers(b.prio, m.waiters, t);
    assert b'.prio == b.prio;
    assert IsTop(b'.prio, b'.base[o], more, b'.prio[o]) by {
      if b.prio[o] == p {
        assert t in more && b.prio[t] == p;
      } else if s.prio[o] != s.base[o] {
        var w :| w in m.waiters && w < |s.prio| && s.prio[w] == s.prio[o];
        assert w in more && b.prio[w] == b.prio[o];
      }
    }
  }

  lemma UnlockKeeps(r: Run)
    requires MutexInv(r) && Allowed(r, UnlockMove)
    ensures MutexInv(After(r, UnlockMove))
  {
    var s, m, t: nat := r.sched, r.mutex, Caller(r.sched);
    CallerFits(r);
    if m.owner == t && m.count <= 1 {
      var q := s.(prio := s.prio[t := s.base[t]]);
      RestoreKeeps(s, t);
      assert Undisturbed(s, q, m.waiters);
      WaitKept(s, r.since, r.clock, m.waiters, q, r.clock);
      if m.waiters != [] {
        HandOverKeeps(r, q);
      }
    } else {
      WaitKept(s, r.since, r.clock, m.waiters, s, r.clock + 1);
    }
  }

  /** A running task, being in no ready queue, may get its base priority back on the spot. */
  lemma RestoreKeeps(s: Sched, t: nat)
    requires Inv(s) && t < |s.states| && s.states[t] == RUNNING
    ensures Inv(s.(prio := s.prio[t := s.base[t]]))
  {
    ReprioritizeKeeps(s, t, s.base[t]);
  }

  /** Waking the first waiter as the new owner; q is the state with the caller's priority restored. */
  lemma HandOverKeeps(r: Run, q: Sched)
    requires MutexInv(r) && Allowed(r, UnlockMove) && r.mutex.owner == Caller(r.sched) && r.mutex.count <= 1 && r.mutex.waiters != []
    requires Inv(q) && q == r.sched.(prio := r.sched.prio[Caller(r.sched) := r.sched.base[Caller(r.sched)]])
    requires WaitInv(q, r.since, r.clock, r.mutex.waiters)
    ensures MutexInv(After(r, UnlockMove))
  {
    var m := r.mutex;
    var w, rest := m.waiters[0], m.waiters[1..];
    assert IsWaiting(q, r.since, r.clock, w);
    WaitPop(q, r.since, r.clock, m.waiters);
    assert w !in q.current by {
      assert q.current == [Caller(r.sched)] && w in m.waiters;
    }
    WakeSafeIff(q, w);
    var s' := MakeReady(q, w);
    assert Undisturbed(q, s', rest);
    WaitKept(q, r.since, r.clock, rest, s', r.clock + 1);
    assert IsTop(s'.prio, s'.base[w], rest, s'.prio[w]);
  }

  /** Every move keeps the invariant. */
  lemma {:induction false} MutexRunsKeep(moves: seq<Move>, r: Run)
    requires MutexRun(moves, r)
    ensures MutexInv(r)
  {
    if moves == [] {
      BootInv(1);
    } else {
      var before, last := moves[..|moves| - 1], moves[|moves| - 1];
      var mid := LastMove(moves, r);
      MutexRunsKeep(before, mid);
      match last
      case KernelMove(step) => KernelMoveKeeps(mid, step);
      case LockMove(wait) => LockKeeps(mid, wait);
      case UnlockMove => UnlockKeeps(mid);
    }
  }

  // ----- What it means -----------------------------------------------------

  /** What holds after every run of locks, unlocks and kernel steps. */
  lemma MutexSafe(moves: seq<Move>, r: Run)
    requires MutexRun(moves, r)
    ensures var s, m := r.sched, r.mutex;
            && Shape(s) && -1 <= m.owner < |s.states|
            // free only when no task waits
            && (m.owner == -1 ==> m.waiters == [] && m.count == 0)
            // the eight-bit count is the owner's nesting depth
            && (m.owner != -1 ==> m.count == r.depth > 0)
            // waiters are blocked and do not own the mutex
            && (forall w | w in m.waiters :: w < |s.states| && s.states[w] == BLOCKED && w != m.owner)
            // the queue is sorted by priority, ties in order of arrival
            && (forall i, j | 0 <= i < j < |m.waiters| :: Before(s.prio, r.since, m.waiters[i], m.waiters[j]))
    // the owner inherits the highest waiting priority, all others have their own
    ensures Inherits(r.sched, r.mutex)
  {
    MutexRunsKeep(moves, r);
    forall w | w in r.mutex.waiters
      ensures w < |r.sched.states| && r.sched.states[w] == BLOCKED && w != r.mutex.owner
    {
      var i :| 0 <= i < |r.mutex.waiters| && r.mutex.waiters[i] == w;
      assert IsWaiting(r.sched, r.since, r.clock, r.mutex.waiters[i]);
    }
  }

  /** An unlock by the owner gives the mutex away exactly when it undoes the
      outermost lock: then the highest-priority longest waiter owns it and is
      ready, or nobody waited and it is free; the caller has its own priority back. */
  lemma HandOff(moves: seq<Move>, r: Run)
    requires MutexRun(moves, r) && Allowed(r, UnlockMove) && r.mutex.owner == Caller(r.sched)
    ensures var m, r' := r.mutex, After(r, UnlockMove);
            && |r'.sched.states| == |r.sched.states| == |r'.sched.prio| == |r.sched.base|
            && (r'.mutex.owner == m.owner <==> r.depth > 1)
            && (r.depth > 1 ==> r'.sched == r.sched && r'.mutex == m.(count := r.depth - 1))
            && (r.depth == 1 ==> r'.sched.prio == r.sched.prio[Caller(r.sched) := r.sched.base[Caller(r.sched)]])
            && (r.depth == 1 && m.waiters == [] ==> r'.mutex == FREE && r'.sched.states == r.sched.states)
            && (r.depth == 1 && m.waiters != [] ==>
                  var w := r'.mutex.owner;
                  && w in m.waiters && 0 <= w < |r'.sched.states| && r'.sched.states[w] == READY
                  && (forall u | u in m.waiters && u != w :: Before(r.sched.prio, r.since, w, u) && u in r'.mutex.waiters))
  {
    MutexRunsKeep(moves, r);
    CallerFits(r);
    hide Inv;
    hide MutexRun;
    hide IsIdle;
    hide Inherits;
    if r.depth == 1 && r.mutex.waiters != [] {
      WaitPop(r.sched, r.since, r.clock, r.mutex.waiters);
      var waiters := r.mutex.waiters;
      assert waiters == [waiters[0]] + waiters[1..];
    }
  }

  /** What one lock does, after any run and whether or not the caller is willing to wait: a free mutex
      is taken, the owner nests, anybody else is refused or sleeps, having lent the owner its priority. */
  lemma LockEffect(moves: seq<Move>, r: Run, wait: bool)
    requires MutexRun(moves, r) && Allowed(r, LockMove(wait))
    ensures Inv(r.sched) && Shape(r.sched) && -1 <= r.mutex.owner < |r.sched.states|
    ensures 0 <= Caller(r.sched) < |r.sched.states|
    ensures var s, m, t, r' := r.sched, r.mutex, Caller(r.sched), After(r, LockMove(wait));
            if m.owner == -1 then
              r'.sched == s && r'.mutex == Mutex(t, 1, []) && r'.depth == 1
            else if m.owner == t then
              r'.sched == s && r'.mutex == m.(count := r.depth + 1) && r'.depth == r.depth + 1
            else if !wait then
              r'.sched == s && r'.mutex == m && r'.depth == r.depth
            else
              && r'.mutex.owner == m.owner && r'.mutex.count == m.count && r'.depth == r.depth
              && t in r'.mutex.waiters && Without(r'.mutex.waiters, t) == m.waiters
              && Slept(s, m.owner, t, r'.sched)
  {
    MutexRunsKeep(moves, r);
    CallerFits(r);
    var s, m, t: nat := r.sched, r.mutex, Caller(r.sched);
    if m.owner != -1 && m.owner != t && wait {
      WaitEffect(r);
    }
  }

  /** Task t is blocked; owner has at least its priority, and if that was raised and it is ready,
      it stands last of its new level. Nothing else has changed. */
  ghost predicate Slept(s: Sched, owner: nat, t: nat, n: Sched)
    requires Shape(s) && owner < |s.states| && t < |s.states|
  {
    && n.states == s.states[t := BLOCKED]
    && n.prio == s.prio[owner := if s.prio[owner] < s.prio[t] then s.prio[t] else s.prio[owner]]
    && n.(states := s.states, prio := s.prio, ready := s.ready) == s && |n.ready| == MAX_PRIORITY
    && forall q | 0 <= q < MAX_PRIORITY ::
         n.ready[q] == if s.prio[owner] < s.prio[t] && s.states[owner] == READY
                       then Without(s.ready[q], owner) + if q == Level(s.prio[t]) then [owner] else []
                       else s.ready[q]
  }

  lemma WaitEffect(r: Run)
    requires MutexInv(r) && Allowed(r, LockMove(true)) && Fits(r.sched, r.mutex, Caller(r.sched))
    requires r.mutex.owner != -1 && r.mutex.owner != Caller(r.sched)
    ensures var s, m, t, r' := r.sched, r.mutex, Caller(r.sched), After(r, LockMove(true));
            && r'.mutex.owner == m.owner && r'.mutex.count == m.count && r'.depth == r.depth
            && t in r'.mutex.waiters && Without(r'.mutex.waiters, t) == m.waiters
            && Slept(s, m.owner, t, r'.sched)
  {
    var s, m, t: nat := r.sched, r.mutex, Caller(r.sched);
    CallerFits(r);
    BoostFrame(s, m.owner, s.prio[t]);
    BoostEffect(s, m.owner, s.prio[t]);
    var b := Boost(s, m.owner, s.prio[t]);
    assert b.current[0] == t && b.states[t] == RUNNING && !IsIdle(b, t);
    BlockKeeps(b, 0);
    hide Inv;
    hide Boost;
    hide Block;
    InsertByPriorityMembers(b.prio, m.waiters, t);
    InsertByPriorityOthers(b.prio, m.waiters, t);
  }

  /** What one unlock does, after any run. */
  lemma UnlockEffect(moves: seq<Move>, r: Run)
    requires MutexRun(moves, r) && Allowed(r, UnlockMove)
    ensures Shape(r.sched) && 0 <= Caller(r.sched) < |r.sched.states|
    ensures forall w | w in r.mutex.waiters :: w < |r.sched.states|
    ensures var s, m, t, r' := r.sched, r.mutex, Caller(r.sched), After(r, UnlockMove);
            if m.owner != t then
              r'.sched == s && r'.mutex == m && r'.depth == r.depth
            else if r.depth > 1 then
              r'.sched == s && r'.mutex == m.(count := r.depth - 1) && r'.depth == r.depth - 1
            else if m.waiters == [] then
              r'.sched == s.(prio := s.prio[t := s.base[t]]) && r'.mutex == FREE && r'.depth == 0
            else
              var w, p := m.waiters[0], s.prio[t := s.base[t]];
              && r'.mutex == Mutex(w, 1, m.waiters[1..]) && r'.depth == 1
              && r'.sched.states == s.states[w := READY] && r'.sched.prio == p
              && r'.sched.(states := s.states, prio := s.prio, ready := s.ready) == s && |r'.sched.ready| == MAX_PRIORITY
              && forall q | 0 <= q < MAX_PRIORITY ::
                   r'.sched.ready[q] == s.ready[q] + if q == Level(p[w]) then [w] else []
  {
    MutexRunsKeep(moves, r);
    CallerFits(r);
    var s, m, t: nat := r.sched, r.mutex, Caller(r.sched);
    forall w | w in m.waiters
      ensures w < |s.states|
    {
      var i :| 0 <= i < |m.waiters| && m.waiters[i] == w;
      assert IsWaiting(s, r.since, r.clock, m.waiters[i]);
    }
    hide Inv;
    if m.owner == t && r.depth == 1 && m.waiters != [] {
      WakeEffect(s.(prio := s.prio[t := s.base[t]]), m.waiters[0]);
    }
  }

  /** A recursive lock keeps the count exact just below 255 levels; the lock after
      that wraps it to zero, and the very next unlock gives the mutex away. */
  lemma RecursiveLockIff(r: Run)
    requires MutexInv(r) && Executes(r.sched) && r.mutex.owner == Caller(r.sched)
    ensures NamesFit(r)
    ensures Lock(r.sched, r.mutex, Caller(r.sched), true).1.count == r.depth + 1 <==> r.depth < COUNT_RANGE - 1
    ensures r.depth >= COUNT_RANGE - 1 ==>
              Unlock(r.sched, Lock(r.sched, r.mutex, Caller(r.sched), true).1, Caller(r.sched)).1.owner != r.mutex.owner
  {
    CallerFits(r);
  }
}

/** The delay list and the system tick on values: over every run, a delayed task
    is woken at exactly the tick it asked for. */
module DelayProtocol {
  import opened Sequences
  import opened TaskData
  import opened Scheduling
  import opened SchedulerSafety
  import opened SchedulerRuns
  import opened WaitOrder
  import opened StepEffects

  datatype Entry = Entry(task: nat, wake: nat)

  datatype Delays = Delays(list: seq<Entry>, tick: nat)

  function Tasks(list: seq<Entry>): (ids: seq<nat>)
    ensures |ids| == |list| && forall i | 0 <= i < |list| :: ids[i] == list[i].task
  {
    seq(|list|, i requires 0 <= i < |list| => list[i].task)
  }

  // ----- The operations ----------------------------------------------------

  /** delay_add_locked: behind every entry that wakes no later. */
  function Insert(list: seq<Entry>, e: Entry): seq<Entry> {
    if list == [] || list[0].wake > e.wake then [e] + list
    else [list[0]] + Insert(list[1..], e)
  }

  /** delay_remove. */
  function Remove(list: seq<Entry>, t: nat): seq<Entry> {
    if list == [] then []
    else if list[0].task == t then list[1..]
    else [list[0]] + Remove(list[1..], t)
  }

  /** delay_check_wakeups: wakes from the head as long as the head is due. */
  function Expire(s: Sched, m: Delays): (Sched, Delays)
    requires Shape(s) && Below(Tasks(m.list), |s.states|)
    decreases |m.list|
  {
    if m.list == [] || m.list[0].wake > m.tick then (s, m)
    else
      assert Tasks(m.list[1..]) == Tasks(m.list)[1..];
      Expire(MakeReady(s, Tasks(m.list)[0]), m.(list := m.list[1..]))
  }

  /** tick_increment. */
  function Tick(s: Sched, m: Delays): (Sched, Delays)
    requires Shape(s) && Below(Tasks(m.list), |s.states|)
  {
    Expire(s, m.(tick := m.tick + 1))
  }

  /** delay_ticks by task t, up to its yield. */
  function Delay(s: Sched, m: Delays, t: nat, d: nat): (Sched, Delays)
    requires Shape(s) && t < |s.states|
  {
    if d == 0 then (s, m)
    else (Block(s, t), m.(list := Insert(m.list, Entry(t, m.tick + d))))
  }

  // ----- The list's order --------------------------------------------------

  /** a is to be woken before b: its tick is earlier, or the same and it was delayed first. */
  ghost predicate Sooner(since: map<nat, nat>, a: Entry, b: Entry) {
    && a.task in since && b.task in since
    && (a.wake < b.wake || (a.wake == b.wake && since[a.task] < since[b.task]))
  }

  ghost predicate Sorted(since: map<nat, nat>, list: seq<Entry>) {
    forall i, j | 0 <= i < j < |list| :: Sooner(since, list[i], list[j])
  }

  /** Every listed task is blocked, was listed before `now`, and its wake-up is after `tick`. */
  ghost predicate Pending(s: Sched, since: map<nat, nat>, now: nat, tick: nat, list: seq<Entry>) {
    forall i | 0 <= i < |list| :: IsPending(s, since, now, tick, list[i])
  }

  ghost predicate IsPending(s: Sched, since: map<nat, nat>, now: nat, tick: nat, e: Entry) {
    && e.task < |s.states| && s.states[e.task] == BLOCKED
    && e.task in since && since[e.task] < now && e.wake > tick
  }

  lemma {:induction false} InsertMembers(list: seq<Entry>, e: Entry)
    ensures forall x :: x in Insert(list, e) <==> x in list || x == e
    ensures |Insert(list, e)| == |list| + 1
  {
    if list != [] && list[0].wake <= e.wake {
      InsertMembers(list[1..], e);
      assert list == [list[0]] + list[1..];
    }
  }

  lemma {:induction false} InsertSorted(since: map<nat, nat>, now: nat, list: seq<Entry>, e: Entry)
    requires Sorted(since, list) && forall i | 0 <= i < |list| :: list[i].task in since && since[list[i].task] < now && list[i].task != e.task
    ensures Sorted(since[e.task := now], Insert(list, e))
  {
    var after := since[e.task := now];
    if list != [] && list[0].wake <= e.wake {
      var rest := Insert(list[1..], e);
      InsertSorted(since, now, list[1..], e);
      InsertMembers(list[1..], e);
      forall j | 0 <= j < |rest|
        ensures Sooner(after, list[0], rest[j])
      {
        assert rest[j] in rest;
        if rest[j] != e {
          var i :| 0 <= i < |list[1..]| && list[1..][i] == rest[j];
          assert Sooner(since, list[0], list[i + 1]);
        }
      }
    } else {
      forall j | 0 <= j < |list|
        ensures Sooner(after, e, list[j])
      {
        if j > 0 {
          assert Sooner(since, list[0], list[j]);
        }
      }
      forall i, j | 0 <= i < j < |list|
        ensures Sooner(after, list[i], list[j])
      {
        assert Sooner(since, list[i], list[j]);
      }
    }
  }

  /** delay_remove takes out the task's entry and keeps everything else in order. */
  lemma {:induction false} RemoveMembers(since: map<nat, nat>, list: seq<Entry>, t: nat)
    requires Distinct(Tasks(list)) && Sorted(since, list)
    ensures forall e :: e in Remove(list, t) <==> e in list && e.task != t
    ensures Distinct(Tasks(Remove(list, t))) && Sorted(since, Remove(list, t))
  {
    if list != [] {
      HeadBefore(since, list);
      hide Distinct;
      hide Sorted;
      hide Sooner;
      var rest := list[1..];
      assert list == [list[0]] + rest;
      if list[0].task != t {
        RemoveMembers(since, rest, t);
        ConsKeeps(since, list[0], Remove(rest, t));
      }
    }
  }

  lemma HeadBefore(since: map<nat, nat>, list: seq<Entry>)
    requires list != [] && Distinct(Tasks(list)) && Sorted(since, list)
    ensures Distinct(Tasks(list[1..])) && Sorted(since, list[1..])
    ensures forall e | e in list[1..] :: e.task != list[0].task && Sooner(since, list[0], e)
  {
    var rest := list[1..];
    assert Tasks(rest) == Tasks(list)[1..];
    forall e | e in rest
      ensures e.task != list[0].task && Sooner(since, list[0], e)
    {
      var i :| 0 <= i < |rest| && rest[i] == e;
      assert Tasks(list)[i + 1] == e.task && Sooner(since, list[0], list[i + 1]);
    }
  }

  lemma ConsKeeps(since: map<nat, nat>, e: Entry, rest: seq<Entry>)
    requires Distinct(Tasks(rest)) && Sorted(since, rest)
    requires forall x | x in rest :: x.task != e.task && Sooner(since, e, x)
    ensures Distinct(Tasks([e] + rest)) && Sorted(since, [e] + rest)
  {
    var more := [e] + rest;
    forall i, j | 0 <= i < j < |more|
      ensures more[i].task != more[j].task && Sooner(since, more[i], more[j])
    {
      assert more[j] == rest[j - 1] && rest[j - 1] in rest;
      if i > 0 {
        assert more[i] == rest[i - 1];
        assert Tasks(rest)[i - 1] != Tasks(rest)[j - 1];
        assert Sooner(since, rest[i - 1], rest[j - 1]);
      }
    }
  }

  // ----- Runs --------------------------------------------------------------

  /** The kernel, the delay list and the tick, and for every task when it was last delayed. */
  datatype Run = Run(sched: Sched, delays: Delays, since: map<nat, nat>, clock: nat)

  datatype Move =
    | KernelMove(step: Step)
    | DelayMove(core: nat, ticks: nat)
    | RemoveMove(task: nat)
    | TickMove

  ghost predicate OnList(r: Run, t: nat) {
    t in Tasks(r.delays.list)
  }

  /** Nobody else wakes a delayed task, a running task delays itself, and the tick does
      not come between a due task's blocking and its yield. */
  ghost predicate Allowed(r: Run, move: Move) {
    Shape(r.sched) && Below(Tasks(r.delays.list), |r.sched.states|) &&
    match move
    case KernelMove(step) => Enabled(r.sched, step) && (step.Wake? ==> !OnList(r, step.task))
    case DelayMove(c, _) => Enabled(r.sched, BlockCurrent(c))
    case RemoveMove(_) => true
    case TickMove => forall e | e in r.delays.list && e.wake <= r.delays.tick + 1 :: e.task !in r.sched.current
  }

  ghost function After(r: Run, move: Move): Run
    requires Allowed(r, move)
  {
    match move
    case KernelMove(step) => r.(sched := Apply(r.sched, step), clock := r.clock + 1)
    case DelayMove(c, d) =>
      var (s, m) := Delay(r.sched, r.delays, r.sched.current[c], d);
      Run(s, m, if d == 0 then r.since else r.since[r.sched.current[c] := r.clock], r.clock + 1)
    case RemoveMove(t) => r.(delays := r.delays.(list := Remove(r.delays.list, t)), clock := r.clock + 1)
    case TickMove =>
      var (s, m) := Tick(r.sched, r.delays);
      Run(s, m, r.since, r.clock + 1)
  }

  ghost predicate OneMove(mid: Run, move: Move, r: Run) {
    Allowed(mid, move) && r == After(mid, move)
  }

  /** Making the moves one after the other leads from r0 to r. */
  ghost predicate Moves(r0: Run, moves: seq<Move>, r: Run) {
    exists states: seq<Run> :: IsTrace(r0, moves, r, states)
  }

  ghost predicate IsTrace(r0: Run, moves: seq<Move>, r: Run, states: seq<Run>) {
    && |states| == |moves| + 1 && states[0] == r0 && states[|moves|] == r
    && forall i | 0 <= i < |moves| :: OneMove(states[i], moves[i], states[i + 1])
  }

  lemma LastMove(r0: Run, moves: seq<Move>, r: Run) returns (mid: Run)
    requires Moves(r0, moves, r) && moves != []
    ensures Moves(r0, moves[..|moves| - 1], mid) && OneMove(mid, moves[|moves| - 1], r)
  {
    var states :| IsTrace(r0, moves, r, states);
    var n := |moves| - 1;
    mid := states[n];
    assert OneMove(states[n], moves[n], states[n + 1]);
    assert IsTrace(r0, moves[..n], mid, states[..n + 1]);
  }

  /** Boot, with no task delayed, at tick 0. */
  function Started(cores: nat): Run {
    Run(Boot(cores), Delays([], 0), map[], 0)
  }

  ghost predicate DelayInv(r: Run) {
    && Inv(r.sched)
    && Pending(r.sched, r.since, r.clock, r.delays.tick, r.delays.list)
    && Sorted(r.since, r.delays.list) && Distinct(Tasks(r.delays.list))
  }

  lemma PendingKept(s: Sched, s': Sched, since: map<nat, nat>, now: nat, tick: nat, list: seq<Entry>)
    requires Pending(s, since, now, tick, list)
    requires |s'.states| >= |s.states|
    requires forall e | e in list && e.task < |s.states| && s.states[e.task] == BLOCKED :: s'.states[e.task] == BLOCKED
    ensures Pending(s', since, now + 1, tick, list)
  {
    forall i | 0 <= i < |list|
      ensures IsPending(s', since, now + 1, tick, list[i])
    {
      assert IsPending(s, since, now, tick, list[i]);
    }
  }

  lemma KernelMoveKeeps(r: Run, step: Step)
    requires DelayInv(r) && Allowed(r, KernelMove(step))
    ensures DelayInv(After(r, KernelMove(step)))
  {
    KernelStepFrame(r.sched, step);
    forall e | e in r.delays.list
      ensures OnList(r, e.task)
    {
      var i :| 0 <= i < |r.delays.list| && r.delays.list[i] == e;
      assert Tasks(r.delays.list)[i] == e.task;
    }
    PendingKept(r.sched, Apply(r.sched, step), r.since, r.clock, r.delays.tick, r.delays.list);
  }

  lemma DelayMoveKeeps(r: Run, c: nat, d: nat)
    requires DelayInv(r) && Allowed(r, DelayMove(c, d))
    ensures DelayInv(After(r, DelayMove(c, d)))
    ensures d > 0 ==> Entry(r.sched.current[c], r.delays.tick + d) in After(r, DelayMove(c, d)).delays.list
    ensures d > 0 ==> After(r, DelayMove(c, d)).sched == r.sched.(states := r.sched.states[r.sched.current[c] := BLOCKED])
    ensures d == 0 ==> After(r, DelayMove(c, d)) == r.(clock := r.clock + 1)
  {
    var s, list, t: nat := r.sched, r.delays.list, r.sched.current[c];
    var r' := After(r, DelayMove(c, d));
    forall i | 0 <= i < |list|
      ensures list[i].task != t && list[i].task in r.since && r.since[list[i].task] < r.clock
    {
      assert IsPending(s, r.since, r.clock, r.delays.tick, list[i]);
    }
    if d == 0 {
      PendingKept(s, s, r.since, r.clock, r.delays.tick, list);
    } else {
      var e := Entry(t, r.delays.tick + d);
      BlockKeeps(s, c);
      InsertSorted(r.since, r.clock, list, e);
      InsertMembers(list, e);
      forall i | 0 <= i < |r'.delays.list|
        ensures IsPending(r'.sched, r'.since, r'.clock, r.delays.tick, r'.delays.list[i])
      {
        assert r'.delays.list[i] in r'.delays.list;
        if r'.delays.list[i] != e {
          var k :| 0 <= k < |list| && list[k] == r'.delays.list[i];
          assert IsPending(s, r.since, r.clock, r.delays.tick, list[k]);
        }
      }
      InsertDistinct(list, e);
    }
  }

  lemma {:induction false} InsertDistinct(list: seq<Entry>, e: Entry)
    requires Distinct(Tasks(list)) && e.task !in Tasks(list)
    ensures Distinct(Tasks(Insert(list, e)))
  {
    if list != [] && list[0].wake <= e.wake {
      var rest := list[1..];
      assert Tasks(rest) == Tasks(list)[1..];
      InsertDistinct(rest, e);
      InsertMembers(rest, e);
      var more := Insert(rest, e);
      forall j | 0 <= j < |more|
        ensures more[j].task != list[0].task
      {
        assert more[j] in more;
        if more[j] != e {
          var i :| 0 <= i < |rest| && rest[i] == more[j];
          assert Tasks(list)[i + 1] == more[j].task;
        }
      }
    } else {
      assert forall i | 0 <= i < |list| :: list[i].task == Tasks(list)[i];
    }
  }

  lemma RemoveMoveKeeps(r: Run, t: nat)
    requires DelayInv(r) && Allowed(r, RemoveMove(t))
    ensures DelayInv(After(r, RemoveMove(t)))
    ensures forall e :: e in After(r, RemoveMove(t)).delays.list <==> e in r.delays.list && e.task != t
  {
    var list, rest := r.delays.list, Remove(r.delays.list, t);
    RemoveMembers(r.since, list, t);
    PendingKept(r.sched, r.sched, r.since, r.clock, r.delays.tick, list);
    forall i | 0 <= i < |rest|
      ensures IsPending(r.sched, r.since, r.clock + 1, r.delays.tick, rest[i])
    {
      assert rest[i] in rest;
    }
  }

  /** One due task leaves the head of the list. */
  lemma ExpireHead(s: Sched, list: seq<Entry>, since: map<nat, nat>, now: nat, early: nat)
    requires Inv(s) && Pending(s, since, now, early, list) && Sorted(since, list) && Distinct(Tasks(list))
    requires list != [] && list[0].task !in s.current
    ensures list[0].task < |s.states| && list[0].task !in Tasks(list[1..])
    ensures var s1 := MakeReady(s, list[0].task);
            && Inv(s1) && s1.current == s.current && s1.states == s.states[list[0].task := READY]
            && Pending(s1, since, now, early, list[1..])
    ensures Sorted(since, list[1..]) && Distinct(Tasks(list[1..]))
  {
    var t, rest := list[0].task, list[1..];
    assert Tasks(rest) == Tasks(list)[1..];
    assert IsPending(s, since, now, early, list[0]);
    WakeSafeIff(s, t);
    forall i | 0 <= i < |rest|
      ensures IsPending(MakeReady(s, t), since, now, early, rest[i]) && rest[i].task != t
    {
      assert Tasks(list)[i + 1] == rest[i].task;
      assert IsPending(s, since, now, early, list[i + 1]);
    }
  }

  /** With the head not due, no entry is due. */
  lemma ExpireNone(s: Sched, list: seq<Entry>, since: map<nat, nat>, now: nat, early: nat, tick: nat)
    requires Pending(s, since, now, early, list) && Sorted(since, list)
    requires list == [] || list[0].wake > tick
    ensures Pending(s, since, now, tick, list)
  {
    forall i | 0 <= i < |list|
      ensures IsPending(s, since, now, tick, list[i])
    {
      assert IsPending(s, since, now, early, list[i]);
      assert i > 0 ==> Sooner(since, list[0], list[i]);
    }
  }

  lemma PendingBelow(s: Sched, since: map<nat, nat>, now: nat, tick: nat, list: seq<Entry>)
    requires Pending(s, since, now, tick, list)
    ensures Below(Tasks(list), |s.states|)
    ensures forall e | e in list :: IsPending(s, since, now, tick, e)
  {
    forall i | 0 <= i < |list|
      ensures Tasks(list)[i] < |s.states|
    {
      assert IsPending(s, since, now, tick, list[i]);
    }
  }

  /** What delay_check_wakeups does to a sorted list: the due tasks, and no others,
      leave it and are ready. */
  lemma {:induction false} ExpireWakes(s: Sched, m: Delays, since: map<nat, nat>, now: nat, early: nat)
    requires Inv(s) && Pending(s, since, now, early, m.list) && Sorted(since, m.list) && Distinct(Tasks(m.list))
    requires forall e | e in m.list && e.wake <= m.tick :: e.task !in s.current
    ensures Below(Tasks(m.list), |s.states|)
    ensures var (s', m') := Expire(s, m);
            && Inv(s') && |s'.states| == |s.states| && s'.current == s.current && m'.tick == m.tick
            && Pending(s', since, now, m.tick, m'.list) && Sorted(since, m'.list) && Distinct(Tasks(m'.list))
            && (forall e | e in m'.list :: e in m.list)
            && (forall e | e in m.list && e.wake > m.tick :: e in m'.list)
            && (forall e | e in m.list && e.wake <= m.tick :: e.task < |s.states| && s'.states[e.task] == READY)
            && (forall t: nat | t < |s.states| && s.states[t] == READY :: s'.states[t] == READY)
    decreases |m.list|
  {
    var list := m.list;
    PendingBelow(s, since, now, early, list);
    if list == [] || list[0].wake > m.tick {
      ExpireNone(s, list, since, now, early, m.tick);
      PendingBelow(s, since, now, m.tick, list);
    } else {
      var rest := list[1..];
      assert list == [list[0]] + rest && Tasks(rest) == Tasks(list)[1..];
      assert list[0] in list;
      ExpireHead(s, list, since, now, early);
      hide Inv;
      hide MakeReady;
      hide Pending;
      hide Sorted;
      hide Distinct;
      ExpireWakes(MakeReady(s, list[0].task), m.(list := rest), since, now, early);
    }
  }

  lemma TickMoveKeeps(r: Run)
    requires DelayInv(r) && Allowed(r, TickMove)
    ensures DelayInv(After(r, TickMove)) && After(r, TickMove).delays.tick == r.delays.tick + 1
    ensures |After(r, TickMove).sched.states| == |r.sched.states|
    ensures forall e | e in r.delays.list && e.wake > r.delays.tick + 1 :: e in After(r, TickMove).delays.list
    ensures forall e | e in r.delays.list && e.wake == r.delays.tick + 1 ::
              e.task < |After(r, TickMove).sched.states| && After(r, TickMove).sched.states[e.task] == READY
              && !OnList(After(r, TickMove), e.task)
  {
    hide Inv;
    hide Expire;
    hide Sorted;
    var m := r.delays.(tick := r.delays.tick + 1);
    ExpireWakes(r.sched, m, r.since, r.clock, r.delays.tick);
    var r' := After(r, TickMove);
    PendingKept(r'.sched, r'.sched, r.since, r.clock, m.tick, r'.delays.list);
    PendingBelow(r'.sched, r.since, r.clock, m.tick, r'.delays.list);
    forall e | e in r.delays.list && e.wake == m.tick
      ensures !OnList(r', e.task)
    {
      forall i | 0 <= i < |r'.delays.list|
        ensures Tasks(r'.delays.list)[i] != e.task
      {
        assert r'.delays.list[i] in r'.delays.list;
      }
    }
  }

  /** Insertion leaves the others in their order. */
  lemma {:induction false} InsertOthers(list: seq<Entry>, e: Entry)
    requires forall i | 0 <= i < |list| :: list[i].task != e.task
    ensures Remove(Insert(list, e), e.task) == list
  {
    if list == [] || list[0].wake > e.wake {
      assert ([e] + list)[1..] == list;
    } else {
      InsertOthers(list[1..], e);
    }
  }

  /** What delay_ticks does, in every state the runs reach. */
  lemma DelayEffect(r: Run, c: nat, d: nat)
    requires DelayInv(r) && Allowed(r, DelayMove(c, d))
    ensures c < |r.sched.current| && 0 <= r.sched.current[c] < |r.sched.states|
    ensures var t, m, r' := r.sched.current[c], r.delays, After(r, DelayMove(c, d));
            if d == 0 then
              r'.sched == r.sched && r'.delays == m
            else
              && r'.sched == r.sched.(states := r.sched.states[t := BLOCKED])
              && r'.delays.tick == m.tick && Entry(t, m.tick + d) in r'.delays.list
              && Remove(r'.delays.list, t) == m.list
  {
    DelayMoveKeeps(r, c, d);
    var list, t: nat := r.delays.list, r.sched.current[c];
    forall i | 0 <= i < |list|
      ensures list[i].task != t
    {
      assert IsPending(r.sched, r.since, r.clock, r.delays.tick, list[i]);
    }
    hide Inv;
    InsertOthers(list, Entry(t, r.delays.tick + d));
  }

  /** The tasks due by the tick, in the list's order. */
  function Due(list: seq<Entry>, tick: nat): seq<nat> {
    if list == [] then []
    else (if list[0].wake <= tick then [list[0].task] else []) + Due(list[1..], tick)
  }

  /** Those of the tasks that belong to level q, in order. */
  function OfLevel(prio: seq<nat>, ids: seq<nat>, q: nat): seq<nat>
    requires forall i | 0 <= i < |ids| :: ids[i] < |prio|
  {
    if ids == [] then []
    else (if Level(prio[ids[0]]) == q then [ids[0]] else []) + OfLevel(prio, ids[1..], q)
  }

  /** The entries not due yet. */
  function NotDue(list: seq<Entry>, tick: nat): seq<Entry> {
    if list == [] then []
    else (if list[0].wake <= tick then [] else [list[0]]) + NotDue(list[1..], tick)
  }

  ghost predicate InWakeOrder(list: seq<Entry>) {
    forall i, j | 0 <= i < j < |list| :: list[i].wake <= list[j].wake
  }

  lemma {:induction false} DueBelow(list: seq<Entry>, tick: nat, n: nat)
    requires Below(Tasks(list), n)
    ensures Below(Due(list, tick), n)
  {
    if list != [] {
      assert Tasks(list[1..]) == Tasks(list)[1..];
      assert list[0].task == Tasks(list)[0];
      DueBelow(list[1..], tick, n);
    }
  }

  /** With the first entry not due, none is. */
  lemma {:induction false} NoneDue(list: seq<Entry>, tick: nat)
    requires forall i | 0 <= i < |list| :: list[i].wake > tick
    ensures Due(list, tick) == [] && NotDue(list, tick) == list
  {
    if list != [] {
      NoneDue(list[1..], tick);
    }
  }

  /** delay_check_wakeups: the due tasks become ready and join their levels in the list's order;
      every other task, queue place and entry stays. */
  lemma {:induction false} ExpireEffect(s: Sched, m: Delays)
    requires Shape(s) && Below(Tasks(m.list), |s.states|) && InWakeOrder(m.list)
    ensures Below(Due(m.list, m.tick), |s.states|)
    ensures var (n, m') := Expire(s, m);
            && m' == Delays(NotDue(m.list, m.tick), m.tick)
            && n.(states := s.states, ready := s.ready) == s && |n.states| == |s.states| && |n.ready| == MAX_PRIORITY
            && (forall t: nat | t < |s.states| :: n.states[t] == if t in Due(m.list, m.tick) then READY else s.states[t])
            && forall q | 0 <= q < MAX_PRIORITY :: n.ready[q] == s.ready[q] + OfLevel(s.prio, Due(m.list, m.tick), q)
    decreases |m.list|
  {
    hide MakeReady;
    hide OfLevel;
    hide Level;
    hide Due;
    hide NotDue;
    hide InWakeOrder;
    DueBelow(m.list, m.tick, |s.states|);
    DueHead(m.list, m.tick);
    if m.list == [] || m.list[0].wake > m.tick {
      LevelOfNone(s.prio);
    } else {
      var t, rest := Tasks(m.list)[0], m.list[1..];
      assert Tasks(rest) == Tasks(m.list)[1..];
      WakeEffect(s, t);
      ExpireEffect(MakeReady(s, t), m.(list := rest));
      LevelOfMore(s.prio, t, Due(rest, m.tick));
    }
  }

  lemma DueHead(list: seq<Entry>, tick: nat)
    requires InWakeOrder(list)
    ensures list != [] ==> InWakeOrder(list[1..])
    ensures if list == [] || list[0].wake > tick then Due(list, tick) == [] && NotDue(list, tick) == list
            else Due(list, tick) == [list[0].task] + Due(list[1..], tick) && NotDue(list, tick) == NotDue(list[1..], tick)
  {
    if list == [] || list[0].wake > tick {
      NoneDue(list, tick);
    }
  }

  lemma LevelOfNone(prio: seq<nat>)
    ensures forall q | 0 <= q < MAX_PRIORITY :: OfLevel(prio, [], q) == []
  {
  }

  lemma LevelOfMore(prio: seq<nat>, t: nat, ids: seq<nat>)
    requires t < |prio| && Below(ids, |prio|)
    ensures forall q | 0 <= q < MAX_PRIORITY ::
              OfLevel(prio, [t] + ids, q) == (if q == Level(prio[t]) then [t] else []) + OfLevel(prio, ids, q)
  {
    assert ([t] + ids)[1..] == ids;
  }

  /** The tick, in every state the runs reach: exactly the tasks due now become ready, first delayed first. */
  lemma TickEffect(r: Run)
    requires DelayInv(r) && Allowed(r, TickMove)
    ensures Below(Due(r.delays.list, r.delays.tick + 1), |r.sched.prio|) && |r.sched.ready| == MAX_PRIORITY
    ensures |r.sched.states| == |r.sched.prio|
    ensures var s, due, r' := r.sched, Due(r.delays.list, r.delays.tick + 1), After(r, TickMove);
            && r'.delays == Delays(NotDue(r.delays.list, r.delays.tick + 1), r.delays.tick + 1)
            && r'.sched.(states := s.states, ready := s.ready) == s
            && |r'.sched.states| == |s.states| && |r'.sched.ready| == MAX_PRIORITY
            && (forall t: nat | t < |s.states| :: r'.sched.states[t] == if t in due then READY else s.states[t])
            && forall q | 0 <= q < MAX_PRIORITY :: r'.sched.ready[q] == s.ready[q] + OfLevel(s.prio, due, q)
  {
    var m := r.delays.(tick := r.delays.tick + 1);
    forall i, j | 0 <= i < j < |m.list|
      ensures m.list[i].wake <= m.list[j].wake
    {
      assert Sooner(r.since, m.list[i], m.list[j]);
    }
    ExpireEffect(r.sched, m);
  }

  // ----- Exactness ---------------------------------------------------------

  lemma MoveKeeps(r: Run, move: Move)
    requires DelayInv(r) && Allowed(r, move)
    ensures DelayInv(After(r, move))
  {
    match move
    case KernelMove(step) => KernelMoveKeeps(r, step);
    case DelayMove(c, d) => DelayMoveKeeps(r, c, d);
    case RemoveMove(t) => RemoveMoveKeeps(r, t);
    case TickMove => TickMoveKeeps(r);
  }

  lemma {:induction false} MovesKeep(r0: Run, moves: seq<Move>, r: Run)
    requires DelayInv(r0) && Moves(r0, moves, r)
    ensures DelayInv(r)
  {
    if moves != [] {
      var before, last := moves[..|moves| - 1], moves[|moves| - 1];
      var mid := LastMove(r0, moves, r);
      MovesKeep(r0, before, mid);
      MoveKeeps(mid, last);
    }
  }

  lemma StartInv(cores: nat)
    ensures DelayInv(Started(cores))
  {
    BootInv(cores);
  }

  /** After every run from boot the list is sorted by wake-up tick, ties in order of
      arrival, holds no task twice, and no wake-up in it is overdue. */
  lemma DelaysSafe(cores: nat, moves: seq<Move>, r: Run)
    requires Moves(Started(cores), moves, r)
    ensures Sorted(r.since, r.delays.list) && Distinct(Tasks(r.delays.list))
    ensures forall e | e in r.delays.list :: e.wake > r.delays.tick && e.task < |r.sched.states| && r.sched.states[e.task] == BLOCKED
    ensures Inv(r.sched)
  {
    StartInv(cores);
    MovesKeep(Started(cores), moves, r);
    PendingBelow(r.sched, r.since, r.clock, r.delays.tick, r.delays.list);
  }

  /** An entry stays on the list until its tick comes or its task is removed. */
  lemma EntryStays(r: Run, move: Move, e: Entry)
    requires DelayInv(r) && Allowed(r, move) && e in r.delays.list
    requires move != RemoveMove(e.task) && (move == TickMove ==> e.wake > r.delays.tick + 1)
    ensures e in After(r, move).delays.list
  {
    match move
    case KernelMove(step) =>
    case DelayMove(c, d) =>
      InsertMembers(r.delays.list, Entry(r.sched.current[c], r.delays.tick + d));
    case RemoveMove(t) => RemoveMoveKeeps(r, t);
    case TickMove => TickMoveKeeps(r);
  }

  /** The tick move taken in r wakes t. */
  ghost predicate Wakes(r: Run, t: nat) {
    && Allowed(r, TickMove) && OnList(r, t) && !OnList(After(r, TickMove), t)
    && t < |r.sched.states| == |After(r, TickMove).sched.states|
    && r.sched.states[t] == BLOCKED && After(r, TickMove).sched.states[t] == READY
  }

  /** The k-th of the moves from r0 is the tick from wake - 1 to wake, and it wakes t. */
  ghost predicate WokenAt(r0: Run, moves: seq<Move>, k: nat, t: nat, wake: nat) {
    && k < |moves| && moves[k] == TickMove
    && exists mid :: Moves(r0, moves[..k], mid) && mid.delays.tick + 1 == wake && Wakes(mid, t)
  }

  /** A listed task that is not removed is blocked and listed until its tick, and is
      woken by the move that makes the tick its wake-up tick: not earlier, not later. */
  lemma {:induction false} WokenExactly(r0: Run, moves: seq<Move>, r: Run, e: Entry)
    requires DelayInv(r0) && e in r0.delays.list && Moves(r0, moves, r) && RemoveMove(e.task) !in moves
    ensures r.delays.tick < e.wake ==> e in r.delays.list && e.task < |r.sched.states| && r.sched.states[e.task] == BLOCKED
    ensures r.delays.tick >= e.wake ==> exists k: nat :: WokenAt(r0, moves, k, e.task, e.wake)
  {
    if moves == [] {
      PendingBelow(r.sched, r.since, r.clock, r.delays.tick, r.delays.list);
    } else {
      var before, last := moves[..|moves| - 1], moves[|moves| - 1];
      var mid := LastMove(r0, moves, r);
      WokenExactly(r0, before, mid, e);
      MovesKeep(r0, before, mid);
      EntryMoves(mid, last, r, e);
      hide DelayInv;
      hide OneMove;
      if mid.delays.tick >= e.wake {
        var k: nat :| WokenAt(r0, before, k, e.task, e.wake);
        WokenBefore(r0, moves, k, e.task, e.wake);
      } else if r.delays.tick >= e.wake {
        WokenLast(r0, moves, mid, e.task, e.wake);
      }
    }
  }

  lemma WokenBefore(r0: Run, moves: seq<Move>, k: nat, t: nat, wake: nat)
    requires moves != [] && WokenAt(r0, moves[..|moves| - 1], k, t, wake)
    ensures WokenAt(r0, moves, k, t, wake)
  {
    assert moves[..|moves| - 1][..k] == moves[..k];
  }

  lemma WokenLast(r0: Run, moves: seq<Move>, mid: Run, t: nat, wake: nat)
    requires moves != [] && moves[|moves| - 1] == TickMove && Moves(r0, moves[..|moves| - 1], mid)
    requires mid.delays.tick + 1 == wake && Wakes(mid, t)
    ensures WokenAt(r0, moves, |moves| - 1, t, wake)
  {
  }

  /** One move leaves an entry pending, or is the tick that wakes its task. */
  lemma EntryMoves(mid: Run, move: Move, r: Run, e: Entry)
    requires DelayInv(mid) && OneMove(mid, move, r) && move != RemoveMove(e.task)
    requires mid.delays.tick < e.wake ==> e in mid.delays.list
    ensures mid.delays.tick >= e.wake ==> r.delays.tick >= e.wake
    ensures r.delays.tick < e.wake ==> e in r.delays.list && e.task < |r.sched.states| && r.sched.states[e.task] == BLOCKED
    ensures mid.delays.tick < e.wake <= r.delays.tick ==> move == TickMove && mid.delays.tick + 1 == e.wake && Wakes(mid, e.task)
  {
    TickAdvances(mid, move);
    if move == TickMove && e.wake == mid.delays.tick + 1 {
      WakesNow(mid, e);
    } else if mid.delays.tick < e.wake {
      MoveKeeps(mid, move);
      EntryStays(mid, move, e);
      PendingBelow(r.sched, r.since, r.clock, r.delays.tick, r.delays.list);
    }
  }

  lemma TickAdvances(r: Run, move: Move)
    requires DelayInv(r) && Allowed(r, move)
    ensures After(r, move).delays.tick == if move == TickMove then r.delays.tick + 1 else r.delays.tick
  {
    if move == TickMove {
      TickMoveKeeps(r);
    }
  }

  lemma WakesNow(r: Run, e: Entry)
    requires DelayInv(r) && Allowed(r, TickMove) && e in r.delays.list && e.wake == r.delays.tick + 1
    ensures Wakes(r, e.task)
  {
    TickMoveKeeps(r);
    PendingBelow(r.sched, r.since, r.clock, r.delays.tick, r.delays.list);
    EntryListed(r, e);
    hide DelayInv;
    hide Allowed;
    hide After;
    hide OnList;
  }

  lemma EntryListed(r: Run, e: Entry)
    requires e in r.delays.list
    ensures OnList(r, e.task)
  {
    var i :| 0 <= i < |r.delays.list| && r.delays.list[i] == e;
    assert Tasks(r.delays.list)[i] == e.task;
  }

  /** A task that calls delay_ticks(d), d >= 1, at tick T and is not removed is woken at exactly tick T + d. */
  lemma DelayIsExact(cores: nat, first: seq<Move>, r: Run, c: nat, d: nat, delayed: Run, t: nat, moves: seq<Move>, r': Run)
    requires Moves(Started(cores), first, r) && d >= 1 && OneMove(r, DelayMove(c, d), delayed)
    requires c < |r.sched.current| && r.sched.current[c] == t
    requires Moves(delayed, moves, r') && RemoveMove(t) !in moves
    ensures var wake := r.delays.tick + d;
            && (r'.delays.tick < wake ==> t < |r'.sched.states| && r'.sched.states[t] == BLOCKED && OnList(r', t))
            && (r'.delays.tick >= wake ==> exists k: nat :: WokenAt(delayed, moves, k, t, wake))
  {
    var e := Entry(t, r.delays.tick + d);
    DelayLists(cores, first, r, c, d, delayed);
    hide OneMove;
    hide DelayInv;
    hide WokenAt;
    hide OnList;
    WokenExactly(delayed, moves, r', e);
    if r'.delays.tick < e.wake {
      EntryListed(r', e);
    }
  }

  lemma DelayLists(cores: nat, first: seq<Move>, r: Run, c: nat, d: nat, delayed: Run)
    requires Moves(Started(cores), first, r) && d >= 1 && OneMove(r, DelayMove(c, d), delayed)
    ensures DelayInv(delayed) && c < |r.sched.current| && r.sched.current[c] >= 0
    ensures Entry(r.sched.current[c], r.delays.tick + d) in delayed.delays.list
  {
    StartInv(cores);
    MovesKeep(Started(cores), first, r);
    DelayMoveKeeps(r, c, d);
  }
}

/** driver/scheduler/scheduler.c as values: who is current, who waits on which queue in which order, who
    has been freed. The pointer code is in SchedRings.dfy and refines these functions. */
module SchedModel {
  import opened Numerals
  import opened Sequences

  datatype PState = READY | RUNNING | SLEEPING | ZOMBIE

  datatype Current<+T> = Nobody | Somebody(task: T, state: PState)

  /** Processes on the ready queue are READY and those on the sleep queue SLEEPING, so only the current
      one has a state of its own. `dead` lists the tasks freed, oldest first; `lost` those the scheduler
      made a node for but put nowhere. */
  datatype Sched<T> = Sched(cur: Current<T>, ready: seq<T>, sleep: seq<T>, dead: seq<T>, lost: seq<T>)

  function Empty<T>(): Sched<T> {
    Sched(Nobody, [], [], [], [])
  }

  // ----- Operations -----

  /** `scheduleProcess` for a task whose process is in state st. */
  function Schedule<T>(s: Sched<T>, t: T, st: PState): Sched<T> {
    match st
    case READY =>
      if s.cur.Nobody? then s.(cur := Somebody(t, RUNNING)) else s.(ready := s.ready + [t])
    case SLEEPING => s.(sleep := s.sleep + [t])
    case _ => s.(lost := s.lost + [t])
  }

  /** `rescheduleProcess`. */
  function Reschedule<T>(s: Sched<T>, t: T, st: PState): Sched<T> {
    match st
    case READY => s.(ready := s.ready + [t])
    case SLEEPING => s.(sleep := s.sleep + [t])
    case ZOMBIE => s.(dead := s.dead + [t])
    case RUNNING => s.(lost := s.lost + [t])
  }

  /** `procSwitch` dereferences the current process when somebody is ready. */
  predicate CanSwitch<T>(s: Sched<T>) {
    s.ready == [] || s.cur.Somebody?
  }

  function Yielded(st: PState): PState {
    if st == RUNNING then READY else st
  }

  /** `procSwitch`. The incoming process stays READY. */
  function Switch<T>(s: Sched<T>): Sched<T>
    requires CanSwitch(s)
  {
    if s.ready == [] then s
    else
      var s1 := Reschedule(s, s.cur.task, Yielded(s.cur.state));
      s1.(cur := Somebody(s1.ready[0], READY), ready := s1.ready[1..])
  }

  /** `awakenProcess`. */
  function Awaken<T>(s: Sched<T>): Sched<T> {
    if s.sleep == [] then s else Reschedule(s.(sleep := s.sleep[1..]), s.sleep[0], READY)
  }

  /** The current process changes its own state; nothing outside the scheduler changes another's. */
  function SetState<T>(s: Sched<T>, st: PState): Sched<T>
    requires s.cur.Somebody?
  {
    s.(cur := Somebody(s.cur.task, st))
  }

  /** One iteration of a loop of `killScheduler`: the first task of a queue is freed. */
  function Ended<T>(s: Sched<T>, ofReady: bool): Sched<T>
    requires if ofReady then s.ready != [] else s.sleep != []
  {
    if ofReady then s.(ready := s.ready[1..], dead := s.dead + [s.ready[0]])
    else s.(sleep := s.sleep[1..], dead := s.dead + [s.sleep[0]])
  }

  /** `killScheduler`. */
  function AllEnded<T>(s: Sched<T>): Sched<T> {
    Sched(Nobody, [], [], s.dead + s.ready + s.sleep + Held(s.cur), s.lost)
  }

  // ----- Runs -----

  datatype Op<T> = DoSchedule(task: T, state: PState) | DoSwitch | DoAwaken | DoSetState(to: PState)

  predicate Enabled<T>(s: Sched<T>, op: Op<T>) {
    match op
    case DoSwitch => CanSwitch(s)
    case DoSetState(_) => s.cur.Somebody?
    case _ => true
  }

  function Step<T>(s: Sched<T>, op: Op<T>): Sched<T>
    requires Enabled(s, op)
  {
    match op
    case DoSchedule(t, st) => Schedule(s, t, st)
    case DoSwitch => Switch(s)
    case DoAwaken => Awaken(s)
    case DoSetState(st) => SetState(s, st)
  }

  predicate Legal<T>(s: Sched<T>, ops: seq<Op<T>>)
    decreases ops
  {
    ops == [] || (Enabled(s, ops[0]) && Legal(Step(s, ops[0]), ops[1..]))
  }

  function Run<T>(s: Sched<T>, ops: seq<Op<T>>): Sched<T>
    requires Legal(s, ops)
    decreases ops
  {
    if ops == [] then s else Run(Step(s, ops[0]), ops[1..])
  }

  lemma {:induction false} RunSnoc<T>(s: Sched<T>, ops: seq<Op<T>>, op: Op<T>)
    ensures Legal(s, ops + [op]) <==> Legal(s, ops) && Enabled(Run(s, ops), op)
    ensures Legal(s, ops + [op]) ==> Run(s, ops + [op]) == Step(Run(s, ops), op)
    decreases ops
  {
    var all := ops + [op];
    if ops != [] {
      assert all[1..] == ops[1..] + [op];
      if Enabled(s, ops[0]) {
        RunSnoc(Step(s, ops[0]), ops[1..], op);
      }
    } else {
      assert all[1..] == [];
    }
  }

  // ----- Conservation -----

  function Held<T>(c: Current<T>): seq<T> {
    if c.Nobody? then [] else [c.task]
  }

  /** Every task the scheduler has ever been given, wherever it is now. */
  function Tally<T>(s: Sched<T>): multiset<T> {
    multiset(Held(s.cur)) + multiset(s.ready) + multiset(s.sleep) + multiset(s.dead) + multiset(s.lost)
  }

  function Scheduled<T>(ops: seq<Op<T>>): seq<T> {
    if ops == [] then []
    else (if ops[0].DoSchedule? then [ops[0].task] else []) + Scheduled(ops[1..])
  }

  lemma FrontApart<T>(q: seq<T>)
    requires q != []
    ensures multiset(q) == multiset{q[0]} + multiset(q[1..])
  {
    assert q == [q[0]] + q[1..];
  }

  lemma ScheduleConserves<T>(s: Sched<T>, t: T, st: PState)
    ensures Tally(Schedule(s, t, st)) == Tally(s) + multiset{t}
  {
  }

  lemma AwakenConserves<T>(s: Sched<T>)
    ensures Tally(Awaken(s)) == Tally(s)
  {
    if s.sleep != [] {
      FrontApart(s.sleep);
      RescheduleConserves(s.(sleep := s.sleep[1..]), s.sleep[0], READY);
    }
  }

  lemma RescheduleShape<T>(s: Sched<T>, t: T, st: PState)
    ensures s.ready != [] ==> Reschedule(s, t, st).ready != []
    ensures Reschedule(s.(cur := Nobody), t, st) == Reschedule(s, t, st).(cur := Nobody)
  {
  }

  lemma RescheduleConserves<T>(s: Sched<T>, t: T, st: PState)
    ensures Tally(Reschedule(s, t, st)) == Tally(s) + multiset{t}
  {
  }

  lemma CurrentApart<T>(s: Sched<T>)
    requires s.cur.Somebody?
    ensures Tally(s) == Tally(s.(cur := Nobody)) + multiset{s.cur.task}
  {
  }

  /** Making the first ready task current keeps the tally. */
  lemma HeadRuns<T>(s: Sched<T>)
    requires s.cur.Nobody? && s.ready != []
    ensures Tally(s.(cur := Somebody(s.ready[0], READY), ready := s.ready[1..])) == Tally(s)
  {
    FrontApart(s.ready);
  }

  lemma SwitchConserves<T>(s: Sched<T>)
    requires CanSwitch(s)
    ensures Tally(Switch(s)) == Tally(s)
  {
    hide Tally, Reschedule;
    if s.ready != [] {
      var t, st := s.cur.task, Yielded(s.cur.state);
      RescheduleShape(s, t, st);
      RescheduleConserves(s.(cur := Nobody), t, st);
      CurrentApart(s);
      HeadRuns(Reschedule(s.(cur := Nobody), t, st));
    }
  }

  lemma StepConserves<T>(s: Sched<T>, op: Op<T>)
    requires Enabled(s, op)
    ensures Tally(Step(s, op)) == Tally(s) + multiset(if op.DoSchedule? then [op.task] else [])
  {
    match op
    case DoSchedule(t, st) => ScheduleConserves(s, t, st);
    case DoSwitch => SwitchConserves(s);
    case DoAwaken => AwakenConserves(s);
    case DoSetState(st) =>
  }

  lemma {:induction false} RunConserves<T>(s: Sched<T>, ops: seq<Op<T>>)
    requires Legal(s, ops)
    ensures Tally(Run(s, ops)) == Tally(s) + multiset(Scheduled(ops))
    decreases ops
  {
    if ops == [] {
    } else {
      StepConserves(s, ops[0]);
      RunConserves(Step(s, ops[0]), ops[1..]);
      var first := if ops[0].DoSchedule? then [ops[0].task] else [];
      assert Scheduled(ops) == first + Scheduled(ops[1..]);
    }
  }

  lemma {:induction false} NoRepeatsCounts<T>(q: seq<T>)
    requires NoRepeats(q)
    ensures forall t :: multiset(q)[t] <= 1
  {
    if q == [] {
    } else {
      NoRepeatsCounts(q[1..]);
      assert q == [q[0]] + q[1..];
      assert q[0] !in q[1..];
    }
  }

  /** A task is lost exactly by being scheduled RUNNING or ZOMBIE. */
  lemma {:induction false} LostIff<T>(s: Sched<T>, ops: seq<Op<T>>, t: T)
    requires Legal(s, ops)
    ensures t in Run(s, ops).lost <==> t in s.lost || DoSchedule(t, RUNNING) in ops || DoSchedule(t, ZOMBIE) in ops
    decreases ops
  {
    if ops == [] {
    } else {
      LostIff(Step(s, ops[0]), ops[1..], t);
      assert ops == [ops[0]] + ops[1..];
    }
  }

  /** In any run that schedules distinct tasks, each of them is in exactly one place: current, ready,
      asleep, freed or lost; and a task is lost exactly if it was scheduled RUNNING or ZOMBIE. */
  lemma ExactlyOnePlace<T>(ops: seq<Op<T>>, t: T)
    requires Legal(Empty<T>(), ops) && NoRepeats(Scheduled(ops))
    ensures var s := Run(Empty<T>(), ops);
      && multiset(Held(s.cur))[t] + multiset(s.ready)[t] + multiset(s.sleep)[t] + multiset(s.dead)[t]
           + multiset(s.lost)[t] == (if t in Scheduled(ops) then 1 else 0)
      && (t in s.lost <==> DoSchedule(t, RUNNING) in ops || DoSchedule(t, ZOMBIE) in ops)
  {
    RunConserves(Empty<T>(), ops);
    NoRepeatsCounts(Scheduled(ops));
    var s := Run(Empty<T>(), ops);
    assert Tally(Empty<T>()) == multiset{};
    assert Tally(s) == multiset(Scheduled(ops));
    assert t in multiset(Scheduled(ops)) <==> t in Scheduled(ops);
    LostIff(Empty<T>(), ops, t);
  }

  /** After a run of distinct tasks and `killScheduler`, each task scheduled READY or SLEEPING has been freed
      once, and no other task has been freed. */
  lemma KillFreesEachOnce<T>(ops: seq<Op<T>>, t: T)
    requires Legal(Empty<T>(), ops) && NoRepeats(Scheduled(ops))
    ensures var dead := AllEnded(Run(Empty<T>(), ops)).dead;
      multiset(dead)[t] == if t in Scheduled(ops) && DoSchedule(t, RUNNING) !in ops && DoSchedule(t, ZOMBIE) !in ops
                           then 1 else 0
  {
    var s := Run(Empty<T>(), ops);
    ExactlyOnePlace(ops, t);
    assert AllEnded(s).dead == s.dead + s.ready + s.sleep + Held(s.cur);
    assert multiset(AllEnded(s).dead)
        == multiset(s.dead) + multiset(s.ready) + multiset(s.sleep) + multiset(Held(s.cur));
  }

  // ----- Who can be current -----

  lemma {:induction false} NobodyStays<T>(s: Sched<T>, ops: seq<Op<T>>)
    requires Legal(s, ops)
    ensures Run(s, ops).cur.Nobody? <==> s.cur.Nobody? && forall t :: DoSchedule(t, READY) !in ops
    decreases ops
  {
    if ops == [] {
    } else {
      NobodyStays(Step(s, ops[0]), ops[1..]);
      assert ops == [ops[0]] + ops[1..];
    }
  }

  /** Some process is scheduled SLEEPING, and a later call awakens. */
  predicate WakesSleeper<T(==)>(ops: seq<Op<T>>) {
    ops != []
    && ((ops[0].DoSchedule? && ops[0].state == SLEEPING && DoAwaken in ops[1..]) || WakesSleeper(ops[1..]))
  }

  /** With nobody current throughout, somebody becomes ready exactly by being awakened. */
  lemma {:induction false} ReadyWithoutCurrent<T>(s: Sched<T>, ops: seq<Op<T>>)
    requires Legal(s, ops) && s.cur.Nobody? && forall t :: DoSchedule(t, READY) !in ops
    ensures Run(s, ops).ready == [] <==>
      s.ready == [] && !(s.sleep != [] && DoAwaken in ops) && !WakesSleeper(ops)
    decreases ops
  {
    if ops == [] {
    } else {
      assert ops == [ops[0]] + ops[1..];
      ReadyWithoutCurrent(Step(s, ops[0]), ops[1..]);
    }
  }

  /** Somebody is current after a run exactly if some process was scheduled READY: then `killScheduler` can
      end the current process, and `procSwitch` is safe. Otherwise `procSwitch` is safe exactly if no sleeper
      was awakened. */
  lemma SwitchSafeIff<T>(ops: seq<Op<T>>)
    requires Legal(Empty<T>(), ops)
    ensures Run(Empty<T>(), ops).cur.Somebody? <==> exists t :: DoSchedule(t, READY) in ops
    ensures CanSwitch(Run(Empty<T>(), ops)) <==>
      (exists t :: DoSchedule(t, READY) in ops) || !WakesSleeper(ops)
  {
    NobodyStays(Empty<T>(), ops);
    if forall t :: DoSchedule(t, READY) !in ops {
      ReadyWithoutCurrent(Empty<T>(), ops);
    }
  }

  /** And it need not be: a process scheduled SLEEPING and awakened is ready while nobody is current. */
  lemma SwitchCanBeUnsafe<T>(t: T)
    ensures var ops := [DoSchedule(t, SLEEPING), DoAwaken];
      Legal(Empty<T>(), ops) && !CanSwitch(Run(Empty<T>(), ops))
  {
    var s1 := Step(Empty<T>(), DoSchedule(t, SLEEPING));
    RunSnoc(Empty<T>(), [], DoSchedule(t, SLEEPING));
    RunSnoc(Empty<T>(), [DoSchedule(t, SLEEPING)], DoAwaken);
    assert [DoSchedule(t, SLEEPING)] + [DoAwaken] == [DoSchedule(t, SLEEPING), DoAwaken];
    assert [] + [DoSchedule(t, SLEEPING)] == [DoSchedule(t, SLEEPING)];
  }

  // ----- Bounded waiting -----

  function Switches<T>(ops: seq<Op<T>>): nat {
    if ops == [] then 0 else (if ops[0].DoSwitch? then 1 else 0) + Switches(ops[1..])
  }

  /** While no more than d switches have happened, the task that was at position d of the ready queue is on
      it, moved up by one position per switch, whatever else was scheduled, awakened, put to sleep or
      killed. */
  lemma {:induction false} MovesUp<T>(s: Sched<T>, ops: seq<Op<T>>, d: nat)
    requires Legal(s, ops) && d < |s.ready| && Switches(ops) <= d
    ensures var n := d - Switches(ops); var s' := Run(s, ops);
      n < |s'.ready| && s'.ready[n] == s.ready[d]
    decreases ops
  {
    if ops == [] {
    } else {
      MovesUp(Step(s, ops[0]), ops[1..], if ops[0].DoSwitch? then d - 1 else d);
    }
  }

  /** The task at position d of the ready queue becomes current at exactly the (d + 1)-th switch. */
  lemma BoundedWaiting<T>(s: Sched<T>, ops: seq<Op<T>>, d: nat)
    requires Legal(s, ops + [DoSwitch]) && d < |s.ready| && Switches(ops) == d
    ensures Run(s, ops + [DoSwitch]).cur == Somebody(s.ready[d], READY)
  {
    RunSnoc(s, ops, DoSwitch);
    MovesUp(s, ops, d);
  }

  // ----- Waking up -----

  function Awakenings<T>(ops: seq<Op<T>>): nat {
    if ops == [] then 0 else (if ops[0].DoAwaken? then 1 else 0) + Awakenings(ops[1..])
  }

  /** Sleepers move up too, by one position per call of `awakenProcess` and by nothing else. */
  lemma {:induction false} SleeperMovesUp<T>(s: Sched<T>, ops: seq<Op<T>>, d: nat)
    requires Legal(s, ops) && d < |s.sleep| && Awakenings(ops) <= d
    ensures var n := d - Awakenings(ops); var s' := Run(s, ops);
      n < |s'.sleep| && s'.sleep[n] == s.sleep[d]
    decreases ops
  {
    if ops == [] {
    } else {
      SleeperMovesUp(Step(s, ops[0]), ops[1..], if ops[0].DoAwaken? then d - 1 else d);
    }
  }

  /** The task at position d of the sleep queue is awakened by exactly the (d + 1)-th call, and goes to the
      end of the ready queue. */
  lemma AwakenedInTurn<T>(s: Sched<T>, ops: seq<Op<T>>, d: nat)
    requires Legal(s, ops) && d < |s.sleep| && Awakenings(ops) == d
    ensures Legal(s, ops + [DoAwaken]) && Run(s, ops).sleep != []
    ensures Run(s, ops + [DoAwaken]).ready == Run(s, ops).ready + [s.sleep[d]]
    ensures Run(s, ops + [DoAwaken]).sleep == Run(s, ops).sleep[1..]
  {
    RunSnoc(s, ops, DoAwaken);
    SleeperMovesUp(s, ops, d);
  }

  /** Once awakened, it becomes current at exactly the switch after as many as there were ready tasks. */
  lemma AwakenedThenRuns<T>(s: Sched<T>, later: seq<Op<T>>)
    requires s.sleep != [] && Legal(Awaken(s), later + [DoSwitch]) && Switches(later) == |s.ready|
    ensures Run(Awaken(s), later + [DoSwitch]).cur == Somebody(s.sleep[0], READY)
  {
    BoundedWaiting(Awaken(s), later, |s.ready|);
  }

  // ----- Where each operation puts a task -----

  /** The first process scheduled READY. */
  function FirstReady<T>(ops: seq<Op<T>>): Option<T> {
    if ops == [] then None
    else if ops[0].DoSchedule? && ops[0].state == READY then Some(ops[0].task)
    else FirstReady(ops[1..])
  }

  predicate LeavesCurrent<T>(op: Op<T>) {
    !op.DoSwitch? && !op.DoSetState?
  }

  /** The current task and its state change only by a switch, by a change of state, or by the first process
      scheduled READY, which runs; and only a switch ends a task. */
  lemma {:induction false} CurrentStays<T>(s: Sched<T>, ops: seq<Op<T>>)
    requires Legal(s, ops) && forall i :: 0 <= i < |ops| ==> LeavesCurrent(ops[i])
    ensures Run(s, ops).dead == s.dead
    ensures Run(s, ops).cur ==
            if s.cur.Somebody? then s.cur
            else match FirstReady(ops) case None => Nobody case Some(t) => Somebody(t, RUNNING)
    decreases ops
  {
    if ops == [] {
    } else {
      assert LeavesCurrent(ops[0]);
      CurrentStays(Step(s, ops[0]), ops[1..]);
    }
  }

  /** A change of state changes nothing else. */
  lemma StateChanges<T>(s: Sched<T>, st: PState)
    requires s.cur.Somebody?
    ensures Legal(s, [DoSetState(st)]) && Run(s, [DoSetState(st)]) == s.(cur := Somebody(s.cur.task, st))
  {
    RunOne(s, DoSetState(st));
  }

  lemma RunOne<T>(s: Sched<T>, op: Op<T>)
    ensures Legal(s, [op]) <==> Enabled(s, op)
    ensures Enabled(s, op) ==> Run(s, [op]) == Step(s, op)
  {
    assert [op][1..] == [];
  }

  lemma {:induction false} RunConcat<T>(s: Sched<T>, a: seq<Op<T>>, b: seq<Op<T>>)
    ensures Legal(s, a + b) <==> Legal(s, a) && Legal(Run(s, a), b)
    ensures Legal(s, a + b) ==> Run(s, a + b) == Run(Run(s, a), b)
    decreases a
  {
    if a == [] {
      assert a + b == b;
    } else {
      assert (a + b)[1..] == a[1..] + b;
      if Enabled(s, a[0]) {
        RunConcat(Step(s, a[0]), a[1..], b);
      }
    }
  }

  /** A process scheduled READY while another is current becomes current at exactly the switch after as many as
      there were ready tasks. */
  lemma ScheduledThenRuns<T>(s: Sched<T>, t: T, ops: seq<Op<T>>)
    requires s.cur.Somebody? && Legal(s, [DoSchedule(t, READY)] + ops + [DoSwitch]) && Switches(ops) == |s.ready|
    ensures Run(s, [DoSchedule(t, READY)] + ops + [DoSwitch]).cur == Somebody(t, READY)
  {
    var first := [DoSchedule(t, READY)];
    assert first + ops + [DoSwitch] == first + (ops + [DoSwitch]);
    RunConcat(s, first, ops + [DoSwitch]);
    RunOne(s, first[0]);
    BoundedWaiting(Run(s, first), ops, |s.ready|);
  }

  /** The last sleeper stays asleep until everybody before it has been awakened; then it joins the ready queue. */
  lemma LastSleeper<T>(s: Sched<T>, t: T, ahead: seq<T>, ops: seq<Op<T>>)
    requires s.sleep == ahead + [t] && Legal(s, ops) && Awakenings(ops) <= |ahead|
    ensures |Run(s, ops).sleep| > |ahead| - Awakenings(ops) && Run(s, ops).sleep[|ahead| - Awakenings(ops)] == t
    ensures Awakenings(ops) == |ahead| ==>
      Legal(s, ops + [DoAwaken]) && Run(s, ops + [DoAwaken]).ready == Run(s, ops).ready + [t]
  {
    SleeperMovesUp(s, ops, |ahead|);
    if Awakenings(ops) == |ahead| {
      AwakenedInTurn(s, ops, |ahead|);
    }
  }

  /** A process scheduled SLEEPING sleeps behind the others, and becomes ready at exactly the awakening after as
      many as there were sleepers. */
  lemma ScheduledThenSleeps<T>(s: Sched<T>, t: T, ops: seq<Op<T>>)
    requires Legal(s, [DoSchedule(t, SLEEPING)] + ops) && Awakenings(ops) <= |s.sleep|
    ensures var all := [DoSchedule(t, SLEEPING)] + ops; var n := |s.sleep| - Awakenings(ops);
      && n < |Run(s, all).sleep| && Run(s, all).sleep[n] == t
      && (n == 0 ==> Legal(s, all + [DoAwaken]) && Run(s, all + [DoAwaken]).ready == Run(s, all).ready + [t])
  {
    ThenSleeps(s, DoSchedule(t, SLEEPING), t, ops);
  }

  lemma ThenSleeps<T>(s: Sched<T>, op: Op<T>, t: T, ops: seq<Op<T>>)
    requires Enabled(s, op) && Step(s, op).sleep == s.sleep + [t]
    requires Legal(s, [op] + ops) && Awakenings(ops) <= |s.sleep|
    ensures var all := [op] + ops; var n := |s.sleep| - Awakenings(ops);
      && n < |Run(s, all).sleep| && Run(s, all).sleep[n] == t
      && (n == 0 ==> Legal(s, all + [DoAwaken]) && Run(s, all + [DoAwaken]).ready == Run(s, all).ready + [t])
  {
    hide Step, Run, Legal, Enabled, Awakenings;
    RunOne(s, op);
    RunConcat(s, [op], ops);
    LastSleeper(Step(s, op), t, s.sleep, ops);
    assert [op] + ops + [DoAwaken] == [op] + (ops + [DoAwaken]);
    RunConcat(s, [op], ops + [DoAwaken]);
  }

  /** A current process that has gone to sleep leaves the processor to the first ready one and sleeps behind the
      others, until the awakening after as many as there were sleepers. */
  lemma SwitchThenSleeps<T>(s: Sched<T>, t: T, ops: seq<Op<T>>)
    requires s.cur == Somebody(t, SLEEPING) && s.ready != []
    requires Legal(s, [DoSwitch] + ops) && Awakenings(ops) <= |s.sleep|
    ensures Run(s, [DoSwitch]).sleep == s.sleep + [t] && Run(s, [DoSwitch]).ready == s.ready[1..]
    ensures var all := [DoSwitch] + ops; var n := |s.sleep| - Awakenings(ops);
      && n < |Run(s, all).sleep| && Run(s, all).sleep[n] == t
      && (n == 0 ==> Legal(s, all + [DoAwaken]) && Run(s, all + [DoAwaken]).ready == Run(s, all).ready + [t])
  {
    RunOne(s, DoSwitch);
    ThenSleeps(s, DoSwitch, t, ops);
  }

  /** With nobody ready, no number of switches changes anything, whoever is current and in whatever state. */
  lemma {:induction false} NobodyReady<T>(s: Sched<T>, ops: seq<Op<T>>)
    requires s.ready == [] && forall i :: 0 <= i < |ops| ==> ops[i] == DoSwitch
    ensures Legal(s, ops) && Run(s, ops) == s
    decreases ops
  {
    if ops == [] {
    } else {
      assert ops[0] == DoSwitch;
      NobodyReady(s, ops[1..]);
    }
  }

  /** Tasks that have been freed stay so, in order. */
  lemma {:induction false} DeadStay<T>(s: Sched<T>, ops: seq<Op<T>>)
    requires Legal(s, ops)
    ensures s.dead <= Run(s, ops).dead
    decreases ops
  {
    if ops == [] {
    } else {
      DeadStay(Step(s, ops[0]), ops[1..]);
    }
  }

  /** A current process that has died is freed by the next switch to another, and is nowhere else ever after. */
  lemma ZombieEnds<T>(s: Sched<T>, t: T, ops: seq<Op<T>>)
    requires s.cur.Somebody? && s.cur.task == t && s.ready != [] && Tally(s)[t] == 1 && t !in Scheduled(ops)
    requires Legal(s, [DoSetState(ZOMBIE), DoSwitch] + ops)
    ensures Run(s, [DoSetState(ZOMBIE), DoSwitch]).dead == s.dead + [t]
    ensures var later := Run(s, [DoSetState(ZOMBIE), DoSwitch] + ops);
      t in later.dead && t !in Held(later.cur) && t !in later.ready && t !in later.sleep
  {
    var first := [DoSetState(ZOMBIE), DoSwitch];
    RunConcat(s, first, ops);
    assert first == [DoSetState(ZOMBIE)] + [DoSwitch];
    RunConcat(s, [DoSetState(ZOMBIE)], [DoSwitch]);
    StateChanges(s, ZOMBIE);
    var s1 := Run(s, [DoSetState(ZOMBIE)]);
    RunOne(s1, DoSwitch);
    var s2 := Run(s, first);
    assert s2.dead == s.dead + [t];
    SwitchConserves(s1);
    RunConserves(s2, ops);
    DeadStay(s2, ops);
    OnlyDead(Run(s2, ops), s2.dead, t);
  }

  lemma OnlyDead<T>(s: Sched<T>, was: seq<T>, t: T)
    requires was <= s.dead && t in was && Tally(s)[t] <= 1
    ensures t in s.dead && t !in Held(s.cur) && t !in s.ready && t !in s.sleep
  {
    var i :| 0 <= i < |was| && was[i] == t;
    assert s.dead[i] == t;
    assert multiset(s.dead)[t] >= 1;
  }

  // ----- Rotation -----

  /** The current task and, behind it, the ready queue. */
  function Round<T>(s: Sched<T>): seq<T> {
    Held(s.cur) + s.ready
  }

  function SwitchTimes<T>(s: Sched<T>, n: nat): Sched<T>
    requires s.cur.Somebody?
  {
    if n == 0 then s else Switch(SwitchTimes(s, n - 1))
  }

  function Rotate<T>(q: seq<T>, n: nat): seq<T>
    requires n <= |q|
  {
    q[n..] + q[..n]
  }

  predicate Runnable(st: PState) {
    st == READY || st == RUNNING
  }

  lemma SwitchRotates<T>(s: Sched<T>)
    requires s.cur.Somebody? && Runnable(s.cur.state)
    ensures Round(Switch(s)) == Rotate(Round(s), 1)
    ensures Switch(s).cur.Somebody? && Runnable(Switch(s).cur.state)
    ensures Switch(s) == s.(cur := Switch(s).cur, ready := Switch(s).ready)
  {
    if s.ready != [] {
      assert s.ready + [s.cur.task] == [s.ready[0]] + (s.ready + [s.cur.task])[1..];
    }
  }

  lemma RotateNone<T>(q: seq<T>)
    ensures q != [] ==> Rotate(q, 0) == q && 0 % |q| == 0
  {
  }

  lemma RotateMore<T>(q: seq<T>, n: nat)
    requires n < |q|
    ensures Rotate(Rotate(q, n), 1) == Rotate(q, if n + 1 < |q| then n + 1 else 0)
  {
  }

  /** With no process going to sleep or dying, n switches rotate the round by n modulo its length and
      change nothing else; so after a full round everything is back in place. */
  lemma {:induction false} SwitchesRotate<T>(s: Sched<T>, n: nat)
    requires s.cur.Somebody? && Runnable(s.cur.state)
    ensures var s', k := SwitchTimes(s, n), n % |Round(s)|;
      && s'.cur.Somebody? && Runnable(s'.cur.state)
      && Round(s') == Rotate(Round(s), k)
      && s'.sleep == s.sleep && s'.dead == s.dead && s'.lost == s.lost
  {
    hide Switch, Rotate;
    if n == 0 {
      RotateNone(Round(s));
    } else {
      SwitchesRotate(s, n - 1);
      var s', k := SwitchTimes(s, n - 1), (n - 1) % |Round(s)|;
      SwitchRotates(s');
      RotateMore(Round(s), k);
      ModStep(n - 1, |Round(s)|);
    }
  }

  lemma ModStep(n: nat, m: nat)
    requires m > 0
    ensures (n + 1) % m == if n % m + 1 < m then n % m + 1 else 0
  {
    var q, r := n / m, n % m;
    assert n + 1 == q * m + (r + 1);
    if r + 1 < m {
      ModUnique(n + 1, m, q, r + 1);
    } else {
      assert n + 1 == (q + 1) * m;
      ModUnique(n + 1, m, q + 1, 0);
    }
  }

  lemma FullRound<T>(s: Sched<T>)
    requires s.cur.Somebody? && Runnable(s.cur.state)
    ensures var s' := SwitchTimes(s, |s.ready| + 1);
      s'.cur.Somebody? && s'.cur.task == s.cur.task && s'.ready == s.ready
  {
    SwitchesRotate(s, |s.ready| + 1);
    ModUnique(|s.ready| + 1, |s.ready| + 1, 1, 0);
    var s' := SwitchTimes(s, |s.ready| + 1);
    assert Round(s')[0] == Round(s)[0] && Round(s')[1..] == Round(s)[1..];
  }
}

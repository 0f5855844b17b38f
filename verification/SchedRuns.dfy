/** Whole runs of the pointer code. A run is given by the processes it schedules, since the nodes are made on
    the way; what SchedModel.dfy proves about runs holds of tasks named by their processes. */
module SchedRuns {
  import opened Numerals
  import opened SchedModel
  import opened SchedRings
  import opened Sequences

  // ----- Tasks named by their processes -----

  function Procs(q: seq<Task>): (r: seq<Proc>)
    ensures |r| == |q|
    ensures forall i :: 0 <= i < |q| ==> r[i] == q[i].process
  {
    seq(|q|, i requires 0 <= i < |q| => q[i].process)
  }

  function Named(s: Sched<Task>): Sched<Proc> {
    var cur := match s.cur case Nobody => Nobody case Somebody(t, st) => Somebody(t.process, st);
    Sched(cur, Procs(s.ready), Procs(s.sleep), Procs(s.dead), Procs(s.lost))
  }

  lemma ProcsSnoc(q: seq<Task>, t: Task)
    ensures Procs(q + [t]) == Procs(q) + [t.process]
  {
  }

  lemma ProcsRest(q: seq<Task>)
    requires q != []
    ensures Procs(q[1..]) == Procs(q)[1..]
  {
  }

  lemma NamedSchedule(s: Sched<Task>, t: Task, st: PState)
    ensures Named(Schedule(s, t, st)) == Schedule(Named(s), t.process, st)
  {
    hide Procs;
    ProcsSnoc(s.ready, t);
    ProcsSnoc(s.sleep, t);
    ProcsSnoc(s.lost, t);
  }

  lemma NamedReschedule(s: Sched<Task>, t: Task, st: PState)
    ensures Named(Reschedule(s, t, st)) == Reschedule(Named(s), t.process, st)
  {
    hide Procs;
    ProcsSnoc(s.ready, t);
    ProcsSnoc(s.sleep, t);
    ProcsSnoc(s.dead, t);
    ProcsSnoc(s.lost, t);
  }

  lemma NamedSwitch(s: Sched<Task>)
    requires CanSwitch(s)
    ensures CanSwitch(Named(s)) && Named(Switch(s)) == Switch(Named(s))
  {
    hide Procs;
    if s.ready == [] {
      assert Procs(s.ready) == [];
    } else {
      var st := Yielded(s.cur.state);
      NamedReschedule(s, s.cur.task, st);
      ProcsRest(Reschedule(s, s.cur.task, st).ready);
    }
  }

  lemma NamedAwaken(s: Sched<Task>)
    ensures Named(Awaken(s)) == Awaken(Named(s))
  {
    hide Procs;
    if s.sleep == [] {
      assert Procs(s.sleep) == [];
    } else {
      NamedReschedule(s.(sleep := s.sleep[1..]), s.sleep[0], READY);
      ProcsRest(s.sleep);
    }
  }

  // ----- Runs -----

  /** p is not the scheduler's yet, and in state st. */
  ghost predicate Offered(s: Scheduler, p: Proc, st: PState)
    reads s, p
  {
    p !in s.repr && p !in s.freed && p.state == Holds(st)
  }

  /** One operation, by the scheduler's interface or by the code outside it. */
  method Perform(s: Scheduler, op: Op<Proc>)
    requires s.Valid() && Enabled(Named(s.model), op)
    requires op.DoSchedule? ==> Offered(s, op.task, op.state)
    modifies s, s.repr, if op.DoSchedule? then {op.task} else {}
    ensures s.Valid() && Named(s.model) == Step(Named(old(s.model)), op)
    ensures forall o :: o in s.repr ==> o in old(s.repr) || fresh(o) || (op.DoSchedule? && o == op.task)
    ensures Within(s.freed, old(s.freed), old(s.repr))
  {
    hide Procs, Ring, Scheduler.Ledger, Scheduler.Queued;
    ghost var before := s.model;
    match op
    case DoSchedule(p, st) =>
      ghost var t := s.ScheduleProcess(p);
      NamedSchedule(before, t, st);
    case DoSwitch =>
      assert CanSwitch(before);
      s.ProcSwitch();
      NamedSwitch(before);
    case DoAwaken =>
      s.AwakenProcess();
      NamedAwaken(before);
    case DoSetState(st) =>
      s.SetCurrentState(st);
  }

  /** Each scheduled process is offered when the run starts. */
  ghost predicate AllOffered(s: Scheduler, ops: seq<Op<Proc>>)
    reads s, Scheduled(ops)
  {
    forall i {:trigger ops[i]} :: 0 <= i < |ops| && ops[i].DoSchedule? ==>
      ops[i].task in Scheduled(ops) && Offered(s, ops[i].task, ops[i].state)
  }

  lemma {:induction false} ScheduledAt<T>(ops: seq<Op<T>>, i: nat)
    requires i < |ops| && ops[i].DoSchedule?
    ensures ops[i].task in Scheduled(ops)
  {
    if i == 0 {
    } else {
      ScheduledAt(ops[1..], i - 1);
    }
  }

  lemma ScheduledRest<T>(ops: seq<Op<T>>)
    requires ops != [] && NoRepeats(Scheduled(ops))
    ensures NoRepeats(Scheduled(ops[1..]))
    ensures forall p :: p in Scheduled(ops[1..]) ==> p in Scheduled(ops)
    ensures ops[0].DoSchedule? ==> ops[0].task in Scheduled(ops) && ops[0].task !in Scheduled(ops[1..])
  {
    var first := if ops[0].DoSchedule? then [ops[0].task] else [];
    assert Scheduled(ops) == first + Scheduled(ops[1..]);
    assert Scheduled(ops[1..]) == Scheduled(ops)[|first|..];
  }

  /** A run: whatever is called in whatever order, the pointer code ends in the state the model says. */
  method Execute(s: Scheduler, ops: seq<Op<Proc>>)
    requires s.Valid() && Legal(Named(s.model), ops)
    requires NoRepeats(Scheduled(ops)) && AllOffered(s, ops)
    modifies s, s.repr, set p | p in Scheduled(ops)
    ensures s.Valid() && Named(s.model) == Run(Named(old(s.model)), ops)
    ensures forall o: object :: o in s.repr ==> o in old(s.repr) || fresh(o) || o in Scheduled(ops)
  {
    hide Scheduler.Valid, Named, NoRepeats;
    if ops != [] {
      var rest := ops[1..];
      ScheduledRest(ops);
      Perform(s, ops[0]);
      forall i | 0 <= i < |rest| && rest[i].DoSchedule?
        ensures rest[i].task in Scheduled(rest) && Offered(s, rest[i].task, rest[i].state)
      {
        ScheduledAt(rest, i);
        assert rest[i] == ops[i + 1];
      }
      Execute(s, rest);
    }
  }

  // ----- From start to shutdown -----

  predicate ReadyOrSleeping<T>(ops: seq<Op<T>>) {
    forall i :: 0 <= i < |ops| && ops[i].DoSchedule? ==> ops[i].state == READY || ops[i].state == SLEEPING
  }

  /** A run of READY and SLEEPING processes loses none. */
  lemma NoneLost<T>(ops: seq<Op<T>>)
    requires Legal(Empty<T>(), ops) && ReadyOrSleeping(ops)
    ensures Run(Empty<T>(), ops).lost == []
  {
    var s := Run(Empty<T>(), ops);
    if s.lost != [] {
      LostIff(Empty<T>(), ops, s.lost[0]);
    }
  }

  /** The tasks that are freed by shutting down in this state, or have been freed before. */
  function EndedTasks<T>(s: Sched<T>): seq<T> {
    s.dead + s.ready + s.sleep + Held(s.cur)
  }

  lemma EmptyTally<T>()
    ensures Tally(Empty<T>()) == multiset{}
  {
  }

  lemma TallyEnded<T>(s: Sched<T>)
    requires s.lost == []
    ensures multiset(EndedTasks(s)) == Tally(s)
  {
  }

  lemma AllScheduledEnd<T>(ops: seq<Op<T>>)
    requires Legal(Empty<T>(), ops) && ReadyOrSleeping(ops)
    ensures multiset(EndedTasks(Run(Empty<T>(), ops))) == multiset(Scheduled(ops))
  {
    hide Run, Tally, Scheduled, EndedTasks;
    NoneLost(ops);
    RunConserves(Empty<T>(), ops);
    EmptyTally<T>();
    TallyEnded(Run(Empty<T>(), ops));
  }

  lemma NamedEmpty()
    ensures Named(Empty<Task>()) == Empty<Proc>()
  {
  }

  lemma NamedEnded(s: Sched<Task>)
    ensures Procs(EndedTasks(s)) == EndedTasks(Named(s))
  {
  }

  /** Shutting down leaves exactly the tasks freed earlier, those freed now, and the sentinels on record. */
  method Shutdown(s: Scheduler) returns (ghost tasks: seq<Task>, ghost sentinels: seq<Node>)
    requires s.Valid() && s.model.cur.Somebody?
    modifies s, s.repr
    ensures tasks == EndedTasks(old(s.model)) && tasks != [] && |sentinels| == 2 && s.Ledger()
    ensures s.freed == FreedAtLast(tasks, sentinels)
  {
    hide Freed, Scheduler.Ledger, Scheduler.Queued, Ring;
    ghost var before := s.model;
    tasks, sentinels := EndedTasks(before), [s.readyQueue, s.sleepQueue];
    s.KillScheduler();
    FreedConcat(before.dead, before.ready + before.sleep);
    assert tasks[..|tasks| - 1] == before.dead + (before.ready + before.sleep);
  }

  /** What a whole life frees: each task's process and node, but the sentinels before the last task. */
  function FreedAtLast(tasks: seq<Task>, sentinels: seq<Node>): seq<object>
    requires tasks != []
  {
    var last := tasks[|tasks| - 1];
    Freed(tasks[..|tasks| - 1]) + sentinels + [last.process, last.node]
  }

  /** A scheduler's whole life, if every `free_memallc` returns. Every process that was scheduled is passed to it
      exactly once, followed by the node made for it; so are the two sentinels; nothing else is; and nothing is
      read or written afterwards. */
  method WholeLife(s: Scheduler, ops: seq<Op<Proc>>) returns (ghost tasks: seq<Task>, ghost sentinels: seq<Node>)
    requires Legal(Empty<Proc>(), ops) && NoRepeats(Scheduled(ops)) && ReadyOrSleeping(ops)
    requires exists p :: p in Scheduled(ops) && DoSchedule(p, READY) in ops
    requires forall i {:trigger ops[i]} :: 0 <= i < |ops| && ops[i].DoSchedule? ==>
      ops[i].task in Scheduled(ops) && ops[i].task.state == Holds(ops[i].state)
    modifies s, set p | p in Scheduled(ops)
    ensures multiset(Procs(tasks)) == multiset(Scheduled(ops)) && tasks != [] && |sentinels| == 2
    ensures s.freed == FreedAtLast(tasks, sentinels) && s.Ledger()
  {
    hide NoRepeats, Run, Freed, Procs, EndedTasks, FreedAtLast, Scheduler.Valid, Scheduler.Ledger;
    s.SchedulerInit();
    NamedEmpty();
    Execute(s, ops);
    NobodyStays(Empty<Proc>(), ops);
    AllScheduledEnd(ops);
    NamedEnded(s.model);
    tasks, sentinels := Shutdown(s);
  }
}

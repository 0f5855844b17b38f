/** driver/scheduler/scheduler.c as pointer code: two circular doubly linked rings with a sentinel each,
    and a current node. Every method is proved to do what SchedModel.dfy does to values. */
module SchedRings {
  import opened Numerals
  import opened SchedModel
  import opened Sequences

  /** A field in memory. It cannot be read if it was never set or its object has been freed. */
  datatype Field<+T> = Unreadable | Holds(value: T)

  /** A process, as far as the scheduler reads it. */
  class Proc {
    var state: Field<PState>
    /** The node made for this process. */
    ghost var owner: Node?

    constructor (state: PState)
      ensures this.state == Holds(state) && owner == null
    {
      this.state, owner := Holds(state), null;
    }
  }

  class Node {
    /** Never set in a sentinel. */
    var process: Field<Proc>
    var next: Field<Node>
    var prev: Field<Node>
    /** The sentinel of the ring this node is on; null for a sentinel and for a node on no ring. */
    ghost var home: Node?
  }

  /** A node and the process it was made for. */
  datatype Task = Task(node: Node, process: Proc)

  // ----- Rings -----

  /** Element i of a ring's tasks; the sentinel before the first and after the last. */
  function At(head: Node, q: seq<Task>, i: int): Node {
    if 0 <= i < |q| then q[i].node else head
  }

  predicate Distinct(q: seq<Task>) {
    forall i, j :: 0 <= i < j < |q| ==> q[i].node != q[j].node
  }

  /** From the sentinel head, `next` runs through exactly these tasks' nodes and back, and `prev` runs the
      same way in reverse. */
  ghost predicate Ring(head: Node, q: seq<Task>)
    reads head, set i | 0 <= i < |q| :: q[i].node
  {
    && Distinct(q) && head.home == null && head.process == Unreadable
    && (forall i {:trigger q[i].node} :: 0 <= i < |q| ==> q[i].node.home == head)
    && head.next == Holds(At(head, q, 0)) && head.prev == Holds(At(head, q, |q| - 1))
    && (forall i {:trigger q[i].node.next} :: 0 <= i < |q| ==> q[i].node.next == Holds(At(head, q, i + 1)))
    && (forall i {:trigger q[i].node.prev} :: 0 <= i < |q| ==> q[i].node.prev == Holds(At(head, q, i - 1)))
  }

  /** A sentinel alone in its ring. */
  method NewSentinel() returns (head: Node)
    ensures fresh(head) && Ring(head, [])
  {
    head := new Node;
    head.next := Holds(head);
    head.prev := Holds(head);
    head.process := Unreadable;
    head.home := null;
  }

  /** A new node for a process, initialized as `scheduleNodeInit` does. */
  method AllocateNode(process: Proc) returns (node: Node)
    modifies process`owner
    ensures fresh(node) && node.process == Holds(process) && process.owner == node
    ensures node.next == Holds(node) && node.prev == Holds(node) && node.home == null
  {
    node := new Node;
    node.process, node.next, node.prev, node.home := Holds(process), Holds(node), Holds(node), null;
    process.owner := node;
  }

  /** `queueProc`: the node goes to the end of the ring. */
  method QueueProc(head: Node, newNode: Node, ghost q: seq<Task>, ghost t: Task)
    requires Ring(head, q) && t.node == newNode && newNode != head && newNode.home == null
    modifies newNode`next, newNode`prev, newNode`home, head`prev, head.prev.value`next
    ensures Ring(head, q + [t])
  {
    newNode.next := Holds(head);
    newNode.prev := Holds(head.prev.value);
    head.prev.value.next := Holds(newNode);
    head.prev := Holds(newNode);
    newNode.home := head;
  }

  /** Its two neighbours link past the node. */
  method LinkPast(target: Node, ghost head: Node, ghost q: seq<Task>, ghost k: nat)
    requires Ring(head, q) && k < |q| && q[k].node == target
    modifies target.next.value`prev, target.prev.value`next, target`home
    ensures Ring(head, Without(q, k)) && target.home == null
  {
    hide Without;
    target.next.value.prev := Holds(target.prev.value);
    target.prev.value.next := Holds(target.next.value);
    target.home := null;
  }

  /** `dequeueProc`: the node leaves its ring, wherever it stands, and links to itself. */
  method DequeueProc(target: Node, ghost head: Node, ghost q: seq<Task>, ghost k: nat) returns (r: Node)
    requires Ring(head, q) && k < |q| && q[k].node == target
    modifies target.next.value`prev, target.prev.value`next, target`next, target`prev, target`home
    ensures r == target && Ring(head, Without(q, k))
    ensures target.next == Holds(target) && target.prev == Holds(target) && target.home == null
  {
    hide Without, Distinct;
    LinkPast(target, head, q, k);
    target.next := Holds(target);
    target.prev := Holds(target);
    r := target;
  }

  /** The call of `dequeueProc` every caller makes: the first node of a ring. */
  method DequeueFirst(target: Node, ghost head: Node, ghost q: seq<Task>) returns (r: Node)
    requires Ring(head, q) && q != [] && q[0].node == target
    modifies target.next.value`prev, target.prev.value`next, target`next, target`prev, target`home
    ensures r == target && r.home == null && Ring(head, q[1..])
  {
    r := DequeueProc(target, head, q, 0);
    WithoutFirst(q);
  }

  /** Nothing of a freed object can be read. */
  ghost predicate Gone(o: object)
    reads o
  {
    && (o is Node ==> var n := o as Node; n.process == Unreadable && n.next == Unreadable && n.prev == Unreadable)
    && (o is Proc ==> (o as Proc).state == Unreadable)
  }

  /** The objects of freed were in before or are in these. */
  ghost predicate Within(freed: seq<object>, before: seq<object>, these: set<object>) {
    forall o :: o in freed ==> o in before || o in these
  }

  /** What ending these tasks passes to `free_memallc`, in order: each task's process, then its node. */
  function Freed(q: seq<Task>): seq<object> {
    if q == [] then [] else Freed(q[..|q| - 1]) + [q[|q| - 1].process] + [q[|q| - 1].node]
  }

  lemma FreedSnoc(q: seq<Task>, t: Task)
    ensures Freed(q + [t]) == Freed(q) + [t.process] + [t.node]
  {
    assert (q + [t])[..|q|] == q;
  }

  lemma {:induction false} FreedConcat(p: seq<Task>, q: seq<Task>)
    ensures Freed(p + q) == Freed(p) + Freed(q)
  {
    if q == [] {
      assert p + q == p;
    } else {
      var t := q[|q| - 1];
      assert p + q == (p + q[..|q| - 1]) + [t];
      FreedSnoc(p + q[..|q| - 1], t);
      FreedConcat(p, q[..|q| - 1]);
    }
  }

  lemma EndedConcat(dead: seq<Task>, q: seq<Task>)
    ensures q != [] ==> dead + [q[0]] + q[1..] == dead + q
  {
  }

  /** The file's static variables, and the memory the scheduler owns. */
  class Scheduler {
    var readyQueue: Node?
    var sleepQueue: Node?
    var currentProc: Node?

    ghost var model: Sched<Task>
    /** The sentinels, nodes and processes that have been handed over and not been freed. */
    ghost var repr: set<object>
    /** Everything passed to `free_memallc`, in order. */
    ghost var freed: seq<object>

    /** Each task's node and process are owned and belong to each other, and the process is in state st. */
    ghost predicate Queued(q: seq<Task>, st: PState)
      reads this`repr, repr
    {
      forall i {:trigger q[i].node} {:trigger q[i].process} :: 0 <= i < |q| ==>
        && q[i].node in repr && q[i].process in repr
        && q[i].node.process == Holds(q[i].process) && q[i].process.owner == q[i].node
        && q[i].process.state == Holds(st)
    }

    /** t is owned and on neither ring. */
    ghost predicate Loose(t: Task)
      reads this`repr, this`readyQueue, this`sleepQueue, repr
    {
      && t.node in repr && t.process in repr
      && t.node.process == Holds(t.process) && t.process.owner == t.node && t.node.home == null
      && t.node != readyQueue && t.node != sleepQueue
    }

    /** Both rings are in order and hold the model's queues. No task is in two places, no process belongs
        to two tasks, and nothing owned has been freed. */
    ghost predicate Rings()
      reads this, repr, freed
    {
      RingsHold(model.ready, model.sleep) && freed == Freed(model.dead)
    }

    /** The rings hold these tasks; those on the model's queues are owned. */
    ghost predicate RingsHold(ready: seq<Task>, sleep: seq<Task>)
      reads this, repr, freed
    {
      && (forall i {:trigger ready[i].node} :: 0 <= i < |ready| ==> ready[i].node in repr)
      && (forall i {:trigger sleep[i].node} :: 0 <= i < |sleep| ==> sleep[i].node in repr)
      && readyQueue != null && sleepQueue != null && readyQueue != sleepQueue
      && readyQueue in repr && sleepQueue in repr && this !in repr && this !in freed
      && Queued(model.ready, READY) && Queued(model.sleep, SLEEPING)
      && Ring(readyQueue, ready) && Ring(sleepQueue, sleep)
      && Ledger()
    }

    /** Nothing has been freed twice, nothing that is owned has been freed, and nothing that has been freed
        has been written since. */
    ghost predicate Ledger()
      reads this`freed, this`repr, freed
    {
      NoRepeats(freed) && (forall i :: 0 <= i < |freed| ==> freed[i] !in repr && Gone(freed[i]))
    }

    lemma NotFreed(o: object)
      requires Ledger() && o in repr
      ensures o !in freed
    {
    }

    /** The current task is on neither ring, and its process is in the state the model says. */
    ghost predicate CurrentHeld()
      reads this, repr
    {
      match model.cur
      case Nobody => currentProc == null
      case Somebody(t, st) => Loose(t) && currentProc == t.node && t.process.state == Holds(st)
    }

    ghost predicate Valid()
      reads this, repr, freed
    {
      Rings() && CurrentHeld()
    }

    predicate NotAmong(n: Node, q: seq<Task>) {
      forall i {:trigger q[i].node} {:trigger q[i].process} :: 0 <= i < |q| ==> q[i].node != n
    }

    /** A sentinel links to itself exactly if its ring is empty. */
    lemma EmptyIff()
      requires Rings()
      ensures readyQueue.next.Holds? && (readyQueue.next.value == readyQueue <==> model.ready == [])
      ensures sleepQueue.next.Holds? && (sleepQueue.next.value == sleepQueue <==> model.sleep == [])
    {
      hide Ledger, Distinct;
    }

    /** A loose task's node is on no ring, nor a neighbour of one. */
    lemma LooseIsApart(t: Task)
      requires Rings() && Loose(t)
      ensures NotAmong(t.node, model.ready) && NotAmong(t.node, model.sleep)
    {
      hide Ledger, Distinct;
    }

    /** Neither ring's sentinel nor last node is on the other ring. */
    lemma RingsApart()
      requires Rings()
      ensures readyQueue.prev.Holds? && readyQueue.prev.value in repr && readyQueue.prev.value != sleepQueue
      ensures NotAmong(readyQueue, model.sleep) && NotAmong(readyQueue.prev.value, model.sleep)
      ensures sleepQueue.prev.Holds? && sleepQueue.prev.value in repr && sleepQueue.prev.value != readyQueue
      ensures NotAmong(sleepQueue, model.ready) && NotAmong(sleepQueue.prev.value, model.ready)
    {
      hide Ledger, Distinct;
    }

    /** `free_memallc` as the scheduler relies on it: it returns and frees what it is given, as the free path meant
        does and the one written does not (SchedFrees.dfy). What is passed must be owned, is no longer, and has
        no field that could be read afterwards. */
    method FreeMemallc(o: object)
      requires Ledger() && o in repr && this !in repr
      modifies this`repr, this`freed, o
      ensures Ledger() && repr == old(repr) - {o} && freed == old(freed) + [o]
    {
      if o is Node {
        var n := o as Node;
        n.process, n.next, n.prev := Unreadable, Unreadable, Unreadable;
      } else if o is Proc {
        var p := o as Proc;
        p.state := Unreadable;
      }
      repr := repr - {o};
      freed := freed + [o];
    }

    lemma NothingYet()
      requires model == Empty() && freed == []
      ensures Queued(model.ready, READY) && Queued(model.sleep, SLEEPING)
      ensures Ledger() && freed == Freed(model.dead)
    {
    }

    /** `schedulerInit`. */
    method SchedulerInit()
      modifies this
      ensures Valid() && fresh(repr) && model == Empty() && freed == []
    {
      hide Ring, Queued, Ledger, Freed;
      readyQueue := NewSentinel();
      sleepQueue := NewSentinel();
      currentProc := null;
      model, repr, freed := Empty(), {readyQueue, sleepQueue}, [];
      NothingYet();
    }

    method ProcToReady(node: Node, ghost t: Task)
      requires Rings() && Loose(t) && node == t.node && t.process.state == Holds(READY)
      modifies this`model, node`next, node`prev, node`home, readyQueue`prev, readyQueue.prev.value`next
      ensures Rings() && model == old(model).(ready := old(model.ready) + [t])
      ensures old(CurrentHeld()) && currentProc != node ==> CurrentHeld()
    {
      hide Ledger, Ring;
      LooseIsApart(t);
      RingsApart();
      NotFreed(node);
      NotFreed(readyQueue);
      NotFreed(readyQueue.prev.value);
      ghost var q := model.ready;
      model := model.(ready := q + [t]);
      QueueProc(readyQueue, node, q, t);
    }

    method ProcToSleep(node: Node, ghost t: Task)
      requires Rings() && Loose(t) && node == t.node && t.process.state == Holds(SLEEPING)
      modifies this`model, node`next, node`prev, node`home, sleepQueue`prev, sleepQueue.prev.value`next
      ensures Rings() && model == old(model).(sleep := old(model.sleep) + [t])
      ensures old(CurrentHeld()) && currentProc != node ==> CurrentHeld()
    {
      hide Ledger, Ring;
      LooseIsApart(t);
      RingsApart();
      NotFreed(node);
      NotFreed(sleepQueue);
      NotFreed(sleepQueue.prev.value);
      ghost var q := model.sleep;
      model := model.(sleep := q + [t]);
      QueueProc(sleepQueue, node, q, t);
    }

    /** `endProcess`, if `free_memallc` returns. */
    method EndProcess(node: Node, ghost t: Task)
      requires Rings() && Loose(t) && node == t.node
      modifies this`model, this`repr, this`freed, node, t.process
      ensures Rings() && model == old(model).(dead := old(model.dead) + [t])
      ensures repr == old(repr) - {t.process, t.node} && freed == old(freed) + [t.process] + [t.node]
      ensures old(CurrentHeld()) && currentProc != node ==> CurrentHeld()
    {
      hide Ledger, Freed, Ring;
      NotFreed(node);
      NotFreed(t.process);
      LooseIsApart(t);
      FreedSnoc(model.dead, t);
      model := model.(dead := model.dead + [t]);
      FreeTask(node, t);
    }

    /** The two calls of `free_memallc` that end a task. */
    method FreeTask(node: Node, ghost t: Task)
      requires Ledger() && this !in repr
      requires node == t.node && node in repr && node.process == Holds(t.process) && t.process in repr
      modifies this`repr, this`freed, node, t.process
      ensures Ledger() && freed == old(freed) + [t.process] + [t.node]
      ensures repr == old(repr) - {t.process, t.node}
    {
      hide Ledger;
      FreeMemallc(node.process.value);
      FreeMemallc(node);
    }

    /** `rescheduleProcess`. */
    method RescheduleProcess(node: Node, ghost t: Task)
      requires Rings() && Loose(t) && node == t.node && t.process.state.Holds?
      modifies this`model, this`repr, this`freed, node, t.process
      modifies readyQueue`prev, readyQueue.prev.value`next, sleepQueue`prev, sleepQueue.prev.value`next
      ensures Rings() && model == Reschedule(old(model), t, old(t.process.state.value))
      ensures repr == if old(t.process.state) == Holds(ZOMBIE) then old(repr) - {t.process, t.node} else old(repr)
      ensures freed == if old(t.process.state) == Holds(ZOMBIE) then old(freed) + [t.process] + [t.node] else old(freed)
      ensures old(CurrentHeld()) && currentProc != node ==> CurrentHeld()
      ensures var st := old(t.process.state.value);
        && model.cur == old(model.cur)
        && model.ready == old(model.ready) + (if st == READY then [t] else [])
        && model.sleep == old(model.sleep) + (if st == SLEEPING then [t] else [])
        && model.dead == old(model.dead) + (if st == ZOMBIE then [t] else [])
        && (st != ZOMBIE ==> t.process.state == Holds(st))
    {
      hide Ledger, Ring;
      if node.process.value.state.value == READY {
        ProcToReady(node, t);
      } else if node.process.value.state.value == SLEEPING {
        ProcToSleep(node, t);
      } else if node.process.value.state.value == ZOMBIE {
        EndProcess(node, t);
      } else {
        model := model.(lost := model.lost + [t]);
      }
    }

    // ----- Taking a task off a ring -----

    /** t is owned, and not on the model's queues. */
    ghost predicate Leaving(t: Task)
      reads this, repr
    {
      && t.node in repr && t.process in repr && t.process.owner == t.node
      && NotAmong(t.node, model.ready) && NotAmong(t.node, model.sleep)
    }

    ghost predicate IsCurrent(t: Task)
      reads this
    {
      model.cur.Somebody? && model.cur.task.node == t.node
    }

    /** The first ready task is no longer the model's to keep; it is still on its ring. */
    ghost method BeginReady(q: seq<Task>, dead: seq<Task>)
      requires Rings() && q == model.ready && q != []
      modifies this`model
      ensures model == old(model).(ready := q[1..], dead := dead)
      ensures RingsHold(q, model.sleep) && Leaving(q[0])
      ensures q[0].node.process == Holds(q[0].process) && q[0].process.state == Holds(READY)
      ensures old(CurrentHeld()) ==> CurrentHeld() && !IsCurrent(q[0])
    {
      model := model.(ready := q[1..], dead := dead);
    }

    ghost method BeginSleeping(q: seq<Task>, dead: seq<Task>)
      requires Rings() && q == model.sleep && q != []
      modifies this`model
      ensures model == old(model).(sleep := q[1..], dead := dead)
      ensures RingsHold(model.ready, q) && Leaving(q[0])
      ensures q[0].node.process == Holds(q[0].process) && q[0].process.state == Holds(SLEEPING)
      ensures old(CurrentHeld()) ==> CurrentHeld() && !IsCurrent(q[0])
    {
      model := model.(sleep := q[1..], dead := dead);
    }

    method UnlinkReady(ghost q: seq<Task>) returns (node: Node)
      requires q != [] && q[1..] == model.ready && RingsHold(q, model.sleep)
      modifies readyQueue`next, q[0].node`next, q[0].node`prev, q[0].node`home, q[0].node.next.value`prev
      ensures RingsHold(model.ready, model.sleep) && node == q[0].node && node.home == null
      ensures old(CurrentHeld()) && !IsCurrent(q[0]) ==> CurrentHeld()
    {
      hide Ledger;
      NotFreed(q[0].node);
      NotFreed(readyQueue);
      NotFreed(q[0].node.next.value);
      node := DequeueFirst(readyQueue.next.value, readyQueue, q);
    }

    method UnlinkSleeping(ghost q: seq<Task>) returns (node: Node)
      requires q != [] && q[1..] == model.sleep && RingsHold(model.ready, q)
      modifies sleepQueue`next, q[0].node`next, q[0].node`prev, q[0].node`home, q[0].node.next.value`prev
      ensures RingsHold(model.ready, model.sleep) && node == q[0].node && node.home == null
      ensures old(CurrentHeld()) && !IsCurrent(q[0]) ==> CurrentHeld()
    {
      hide Ledger;
      NotFreed(q[0].node);
      NotFreed(sleepQueue);
      NotFreed(q[0].node.next.value);
      node := DequeueFirst(sleepQueue.next.value, sleepQueue, q);
    }

    lemma FirstReady()
      requires Rings() && model.ready != []
      ensures var n := model.ready[0].node;
        && readyQueue.next == Holds(n) && n != readyQueue && n != sleepQueue
        && n.next.Holds? && n.next.value in repr
    {
      hide Ledger, Distinct;
    }

    /** Takes the first node off the ready ring. */
    method TakeReady() returns (node: Node, ghost t: Task)
      requires Rings() && model.ready != []
      modifies this`model, repr
      ensures t == old(model.ready[0]) && node == t.node
      ensures Rings() && model == old(model).(ready := old(model.ready[1..]))
      ensures Loose(t) && t.process.state == Holds(READY)
    {
      hide Ledger, Ring, NotAmong;
      FirstReady();
      ghost var q := model.ready;
      t := q[0];
      BeginReady(q, model.dead);
      node := UnlinkReady(q);
    }

    /** `sleepQueue->next->process->proc_state = READY`, for a task about to leave its ring. */
    method Wake(process: Proc, ghost t: Task, ghost ready: seq<Task>, ghost sleep: seq<Task>)
      requires RingsHold(ready, sleep) && Leaving(t) && process == t.process
      modifies process`state
      ensures RingsHold(ready, sleep) && process.state == Holds(READY)
      ensures old(CurrentHeld()) && !IsCurrent(t) ==> CurrentHeld()
    {
      hide Ledger, Distinct;
      NotFreed(process);
      process.state := Holds(READY);
    }

    lemma FirstAsleep()
      requires Rings() && model.sleep != []
      ensures var n := model.sleep[0].node;
        && sleepQueue.next == Holds(n) && n != readyQueue && n != sleepQueue
        && n.next.Holds? && n.next.value in repr
    {
      hide Ledger, Distinct;
    }

    /** Makes the first sleeping process READY and takes its node off the sleep ring. */
    method TakeAwakened() returns (node: Node, ghost t: Task)
      requires Valid() && model.sleep != []
      modifies this`model, repr
      ensures t == old(model.sleep[0]) && node == t.node
      ensures Valid() && model == old(model).(sleep := old(model.sleep[1..])) && currentProc != node
      ensures Loose(t) && t.process.state == Holds(READY)
    {
      hide Ledger, Ring, NotAmong, CurrentHeld;
      ghost var q := model.sleep;
      t := q[0];
      FirstAsleep();
      BeginSleeping(q, model.dead);
      Wake(sleepQueue.next.value.process.value, t, model.ready, q);
      node := UnlinkSleeping(q);
    }

    // ----- The interface -----

    /** `scheduleProcess`: the process must be new to the scheduler; the allocation is taken to succeed. */
    method ScheduleProcess(process: Proc) returns (ghost t: Task)
      requires Valid() && process !in repr && process !in freed && process.state.Holds?
      modifies this, repr, process
      ensures Valid() && fresh(t.node) && t.process == process
      ensures model == Schedule(old(model), t, old(process.state.value))
      ensures repr == old(repr) + {t.node, process} && freed == old(freed)
      ensures var st, runs := old(process.state.value), old(process.state.value) == READY && old(currentProc) == null;
        && model.cur == (if runs then Somebody(t, RUNNING) else old(model.cur))
        && model.ready == old(model.ready) + (if st == READY && !runs then [t] else [])
        && model.sleep == old(model.sleep) + (if st == SLEEPING then [t] else [])
        && process.state == Holds(if runs then RUNNING else st)
    {
      hide Ledger, Ring, Queued;
      var node := NewNode(process);
      RingsApart();
      t := Task(node, process);
      if process.state.value == READY {
        if currentProc == null {
          MakeCurrent(node, process, t);
        } else {
          ProcToReady(node, t);
        }
      } else if process.state.value == SLEEPING {
        ProcToSleep(node, t);
      } else {
        Lose(t);
      }
    }

    /** No branch applies: the node is put nowhere. */
    ghost method Lose(t: Task)
      requires Valid()
      modifies this`model
      ensures Valid() && model == old(model).(lost := old(model.lost) + [t])
    {
      model := model.(lost := model.lost + [t]);
    }

    /** The first process scheduled READY becomes current and RUNNING. */
    method MakeCurrent(node: Node, process: Proc, ghost t: Task)
      requires Rings() && Loose(t) && node == t.node && process == t.process
      modifies this`currentProc, this`model, process`state
      ensures Valid() && model == old(model).(cur := Somebody(t, RUNNING))
    {
      hide Ledger, Ring;
      NotFreed(process);
      LooseIsApart(t);
      process.state := Holds(RUNNING);
      currentProc := node;
      model := model.(cur := Somebody(t, RUNNING));
    }

    /** The first two lines of `scheduleProcess`. The allocation is taken to succeed and to give memory that is not
        in use. */
    method NewNode(process: Proc) returns (node: Node)
      requires Valid() && process !in repr && process !in freed
      modifies this`repr, process`owner
      ensures Valid() && fresh(node) && Loose(Task(node, process))
      ensures repr == old(repr) + {node, process}
    {
      hide Ring, NoRepeats;
      node := AllocateNode(process);
      repr := repr + {node, process};
    }

    /** `procSwitch`. */
    method ProcSwitch()
      requires Valid() && CanSwitch(model)
      modifies this, repr
      ensures Valid() && model == Switch(old(model)) && repr <= old(repr)
      ensures Within(freed, old(freed), old(repr))
      ensures old(model.ready) == [] ==> model == old(model) && freed == old(freed)
      ensures old(model.ready) != [] ==> var t := old(model.cur.task);
        && model.cur == Somebody(old(model.ready)[0], READY)
        && freed == if old(model.cur.state) == ZOMBIE then old(freed) + [t.process] + [t.node] else old(freed)
    {
      hide Ledger, Ring, Queued;
      EmptyIff();
      if readyQueue.next.value == readyQueue {
        return;
      }
      PutBackCurrent();
      RunFirstReady();
    }

    /** The first half of a switch: the current process gives up the processor. */
    method PutBackCurrent()
      requires Valid() && model.cur.Somebody?
      modifies this`model, this`repr, this`freed, repr
      ensures Rings() && model == Reschedule(old(model), old(model.cur.task), Yielded(old(model.cur.state)))
      ensures repr <= old(repr) && Within(freed, old(freed), old(repr))
      ensures var t := old(model.cur.task);
        freed == if old(model.cur.state) == ZOMBIE then old(freed) + [t.process] + [t.node] else old(freed)
    {
      hide Ledger, Ring;
      ghost var t := model.cur.task;
      LooseIsApart(t);
      RingsApart();
      NotFreed(t.process);
      if currentProc.process.value.state.value == RUNNING {
        currentProc.process.value.state := Holds(READY);
      }
      RescheduleProcess(currentProc, t);
    }

    /** The second half of a switch: the first ready process becomes current. */
    method RunFirstReady()
      requires Rings() && model.ready != []
      modifies this`currentProc, this`model, repr
      ensures Valid()
      ensures model == old(model).(cur := Somebody(old(model.ready[0]), READY), ready := old(model.ready[1..]))
    {
      hide Ledger, Ring;
      ghost var t;
      currentProc, t := TakeReady();
      model := model.(cur := Somebody(t, READY));
    }

    /** `awakenProcess`. */
    method AwakenProcess()
      requires Valid()
      modifies this, repr
      ensures Valid() && model == Awaken(old(model)) && repr == old(repr) && freed == old(freed)
      ensures model.cur == old(model.cur)
      ensures old(model.sleep) != [] ==>
        && model.ready == old(model.ready) + [old(model.sleep)[0]] && model.sleep == old(model.sleep)[1..]
    {
      hide Ledger, Ring, Queued;
      EmptyIff();
      if sleepQueue.next.value == sleepQueue {
        return;
      }
      var node;
      ghost var t;
      node, t := TakeAwakened();
      RingsApart();
      RescheduleProcess(node, t);
    }

    /** Not the scheduler's: code outside it changes the state of the current process. */
    method SetCurrentState(st: PState)
      requires Valid() && model.cur.Somebody?
      modifies this`model, currentProc.process.value`state
      ensures Valid() && model == SetState(old(model), st)
    {
      hide Ledger, Ring;
      LooseIsApart(model.cur.task);
      NotFreed(currentProc.process.value);
      currentProc.process.value.state := Holds(st);
      model := SetState(model, st);
    }

    // ----- Shutdown -----

    /** `free_memallc(readyQueue->next->process)` and its like: t is still on a ring, but no longer on the
        model's queues. */
    method FreeProcess(process: Proc, ghost t: Task, ghost ready: seq<Task>, ghost sleep: seq<Task>)
      requires RingsHold(ready, sleep) && CurrentHeld() && Leaving(t) && !IsCurrent(t) && process == t.process
      modifies this`repr, this`freed, process
      ensures RingsHold(ready, sleep) && CurrentHeld()
      ensures repr == old(repr) - {process} && freed == old(freed) + [process]
    {
      hide Ledger, Distinct;
      FreeMemallc(process);
    }

    /** `free_memallc(dequeueProc(...))`, second part. */
    method FreeNode(node: Node)
      requires RingsHold(model.ready, model.sleep) && CurrentHeld()
      requires node in repr && node.home == null && node != readyQueue && node != sleepQueue
      requires model.cur.Somebody? ==> model.cur.task.node != node
      modifies this`repr, this`freed, node
      ensures RingsHold(model.ready, model.sleep) && CurrentHeld()
      ensures repr == old(repr) - {node} && freed == old(freed) + [node]
    {
      hide Ledger, Distinct;
      FreeMemallc(node);
    }

    /** One iteration of the first loop of `killScheduler`. */
    method EndFirstReady()
      requires Valid() && model.ready != []
      modifies this`model, this`repr, this`freed, repr
      ensures Valid() && repr <= old(repr)
      ensures model == Ended(old(model), true)
    {
      hide Ledger, Ring, NotAmong, CurrentHeld, Freed;
      ghost var q, t := model.ready, model.ready[0];
      FirstReady();
      FreedSnoc(model.dead, t);
      BeginReady(q, model.dead + [t]);
      FreeProcess(readyQueue.next.value.process.value, t, q, model.sleep);
      var node := UnlinkReady(q);
      FreeNode(node);
    }

    /** One iteration of the second loop of `killScheduler`. */
    method EndFirstSleeping()
      requires Valid() && model.sleep != []
      modifies this`model, this`repr, this`freed, repr
      ensures Valid() && repr <= old(repr)
      ensures model == Ended(old(model), false)
    {
      hide Ledger, Ring, NotAmong, CurrentHeld, Freed;
      ghost var q, t := model.sleep, model.sleep[0];
      FirstAsleep();
      FreedSnoc(model.dead, t);
      BeginSleeping(q, model.dead + [t]);
      FreeProcess(sleepQueue.next.value.process.value, t, model.ready, q);
      var node := UnlinkSleeping(q);
      FreeNode(node);
    }

    /** `killScheduler`, if `free_memallc` returns. It passes to it, in order: process and node of every ready and
        then of every sleeping task, the two sentinels, and process and node of the current task. */
    method KillScheduler()
      requires Valid() && model.cur.Somebody?
      modifies this, repr
      ensures freed == old(freed) + Freed(old(model.ready) + old(model.sleep))
                     + [old(readyQueue), old(sleepQueue), old(model.cur.task.process), old(model.cur.task.node)]
      ensures Ledger()
      ensures model == AllEnded(old(model))
    {
      hide Ledger, Freed, Queued, Ring, CurrentHeld;
      EndAllReady();
      EndAllSleeping();
      ConcatThree(old(model.dead), old(model.ready), old(model.sleep));
      FreedConcat(old(model.dead), old(model.ready) + old(model.sleep));
      FreeRest();
      model := model.(cur := Nobody, dead := model.dead + Held(model.cur));
    }

    method EndAllReady()
      requires Valid()
      modifies this`model, this`repr, this`freed, repr
      ensures Valid() && repr <= old(repr)
      ensures model == old(model).(ready := [], dead := old(model.dead) + old(model.ready))
    {
      while readyQueue.next.value != readyQueue
        invariant Valid() && repr <= old(repr)
        invariant model == old(model).(ready := model.ready, dead := model.dead)
        invariant model.dead + model.ready == old(model.dead) + old(model.ready)
        decreases |model.ready|
      {
        EndedConcat(model.dead, model.ready);
        EndFirstReady();
      }
      assert model.ready == [];
    }

    method EndAllSleeping()
      requires Valid()
      modifies this`model, this`repr, this`freed, repr
      ensures Valid() && repr <= old(repr)
      ensures model == old(model).(sleep := [], dead := old(model.dead) + old(model.sleep))
    {
      while sleepQueue.next.value != sleepQueue
        invariant Valid() && repr <= old(repr)
        invariant model == old(model).(sleep := model.sleep, dead := model.dead)
        invariant model.dead + model.sleep == old(model.dead) + old(model.sleep)
        decreases |model.sleep|
      {
        EndedConcat(model.dead, model.sleep);
        EndFirstSleeping();
      }
      assert model.sleep == [];
    }

    /** The last four calls of `killScheduler`. */
    method FreeRest()
      requires Valid() && model.cur.Somebody?
      modifies this`repr, this`freed, repr
      ensures Ledger() && this !in freed
      ensures freed == old(freed)
                     + [readyQueue, sleepQueue, old(model.cur.task.process), old(model.cur.task.node)]
    {
      hide Ledger, Distinct, Queued;
      FreeMemallc(readyQueue);
      FreeMemallc(sleepQueue);
      FreeMemallc(currentProc.process.value);
      FreeMemallc(currentProc);
    }
  }
}

/** What the scheduler's calls of `free_memallc` do to the heap, when the free path is the one written: when
    `endProcess` and `killScheduler` return. */
module SchedFrees {
  import opened Numerals
  import opened HeapModel
  import opened HeapRuns
  import opened HeapShapes
  import opened SchedRings
  import opened Sequences

  // ----- The calls -----

  /** Where a task's process and its node were allocated. */
  datatype TaskAt = TaskAt(process: uint64, node: uint64)

  /** What ending these tasks, one after the other, passes to `free_memallc`. */
  function EndCalls(ts: seq<TaskAt>): seq<uint64> {
    if ts == [] then [] else [ts[0].process, ts[0].node] + EndCalls(ts[1..])
  }

  /** What `killScheduler` passes to it. */
  function KillCalls(ready: seq<TaskAt>, sleep: seq<TaskAt>, readyQueue: uint64, sleepQueue: uint64,
                     cur: TaskAt): seq<uint64> {
    EndCalls(ready + sleep) + [readyQueue, sleepQueue, cur.process, cur.node]
  }

  /** The addresses of these objects. */
  function Addresses(os: seq<object>, at: object -> uint64): (r: seq<uint64>)
    ensures |r| == |os| && forall i :: 0 <= i < |os| ==> r[i] == at(os[i])
  {
    seq(|os|, i requires 0 <= i < |os| => at(os[i]))
  }

  function Located(q: seq<Task>, at: object -> uint64): (r: seq<TaskAt>)
    ensures |r| == |q| && forall i :: 0 <= i < |q| ==> r[i] == TaskAt(at(q[i].process), at(q[i].node))
  {
    seq(|q|, i requires 0 <= i < |q| => TaskAt(at(q[i].process), at(q[i].node)))
  }

  lemma {:induction false} EndCallsSnoc(ts: seq<TaskAt>, t: TaskAt)
    ensures EndCalls(ts + [t]) == EndCalls(ts) + [t.process, t.node]
  {
    if ts == [] {
      assert [t][1..] == [];
    } else {
      assert (ts + [t])[1..] == ts[1..] + [t];
      EndCallsSnoc(ts[1..], t);
    }
  }

  lemma EndCallsOfOne(t: TaskAt)
    ensures EndCalls([t]) == [t.process, t.node]
  {
    assert [t][1..] == [];
  }

  lemma {:induction false} FreedAreEndCalls(q: seq<Task>, at: object -> uint64)
    ensures Addresses(Freed(q), at) == EndCalls(Located(q, at))
    decreases |q|
  {
    if q == [] {
    } else {
      var front, t := q[..|q| - 1], q[|q| - 1];
      FreedAreEndCalls(front, at);
      EndCallsSnoc(Located(front, at), TaskAt(at(t.process), at(t.node)));
      assert Located(q, at) == Located(front, at) + [TaskAt(at(t.process), at(t.node))];
    }
  }

  /** Wherever the scheduler's memory lies, `killScheduler` passes the addresses of `KillCalls`. */
  lemma KillPasses(ready: seq<Task>, sleep: seq<Task>, readyQueue: Node, sleepQueue: Node, cur: Task,
                   at: object -> uint64)
    ensures Addresses(Freed(ready + sleep) + [readyQueue, sleepQueue, cur.process, cur.node], at)
         == KillCalls(Located(ready, at), Located(sleep, at), at(readyQueue), at(sleepQueue),
                      TaskAt(at(cur.process), at(cur.node)))
  {
    FreedAreEndCalls(ready + sleep, at);
    assert Located(ready + sleep, at) == Located(ready, at) + Located(sleep, at);
  }

  // ----- One task -----

  lemma {:induction false} FreesConcat(w: Lists, a: seq<uint64>, b: seq<uint64>)
    requires Sound(w.free)
    ensures FreesWritten(w, a + b) == match FreesWritten(w, a) case None => None case Some(w') => FreesWritten(w', b)
    decreases |a|
  {
    if a == [] {
      assert a + b == b;
    } else {
      assert (a + b)[1..] == a[1..] + b;
      match FreeWritten(w, a[0]) {
        case None =>
        case Some(w') => FreesConcat(w', a[1..], b);
      }
    }
  }

  lemma OneFree(w: Lists, a: uint64)
    requires Sound(w.free)
    ensures FreesWritten(w, [a]) == FreeWritten(w, a)
  {
    hide FreeWritten;
    assert [a][1..] == [];
  }

  lemma TwoFrees(w: Lists, a: uint64, b: uint64)
    requires Sound(w.free)
    ensures FreesWritten(w, [a, b]) == match FreeWritten(w, a) case None => None case Some(w') => FreeWritten(w', b)
  {
    FreesConcat(w, [a], [b]);
    assert [a] + [b] == [a, b];
    OneFree(w, a);
    if w' :| FreeWritten(w, a) == Some(w') {
      OneFree(w', b);
    }
  }

  /** The live blocks have different addresses. */
  predicate Apart64(live: seq<Block>) {
    forall i, j :: 0 <= i < j < |live| ==> live[i].addr != live[j].addr
  }

  lemma LiveApart(h: Heap)
    requires WellFormed(h)
    ensures Apart64(h.live)
  {
    forall i, j | 0 <= i < j < |h.live|
      ensures h.live[i].addr != h.live[j].addr
    {
      BlocksApart(h, |h.free| + i, |h.free| + j);
      var bs := h.free + h.live;
      assert bs[|h.free| + i] == h.live[i] && bs[|h.free| + j] == h.live[j];
    }
  }

  /** A live block is found by its address, and freeing it leaves the others. */
  lemma FreeOne(w: Lists, b: Block)
    requires Sound(w.free) && Apart64(w.live) && b in w.live && b.addr != 0
    ensures IsLive(w, b.addr) && w.live[Find(w.live, b.addr)] == b
    ensures FreeWritten(w, b.addr).Some? <==> FreeInto(w.free, b).Some?
    ensures FreeWritten(w, b.addr).Some? ==>
      var w' := FreeWritten(w, b.addr).value;
      && w'.free == FreeInto(w.free, b).value && Apart64(w'.live)
      && forall c :: c in w.live && c != b ==> c in w'.live
  {
    var k :| 0 <= k < |w.live| && w.live[k] == b;
    var i := Find(w.live, b.addr);
    assert i == k;
    forall c | c in w.live && c != b
      ensures c in Without(w.live, i)
    {
      var j :| 0 <= j < |w.live| && w.live[j] == c;
      assert c == Without(w.live, i)[if j < i then j else j - 1];
    }
  }

  /** From a well-formed heap, the two frees that end a task return if and only if the node rejoins what freeing
      the process has left. */
  lemma EndTaskReturnsIff(h: Heap, process: Block, node: Block)
    requires WellFormed(h) && process in h.live && node in h.live && process != node
    requires process.addr != 0 && node.addr != 0
    ensures FreesWritten(InOrder(h), EndCalls([TaskAt(process.addr, node.addr)])).Some?
       <==> Rejoins(h.free, process, node)
  {
    hide FreeWritten, FreesWritten, FreeInto, Rejoins, Find, WellFormed;
    var w := InOrder(h);
    LiveApart(h);
    FreeOne(w, process);
    SecondFreeReturnsIff(h.free, process, node);
    var w' := FreeWritten(w, process.addr).value;
    FreeOne(w', node);
    EndCallsOfOne(TaskAt(process.addr, node.addr));
    TwoFrees(w, process.addr, node.addr);
  }

  /** So `killScheduler` with a task on the ready ring, in a well-formed heap, does not get past that task's node
      unless the node rejoins. */
  lemma KillNeedsToRejoin(h: Heap, process: Block, node: Block, ready: seq<TaskAt>, sleep: seq<TaskAt>,
                          readyQueue: uint64, sleepQueue: uint64, cur: TaskAt)
    requires WellFormed(h) && process in h.live && node in h.live && process != node
    requires process.addr != 0 && node.addr != 0
    requires ready != [] && ready[0] == TaskAt(process.addr, node.addr)
    requires FreesWritten(InOrder(h), KillCalls(ready, sleep, readyQueue, sleepQueue, cur)).Some?
    ensures Rejoins(h.free, process, node)
  {
    var calls := KillCalls(ready, sleep, readyQueue, sleepQueue, cur);
    var first := EndCalls([ready[0]]);
    assert (ready + sleep)[0] == ready[0];
    EndCallsOfOne(ready[0]);
    assert calls == first + calls[2..];
    FreesConcat(InOrder(h), first, calls[2..]);
    EndTaskReturnsIff(h, process, node);
  }

  // ----- Tasks allocated in turn -----

  /** The blocks of a task. */
  datatype TaskBlocks = TaskBlocks(process: Block, node: Block) {
    function At(): TaskAt {
      TaskAt(process.addr, node.addr)
    }
  }

  function Ats(ts: seq<TaskBlocks>): (r: seq<TaskAt>)
    ensures |r| == |ts|
  {
    if ts == [] then [] else [ts[0].At()] + Ats(ts[1..])
  }

  lemma EndCallsFirst(ts: seq<TaskBlocks>)
    requires ts != []
    ensures EndCalls(Ats(ts)) == [ts[0].process.addr, ts[0].node.addr] + EndCalls(Ats(ts[1..]))
  {
  }

  /** The bytes taken by processes of these sizes and nodes of size n. */
  function Taken(n: uint64, sizes: seq<uint64>): nat {
    if sizes == [] then 0 else sizes[0] + n + Taken(n, sizes[1..])
  }

  /** The blocks of such tasks, allocated in turn from a on. */
  function Laid(a: nat, n: uint64, sizes: seq<uint64>): (ts: seq<TaskBlocks>)
    requires a + Taken(n, sizes) < TWO_TO_64
    ensures |ts| == |sizes|
    decreases sizes
  {
    if sizes == [] then []
    else [TaskBlocks(Block(a, sizes[0]), Block(a + sizes[0], n))] + Laid(a + sizes[0] + n, n, sizes[1..])
  }

  predicate AllLive(w: Lists, ts: seq<TaskBlocks>) {
    forall t :: t in ts ==> t.process in w.live && t.node in w.live
  }

  predicate Positive(sizes: seq<uint64>) {
    forall i :: 0 <= i < |sizes| ==> sizes[i] > 0
  }

  /** The free list is a cycle of one block, entered through another; both lie between low and a, and the first
      ends at a. */
  predicate Row(s: Shape, low: nat, a: nat) {
    && |s.blocks| == 2 && s.back == 1
    && s.blocks[0].addr + s.blocks[0].size == a
    && forall i :: 0 <= i < 2 ==>
         low <= s.blocks[i].addr && s.blocks[i].size > 0 && s.blocks[i].addr + s.blocks[i].size <= a
  }

  /** A block that starts where the row ends joins it. */
  lemma RowGrows(s: Shape, low: nat, a: nat, b: Block)
    requires Row(s, low, a) && b.addr == a && b.size > 0 && a + b.size < TWO_TO_64
    ensures Sound(s) && FreeInto(s, b).Some? && Row(FreeInto(s, b).value, low, a + b.size)
  {
    assert FirstAdjacent(s.blocks, b) == 0;
    assert s.blocks[..0] == [];
  }

  /** A block that lies before the row touches neither of its blocks, and is never freed. */
  lemma RowTraps(s: Shape, low: nat, a: nat, b: Block)
    requires Row(s, low, a) && a < TWO_TO_64 && b.addr + b.size < low
    ensures FreeInto(s, b) == None
  {
    FreeIntoIff(s, b);
    assert forall f :: f in s.blocks ==> f == s.blocks[0] || f == s.blocks[1];
  }

  /** The tasks lie from a on. */
  lemma {:induction false} RestLies(a: nat, n: uint64, sizes: seq<uint64>)
    requires a + Taken(n, sizes) < TWO_TO_64
    ensures forall t :: t in Laid(a, n, sizes) ==> t.process.addr >= a && t.node.addr >= a
    decreases sizes
  {
    if sizes == [] {
    } else {
      RestLies(a + sizes[0] + n, n, sizes[1..]);
    }
  }

  /** One of them. */
  lemma FreeTask(w: Lists, low: nat, a: nat, t: TaskBlocks) returns (w': Lists)
    requires Row(w.free, low, a) && a > 0 && t.process.addr == a && t.process.size > 0 && t.node.size > 0
    requires t.node.addr == a + t.process.size && t.node.addr + t.node.size < TWO_TO_64
    requires Apart64(w.live) && t.process in w.live && t.node in w.live
    ensures Sound(w.free)
    ensures FreesWritten(w, [t.process.addr, t.node.addr]) == Some(w')
    ensures Row(w'.free, low, t.node.addr + t.node.size) && Apart64(w'.live)
    ensures forall b :: b in w.live && b != t.process && b != t.node ==> b in w'.live
  {
    hide Row, FreeInto, FreeWritten, FreesWritten, Find, Apart64;
    RowGrows(w.free, low, a, t.process);
    FreeOne(w, t.process);
    var w1 := FreeWritten(w, t.process.addr).value;
    RowGrows(w1.free, low, t.node.addr, t.node);
    FreeOne(w1, t.node);
    w' := FreeWritten(w1, t.node.addr).value;
    TwoFrees(w, t.process.addr, t.node.addr);
  }

  /** The tasks that lie behind one that was ended are still live. */
  lemma RestLives(w: Lists, w': Lists, a: nat, n: uint64, sizes: seq<uint64>)
    requires sizes != [] && n > 0 && Positive(sizes) && a + Taken(n, sizes) < TWO_TO_64
    requires AllLive(w, Laid(a, n, sizes))
    requires forall b :: b in w.live && b != Laid(a, n, sizes)[0].process && b != Laid(a, n, sizes)[0].node ==>
               b in w'.live
    ensures AllLive(w', Laid(a + sizes[0] + n, n, sizes[1..]))
  {
    var rest := Laid(a + sizes[0] + n, n, sizes[1..]);
    assert Laid(a, n, sizes)[1..] == rest;
    RestLies(a + sizes[0] + n, n, sizes[1..]);
    forall t | t in rest
      ensures t.process in w'.live && t.node in w'.live
    {
      assert t in Laid(a, n, sizes);
    }
  }

  lemma FirstLives(w: Lists, a: nat, n: uint64, sizes: seq<uint64>)
    requires sizes != [] && a + Taken(n, sizes) < TWO_TO_64 && AllLive(w, Laid(a, n, sizes))
    ensures var t := TaskBlocks(Block(a, sizes[0]), Block(a + sizes[0], n));
      Laid(a, n, sizes)[0] == t && t.process in w.live && t.node in w.live
  {
    assert Laid(a, n, sizes)[0] in Laid(a, n, sizes);
  }

  /** The tasks that start where the row ends are ended one after the other. */
  lemma {:induction false} RowEnds(w: Lists, low: nat, a: nat, n: uint64, sizes: seq<uint64>)
    requires Row(w.free, low, a) && a > 0 && n > 0 && Positive(sizes) && a + Taken(n, sizes) < TWO_TO_64
    requires Apart64(w.live) && AllLive(w, Laid(a, n, sizes))
    ensures var r := FreesWritten(w, EndCalls(Ats(Laid(a, n, sizes))));
      && r.Some? && Row(r.value.free, low, a + Taken(n, sizes)) && Apart64(r.value.live)
      && forall b :: b in w.live && (b.addr < a || b.addr >= a + Taken(n, sizes)) ==> b in r.value.live
    decreases sizes
  {
    hide AllLive, Row, FreeWritten, FreeInto, Find, Apart64;
    if sizes == [] {
    } else {
      var ts := Laid(a, n, sizes);
      var rest := Laid(a + sizes[0] + n, n, sizes[1..]);
      FirstLives(w, a, n, sizes);
      var w1 := FreeTask(w, low, a, ts[0]);
      assert ts[1..] == rest;
      RestLives(w, w1, a, n, sizes);
      RowEnds(w1, low, a + sizes[0] + n, n, sizes[1..]);
      EndCallsFirst(ts);
      FreesConcat(w, [ts[0].process.addr, ts[0].node.addr], EndCalls(Ats(rest)));
    }
  }

  lemma RowStarts(s: Shape, t: TaskBlocks)
    requires Ends(s) && FirstAdjacent(s.blocks, t.process) == |s.blocks|
    requires t.process.size > 0 && t.node.size > 0
    requires t.node.addr == t.process.addr + t.process.size && t.node.addr + t.node.size < TWO_TO_64
    ensures FreeInto(s, t.process) == Some(Shape([t.process], 0))
    ensures FreeInto(Shape([t.process], 0), t.node).Some?
    ensures Row(FreeInto(Shape([t.process], 0), t.node).value, t.process.addr, t.node.addr + t.node.size)
  {
    assert FirstAdjacent([t.process], t.node) == 0;
    assert [t.process][..0] == [];
  }

  /** From a list in order none of whose blocks touches it, a first task leaves a row. */
  lemma FirstTask(w: Lists, t: TaskBlocks) returns (w': Lists)
    requires Ends(w.free) && FirstAdjacent(w.free.blocks, t.process) == |w.free.blocks|
    requires t.process.addr > 0 && t.process.size > 0 && t.node.size > 0
    requires t.node.addr == t.process.addr + t.process.size && t.node.addr + t.node.size < TWO_TO_64
    requires Apart64(w.live) && t.process in w.live && t.node in w.live
    ensures FreesWritten(w, [t.process.addr, t.node.addr]) == Some(w')
    ensures Row(w'.free, t.process.addr, t.node.addr + t.node.size) && Apart64(w'.live)
    ensures forall b :: b in w.live && b != t.process && b != t.node ==> b in w'.live
  {
    hide Row, FreeInto, FreeWritten, FreesWritten, Find, Apart64;
    RowStarts(w.free, t);
    FreeOne(w, t.process);
    var w1 := FreeWritten(w, t.process.addr).value;
    FreeOne(w1, t.node);
    w' := FreeWritten(w1, t.node.addr).value;
    TwoFrees(w, t.process.addr, t.node.addr);
  }

  // ----- A scheduler on a fresh heap -----

  function Requests(sizes: seq<uint64>): (r: seq<Op>)
    ensures |r| == |sizes|
  {
    if sizes == [] then [] else [Request(sizes[0])] + Requests(sizes[1..])
  }

  /** The sentinels, and then each process and its node. */
  function TaskSizes(n: uint64, sizes: seq<uint64>): seq<uint64> {
    if sizes == [] then [] else [sizes[0], n] + TaskSizes(n, sizes[1..])
  }

  /** The heap has one free block, from a on, and descriptors for so many more requests. */
  predicate Fresh(h: Heap, a: nat, requests: nat) {
    && |h.free| == 1 && h.free[0].addr == a && a + h.free[0].size == h.start + h.range <= TWO_TO_64
    && h.used + requests <= MAX_MEMBLK_COUNT
  }

  lemma AllocFront(h: Heap, a: nat, requests: nat, size: uint64)
    requires Fresh(h, a, requests) && requests > 0 && 0 < size < h.free[0].size && h.free[0].size <= h.range
    ensures var h' := Step(h, Request(size));
      && Fresh(h', a + size, requests - 1) && h'.live == [Block(a, size)] + h.live
      && h'.start == h.start && h'.range == h.range && h'.free[0].size == h.free[0].size - size
  {
    assert FirstFit(h.free, size) == 0;
  }

  lemma NoTasks(w: Lists, a: nat, n: uint64)
    requires a < TWO_TO_64
    ensures AllLive(w, Laid(a, n, []))
  {
  }

  lemma OneMoreLives(w: Lists, a: nat, n: uint64, sizes: seq<uint64>)
    requires sizes != [] && a + Taken(n, sizes) < TWO_TO_64
    requires Block(a, sizes[0]) in w.live && Block(a + sizes[0], n) in w.live
    requires AllLive(w, Laid(a + sizes[0] + n, n, sizes[1..]))
    ensures AllLive(w, Laid(a, n, sizes))
  {
    var ts := Laid(a, n, sizes);
    assert ts == [ts[0]] + Laid(a + sizes[0] + n, n, sizes[1..]);
  }

  lemma NoRequests(h: Heap)
    ensures Run(h, Requests([])) == h
  {
  }

  /** Requests of the tasks' sizes are served with the blocks of `Laid`. */
  lemma {:induction false} TasksAllocated(h: Heap, a: nat, n: uint64, sizes: seq<uint64>)
    requires Fresh(h, a, 2 * |sizes|) && n > 0 && Positive(sizes)
    requires Taken(n, sizes) < h.free[0].size <= h.range
    ensures var h' := Run(h, Requests(TaskSizes(n, sizes)));
      && Fresh(h', a + Taken(n, sizes), 0)
      && AllLive(InOrder(h'), Laid(a, n, sizes))
      && (forall b :: b in h.live ==> b in h'.live)
    decreases sizes
  {
    hide Step, Run, Requests, AllLive;
    if sizes == [] {
      NoRequests(h);
      NoTasks(InOrder(h), a, n);
    } else {
      var rest := TaskSizes(n, sizes[1..]);
      var h1 := Step(h, Request(sizes[0]));
      var h2 := Step(h1, Request(n));
      AllocFront(h, a, 2 * |sizes|, sizes[0]);
      AllocFront(h1, a + sizes[0], 2 * |sizes| - 1, n);
      TasksAllocated(h2, a + sizes[0] + n, n, sizes[1..]);
      TwoRequests(h, sizes[0], n, rest);
      assert Block(a, sizes[0]) in h2.live && Block(a + sizes[0], n) in h2.live;
      OneMoreLives(InOrder(Run(h, Requests(TaskSizes(n, sizes)))), a, n, sizes);
    }
  }

  lemma TwoRequests(h: Heap, x: uint64, y: uint64, rest: seq<uint64>)
    ensures Run(h, Requests([x, y] + rest)) == Run(Step(Step(h, Request(x)), Request(y)), Requests(rest))
  {
    hide Step;
    assert ([x, y] + rest)[1..] == [y] + rest && ([y] + rest)[1..] == rest;
    assert Requests([x, y] + rest) == [Request(x)] + ([Request(y)] + Requests(rest));
    assert ([Request(x)] + ([Request(y)] + Requests(rest)))[1..] == [Request(y)] + Requests(rest);
    assert ([Request(y)] + Requests(rest))[1..] == Requests(rest);
  }

  /** `schedulerInit` and then, for each of these sizes, a process of that size and its node, on a fresh heap. */
  function Scheduled(start: uint64, range: uint64, n: uint64, sizes: seq<uint64>): Heap {
    Run(Init(start, range), Requests([n, n] + TaskSizes(n, sizes)))
  }

  /** The heap and its descriptors suffice for that, and NULL is not among the addresses. */
  predicate Suffices(start: uint64, range: uint64, n: uint64, sizes: seq<uint64>) {
    && start > 0 && start + range <= TWO_TO_64 && n > 0 && Positive(sizes)
    && 2 * n + Taken(n, sizes) < range && 3 + 2 * |sizes| <= MAX_MEMBLK_COUNT
  }

  lemma ScheduledLies(start: uint64, range: uint64, n: uint64, sizes: seq<uint64>)
    requires Suffices(start, range, n, sizes)
    ensures var h := Scheduled(start, range, n, sizes);
      && WellFormed(h) && h.start == start && h.range == range
      && |h.free| == 1 && h.free[0].addr == start + 2 * n + Taken(n, sizes)
      && h.free[0].addr + h.free[0].size == start + range
      && Block(start, n) in h.live && Block(start + n, n) in h.live
      && AllLive(InOrder(h), Laid(start + 2 * n, n, sizes))
  {
    hide Step, Run, WellFormed, Requests, TaskSizes;
    var h0 := Init(start, range);
    var h1 := Step(h0, Request(n));
    var h2 := Step(h1, Request(n));
    AllocFront(h0, start, 2 + 2 * |sizes|, n);
    AllocFront(h1, start + n, 1 + 2 * |sizes|, n);
    assert Block(start, n) in h2.live && Block(start + n, n) in h2.live;
    TasksAllocated(h2, start + 2 * n, n, sizes);
    TwoRequests(h0, n, n, TaskSizes(n, sizes));
    InitWellFormed(start, range);
    RunKeeps(h0, Requests([n, n] + TaskSizes(n, sizes)));
  }

  /** A block below a last free block, and not next to it, touches no free block. */
  lemma TouchesNoFree(h: Heap, b: Block)
    requires |h.free| == 1 && h.free[0].addr + h.free[0].size == h.start + h.range <= TWO_TO_64
    requires 0 < b.addr && b.addr + b.size < h.free[0].addr
    ensures FirstAdjacent(h.free, b) == 1
  {
    assert !Adjacent(h.free[0], b);
  }

  /** Tasks in a row, freed from a heap whose one free block lies beyond them, leave a row. */
  lemma RowOfTasks(h: Heap, a: nat, n: uint64, sizes: seq<uint64>) returns (w': Lists)
    requires WellFormed(h) && Apart64(h.live) && |h.free| == 1 && h.free[0].addr + h.free[0].size == h.start + h.range
    requires a > 0 && n > 0 && Positive(sizes) && sizes != [] && a + Taken(n, sizes) == h.free[0].addr
    requires AllLive(InOrder(h), Laid(a, n, sizes))
    ensures FreesWritten(InOrder(h), EndCalls(Ats(Laid(a, n, sizes)))) == Some(w')
    ensures Row(w'.free, a, a + Taken(n, sizes)) && Apart64(w'.live)
    ensures forall b :: b in h.live && b.addr < a ==> b in w'.live
  {
    hide FreesWritten, FreeWritten, FreeInto, Find, FirstAdjacent, Row, Tiled, Apart64, EndCalls, Ats,
         AllLive;
    var w, ts := InOrder(h), Laid(a, n, sizes);
    var a1 := a + sizes[0] + n;
    var rest := Laid(a1, n, sizes[1..]);
    FirstLives(w, a, n, sizes);
    TouchesNoFree(h, ts[0].process);
    var w1 := FirstTask(w, ts[0]);
    assert ts[1..] == rest;
    RestLives(w, w1, a, n, sizes);
    RowEnds(w1, a, a1, n, sizes[1..]);
    w' := FreesWritten(w1, EndCalls(Ats(rest))).value;
    EndCallsFirst(ts);
    FreesConcat(w, [ts[0].process.addr, ts[0].node.addr], EndCalls(Ats(rest)));
  }

  lemma TakeDrop(ts: seq<TaskAt>, k: nat)
    requires k <= |ts|
    ensures ts[..k] + ts[k..] == ts
  {
  }

  lemma SplitFour(q: seq<uint64>, a: uint64, b: uint64, c: uint64, d: uint64)
    ensures q + [a, b, c, d] == q + [a] + [b, c, d]
  {
  }

  lemma KillCallsSplit(ts: seq<TaskAt>, k: nat, readyQueue: uint64, sleepQueue: uint64, cur: TaskAt)
    requires k <= |ts|
    ensures KillCalls(ts[..k], ts[k..], readyQueue, sleepQueue, cur)
         == EndCalls(ts) + [readyQueue] + [sleepQueue, cur.process, cur.node]
  {
    hide EndCalls;
    TakeDrop(ts, k);
    SplitFour(EndCalls(ts), readyQueue, sleepQueue, cur.process, cur.node);
  }

  lemma OthersLive(w: Lists, a: nat, n: uint64, sizes: seq<uint64>)
    requires sizes != [] && a + Taken(n, sizes) < TWO_TO_64 && AllLive(w, Laid(a, n, sizes))
    ensures var others := Laid(a + sizes[0] + n, n, sizes[1..]);
      AllLive(w, others) && Ats(Laid(a, n, sizes))[1..] == Ats(others)
  {
    var ts := Laid(a, n, sizes);
    assert ts[1..] == Laid(a + sizes[0] + n, n, sizes[1..]);
    assert Ats(ts)[1..] == Ats(ts[1..]);
  }

  /** The other tasks end, and then the first sentinel is never freed. */
  lemma OthersTrap(start: uint64, range: uint64, n: uint64, sizes: seq<uint64>)
    requires Suffices(start, range, n, sizes) && |sizes| >= 2
    ensures FreesWritten(InOrder(Scheduled(start, range, n, sizes)),
                         EndCalls(Ats(Laid(start + 2 * n + sizes[0] + n, n, sizes[1..]))) + [start]) == None
  {
    hide Scheduled, FreesWritten, FreeWritten, FreeInto, Row, Find, FirstAdjacent, WellFormed, Apart64, EndCalls, Ats,
         AllLive;
    var h, a := Scheduled(start, range, n, sizes), start + 2 * n + sizes[0] + n;
    ScheduledLies(start, range, n, sizes);
    LiveApart(h);
    OthersLive(InOrder(h), start + 2 * n, n, sizes);
    var w' := RowOfTasks(h, a, n, sizes[1..]);
    RowTraps(w'.free, a, a + Taken(n, sizes[1..]), Block(start, n));
    FreeOne(w', Block(start, n));
    FreesConcat(InOrder(h), EndCalls(Ats(Laid(a, n, sizes[1..]))), [start]);
    OneFree(w', start);
  }

  /** With two or more tasks, ready or sleeping behind the current one, `killScheduler` never returns when the
      free path is the one written: the tasks end, but the first sentinel does not rejoin what they leave. */
  lemma KillNeverReturns(start: uint64, range: uint64, n: uint64, sizes: seq<uint64>, k: nat)
    requires Suffices(start, range, n, sizes) && |sizes| >= 2 && k < |sizes|
    ensures var ts := Ats(Laid(start + 2 * n, n, sizes));
      FreesWritten(InOrder(Scheduled(start, range, n, sizes)),
                   KillCalls(ts[1..][..k], ts[1..][k..], start, start + n, ts[0])) == None
  {
    hide Scheduled, FreesWritten, EndCalls, KillCalls, Ats, AllLive;
    var w, ts := InOrder(Scheduled(start, range, n, sizes)), Ats(Laid(start + 2 * n, n, sizes));
    OthersTrap(start, range, n, sizes);
    ScheduledLies(start, range, n, sizes);
    OthersLive(w, start + 2 * n, n, sizes);
    FreesConcat(w, EndCalls(ts[1..]) + [start], [start + n, ts[0].process, ts[0].node]);
    KillCallsSplit(ts[1..], k, start, start + n, ts[0]);
  }

  /** With the current task alone it does return. */
  lemma KillReturnsAlone(start: uint64, range: uint64, n: uint64, size: uint64)
    requires Suffices(start, range, n, [size])
    ensures var ts := Ats(Laid(start + 2 * n, n, [size]));
      FreesWritten(InOrder(Scheduled(start, range, n, [size])), KillCalls([], [], start, start + n, ts[0])).Some?
  {
    hide Scheduled, FreesWritten, FreeWritten, FreeInto, Row, Find, WellFormed, Apart64;
    var h, laid := Scheduled(start, range, n, [size]), Laid(start + 2 * n, n, [size]);
    ScheduledLies(start, range, n, [size]);
    LiveApart(h);
    var sentinels := TaskBlocks(Block(start, n), Block(start + n, n));
    assert laid[0] in laid;
    TouchesNoFree(h, sentinels.process);
    var w1 := FirstTask(InOrder(h), sentinels);
    var w2 := FreeTask(w1, start, start + 2 * n, laid[0]);
    FreesConcat(InOrder(h), [start, start + n], [laid[0].process.addr, laid[0].node.addr]);
    assert KillCalls([], [], start, start + n, laid[0].At())
        == [start, start + n] + [laid[0].process.addr, laid[0].node.addr];
  }

  /** So on a fresh heap, with tasks allocated in turn, it returns if and only if the current task is the only one. */
  lemma KillReturnsIff(start: uint64, range: uint64, n: uint64, sizes: seq<uint64>, k: nat)
    requires Suffices(start, range, n, sizes) && k < |sizes|
    ensures var ts := Ats(Laid(start + 2 * n, n, sizes));
      var calls := KillCalls(ts[1..][..k], ts[1..][k..], start, start + n, ts[0]);
      FreesWritten(InOrder(Scheduled(start, range, n, sizes)), calls).Some? <==> |sizes| == 1
  {
    hide Scheduled, FreesWritten, KillCalls, Ats, Laid;
    if |sizes| == 1 {
      assert sizes == [sizes[0]];
      var ts := Ats(Laid(start + 2 * n, n, sizes));
      assert ts[1..][..k] == [] && ts[1..][k..] == [];
      KillReturnsAlone(start, range, n, sizes[0]);
    } else {
      KillNeverReturns(start, range, n, sizes, k);
    }
  }
}

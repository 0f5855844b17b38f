/** What the free path of driver/memallc.c does as written: it pushes the block before it defragments, and
    `defragment_memblk` then links the block a second time. `HeapLists.Tangled` is the exact pointer
    structure this leaves; here is what it means for the list and for the next search. */
module HeapAsWritten {
  import opened Numerals
  import opened HeapModel
  import opened HeapShapes
  import opened HeapLists
  import opened Sequences

  // ----- Walking a list -----

  /** Where `steps` links lead from n, within nodes. */
  ghost function Follow(nodes: set<Memblk>, n: Memblk?, steps: nat): Memblk?
    reads nodes
  {
    if steps == 0 || n == null || n !in nodes then n else Follow(nodes, n.next, steps - 1)
  }

  /** No link leaves the nodes, and none ends. */
  ghost predicate Trap(nodes: set<Memblk>)
    reads nodes
  {
    forall n :: n in nodes ==> n.next != null && n.next in nodes
  }

  lemma {:induction false} Trapped(nodes: set<Memblk>, trap: set<Memblk>, n: Memblk, steps: nat)
    requires trap <= nodes && Trap(trap) && n in trap
    ensures Follow(nodes, n, steps) != null && Follow(nodes, n, steps) in trap
  {
    if steps == 0 {
    } else {
      Trapped(nodes, trap, n.next, steps - 1);
    }
  }

  lemma {:induction false} OneMoreLink(nodes: set<Memblk>, n: Memblk?, steps: nat)
    ensures var m := Follow(nodes, n, steps);
      Follow(nodes, n, steps + 1) == if m == null || m !in nodes then m else m.next
  {
    if steps == 0 || n == null || n !in nodes {
    } else {
      OneMoreLink(nodes, n.next, steps - 1);
    }
  }

  lemma {:induction false} TrappedChain(nodes: set<Memblk>, list: seq<Memblk>, blocks: seq<Block>, head: Memblk?,
                                        i: nat)
    requires Trap(nodes) && head != null && head in nodes && Chain(head, list, blocks) && i < |list|
    ensures list[i] in nodes && i + 1 < |list|
  {
    if i == 0 {
    } else {
      TrappedChain(nodes, list, blocks, head, i - 1);
      assert list[i - 1].next == list[i];
    }
    assert list[i].next != null;
  }

  lemma {:induction false} ChainUnique(head: Memblk?, l1: seq<Memblk>, b1: seq<Block>, l2: seq<Memblk>, b2: seq<Block>)
    requires Chain(head, l1, b1) && Chain(head, l2, b2)
    ensures l1 == l2 && b1 == b2
    decreases |l1|
  {
    if l1 == [] {
    } else {
      assert l1[0] == l2[0];
      TailChain(head, l1, b1);
      TailChain(head, l2, b2);
      ChainUnique(head.next, l1[1..], b1[1..], l2[1..], b2[1..]);
      assert l1 == [l1[0]] + l1[1..] && l2 == [l2[0]] + l2[1..];
      assert b1 == [b1[0]] + b1[1..] && b2 == [b2[0]] + b2[1..];
    }
  }

  lemma TailChain(head: Memblk?, list: seq<Memblk>, blocks: seq<Block>)
    requires Chain(head, list, blocks) && list != []
    ensures Chain(head.next, list[1..], blocks[1..])
  {
    var l := list[1..];
    assert head.next == At(l, 0);
    forall i | 0 <= i < |l|
      ensures l[i].next == At(l, i + 1)
    {
      assert l[i] == list[i + 1];
    }
  }

  // ----- The tangle -----

  /** The one case that leaves a list at all: the freed block took the place of a successor that was not
      the head. */
  predicate CutsOff(bs: seq<Block>, b: Block) {
    var k := FirstAdjacent(bs, b);
    0 < k < |bs| && !Precedes(bs[k], b)
  }

  /** In every other case, the nodes that can still be reached: all links stay among them. */
  ghost function Cycle(nodes: seq<Memblk>, bs: seq<Block>, block: Memblk, b: Block): (c: set<Memblk>)
    requires |nodes| == |bs|
    ensures block in c
  {
    var k := FirstAdjacent(bs, b);
    if k < |bs| && Precedes(bs[k], b) then {block} + (set i | 0 <= i <= k :: nodes[i]) else {block}
  }

  lemma TangledIsATrap(head: Memblk?, nodes: seq<Memblk>, bs: seq<Block>, block: Memblk, b: Block)
    requires Tangled(head, nodes, bs, block, b) && !CutsOff(bs, b)
    ensures Trap(Cycle(nodes, bs, block, b))
  {
    var k := FirstAdjacent(bs, b);
    if k < |bs| && Precedes(bs[k], b) {
      var c := Cycle(nodes, bs, block, b);
      assert nodes[0] in c;
      forall n | n in c && n != block
        ensures n.next != null && n.next in c
      {
        var i :| 0 <= i <= k && nodes[i] == n;
        assert nodes[i].next == if i == k then nodes[0] else nodes[i + 1];
        if i < k {
          assert nodes[i + 1] in c;
        }
      }
    }
  }

  /** When what is left is a list, it is this one: the grown block and the nodes after its old successor. */
  lemma TangledCutsOff(head: Memblk?, nodes: seq<Memblk>, bs: seq<Block>, block: Memblk, b: Block)
    requires Tangled(head, nodes, bs, block, b) && CutsOff(bs, b)
    ensures var k := FirstAdjacent(bs, b);
      Chain(head, [block] + nodes[k + 1..], [Merged(bs[k], b)] + bs[k + 1..])
  {
    var k := FirstAdjacent(bs, b);
    var l, g := [block] + nodes[k + 1..], [Merged(bs[k], b)] + bs[k + 1..];
    forall i | 0 <= i < |l|
      ensures l[i].next == At(l, i + 1) && Holds(l[i], g[i])
    {
      if i > 0 {
        assert l[i] == nodes[k + i] && g[i] == bs[k + i];
      }
    }
  }

  /** The free list is a list after a free as written exactly in the cutting-off case, and then without the
      k blocks that stood before the successor. */
  lemma TangledListIff(head: Memblk?, nodes: seq<Memblk>, bs: seq<Block>, block: Memblk, b: Block,
                       list: seq<Memblk>, blocks: seq<Block>)
    requires Tangled(head, nodes, bs, block, b)
    ensures Chain(head, list, blocks) <==>
      var k := FirstAdjacent(bs, b);
      CutsOff(bs, b) && list == [block] + nodes[k + 1..] && blocks == [Merged(bs[k], b)] + bs[k + 1..]
  {
    if CutsOff(bs, b) {
      var k := FirstAdjacent(bs, b);
      TangledCutsOff(head, nodes, bs, block, b);
      if Chain(head, list, blocks) {
        ChainUnique(head, list, blocks, [block] + nodes[k + 1..], [Merged(bs[k], b)] + bs[k + 1..]);
      }
    } else if Chain(head, list, blocks) {
      TangledIsATrap(head, nodes, bs, block, b);
      TrappedChain(Cycle(nodes, bs, block, b), list, blocks, head, |list| - 1);
    }
  }

  // ----- When a search returns -----

  /** The nodes of the old free list and the freed one. */
  function AllNodes(nodes: seq<Memblk>, block: Memblk): set<Memblk> {
    {block} + set i | 0 <= i < |nodes| :: nodes[i]
  }

  /** What the loop of `allc_memblk_impl` looks for, and what that of `defragment_memblk` does. */
  datatype Wanted = ForSize(size: nat) | NextTo(block: Block)

  predicate Stops(f: Block, w: Wanted) {
    match w
    case ForSize(size) => f.size >= size
    case NextTo(c) => Adjacent(f, c)
  }

  /** After that many iterations the loop, started at head, is done: the list has ended, or the block reached is
      one that is wanted. */
  ghost predicate DoneAfter(nodes: set<Memblk>, head: Memblk?, w: Wanted, steps: nat)
    reads nodes
  {
    var n := Follow(nodes, head, steps);
    n == null || (n in nodes && Stops(BlockOf(n), w))
  }

  ghost predicate LoopEnds(nodes: set<Memblk>, head: Memblk?, w: Wanted)
    reads nodes
  {
    exists steps: nat :: DoneAfter(nodes, head, w, steps)
  }

  /** Whether a search for this size returns once b has been freed as written, told from the free blocks bs
      and from b before the free. */
  predicate Served(bs: seq<Block>, b: Block, size: nat) {
    var k := FirstAdjacent(bs, b);
    if k == |bs| then b.size >= size
    else if Precedes(bs[k], b) then
      b.size >= size || Merged(bs[k], b).size >= size || exists i :: 0 <= i < k && bs[i].size >= size
    else k > 0 || Merged(bs[k], b).size >= size
  }

  /** No link leaves these nodes, so `LoopEnds` says what the search does. */
  lemma LinksStay(head: Memblk?, nodes: seq<Memblk>, bs: seq<Block>, block: Memblk, b: Block)
    requires Tangled(head, nodes, bs, block, b)
    ensures head in AllNodes(nodes, block)
    ensures forall n :: n in AllNodes(nodes, block) ==> n.next == null || n.next in AllNodes(nodes, block)
  {
    var all := AllNodes(nodes, block);
    forall n | n in all
      ensures n.next == null || n.next in all
    {
      assert forall i :: 0 <= i < |nodes| ==> nodes[i] in all;
      if n != block {
        var i :| 0 <= i < |nodes| && nodes[i] == n;
        assert nodes[i].next == null || nodes[i].next in all;
      }
    }
  }

  lemma {:induction false} FollowChain(all: set<Memblk>, list: seq<Memblk>, blocks: seq<Block>, head: Memblk?)
    requires Chain(head, list, blocks) && forall i :: 0 <= i < |list| ==> list[i] in all
    ensures Follow(all, head, |list|) == null
    decreases |list|
  {
    if list == [] {
    } else {
      TailChain(head, list, blocks);
      FollowChain(all, list[1..], blocks[1..], head.next);
    }
  }

  /** From the freed block, i + 1 links lead to node i of a cycle through its predecessor. */
  lemma {:induction false} FollowCycle(head: Memblk?, nodes: seq<Memblk>, bs: seq<Block>, block: Memblk, b: Block,
                                       i: nat)
    requires Tangled(head, nodes, bs, block, b)
    requires var k := FirstAdjacent(bs, b); i <= k < |bs| && Precedes(bs[k], b)
    ensures Follow(AllNodes(nodes, block), head, i + 1) == nodes[i]
    decreases i
  {
    var all := AllNodes(nodes, block);
    if i == 0 {
      assert Follow(all, head, 0) == block;
      OneMoreLink(all, head, 0);
    } else {
      FollowCycle(head, nodes, bs, block, b, i - 1);
      assert nodes[i - 1] in all;
      OneMoreLink(all, head, i);
    }
  }

  /** Where a request is served, the search reaches a block that serves it, or the end of the list. */
  lemma ServedIsReached(head: Memblk?, nodes: seq<Memblk>, bs: seq<Block>, block: Memblk, b: Block, size: nat)
    requires Tangled(head, nodes, bs, block, b) && Served(bs, b, size)
    ensures LoopEnds(AllNodes(nodes, block), head, ForSize(size))
  {
    var all := AllNodes(nodes, block);
    var k := FirstAdjacent(bs, b);
    assert forall i :: 0 <= i < |nodes| ==> nodes[i] in all;
    if CutsOff(bs, b) {
      TangledCutsOff(head, nodes, bs, block, b);
      var list := [block] + nodes[k + 1..];
      FollowChain(all, list, [Merged(bs[k], b)] + bs[k + 1..], head);
      assert DoneAfter(all, head, ForSize(size), |list|);
    } else if block.size >= size {
      assert Follow(all, head, 0) == block;
      assert DoneAfter(all, head, ForSize(size), 0);
    } else {
      var i :| 0 <= i <= k && nodes[i].size >= size;
      FollowCycle(head, nodes, bs, block, b, i);
      assert DoneAfter(all, head, ForSize(size), i + 1);
    }
  }

  /** Where it is not, every block that can be reached is too small. */
  lemma UnservedIsTooLarge(head: Memblk?, nodes: seq<Memblk>, bs: seq<Block>, block: Memblk, b: Block, size: nat,
                           steps: nat)
    requires Tangled(head, nodes, bs, block, b) && !Served(bs, b, size)
    ensures !DoneAfter(AllNodes(nodes, block), head, ForSize(size), steps)
  {
    var c := Cycle(nodes, bs, block, b);
    TangledIsATrap(head, nodes, bs, block, b);
    Trapped(AllNodes(nodes, block), c, block, steps);
    forall n | n in c
      ensures n.size < size
    {
      if n != block {
        var i :| 0 <= i <= FirstAdjacent(bs, b) && nodes[i] == n;
        assert Holds(nodes[i], if i == FirstAdjacent(bs, b) then Merged(bs[i], b) else bs[i]);
      }
    }
  }

  /** After a free as written, a search returns if and only if the request is one that is served. */
  lemma SearchEndsIff(head: Memblk?, nodes: seq<Memblk>, bs: seq<Block>, block: Memblk, b: Block, size: nat)
    requires Tangled(head, nodes, bs, block, b)
    ensures LoopEnds(AllNodes(nodes, block), head, ForSize(size)) <==> Served(bs, b, size)
  {
    if Served(bs, b, size) {
      ServedIsReached(head, nodes, bs, block, b, size);
    } else {
      forall steps: nat
        ensures !DoneAfter(AllNodes(nodes, block), head, ForSize(size), steps)
      {
        UnservedIsTooLarge(head, nodes, bs, block, b, size, steps);
      }
    }
  }

  /** `memallc` returns for a request of this size: it asks for nothing, or its search ends. */
  ghost predicate Returns(h: Heap, nodes: set<Memblk>, head: Memblk?, size: uint64)
    reads nodes
  {
    Clamped(h, size) == 0 || LoopEnds(nodes, head, ForSize(Clamped(h, size)))
  }

  /** After a free as written of the block at addr, the next `memallc` returns if and only if the clamped
      request is one that is served; this can be told from the heap before the free. */
  lemma MemallcReturnsIff(h: Heap, addr: uint64, head: Memblk?, nodes: seq<Memblk>, block: Memblk, size: uint64)
    requires Releases(h, addr) && Tangled(head, nodes, h.free, block, h.live[Find(h.live, addr)])
    ensures Returns(h, AllNodes(nodes, block), head, size) <==>
      Served(h.free, h.live[Find(h.live, addr)], Clamped(h, size))
  {
    SearchEndsIff(head, nodes, h.free, block, h.live[Find(h.live, addr)], Clamped(h, size));
  }

  /** With no free block adjacent, the freed block links to itself and every earlier free block is out of
      reach: a later request returns if and only if it is not larger than the freed block, or the freed block
      is the whole range. */
  lemma LoneFreeReturnsIff(h: Heap, addr: uint64, head: Memblk?, nodes: seq<Memblk>, block: Memblk, size: uint64)
    requires WellFormed(h) && Releases(h, addr)
    requires Tangled(head, nodes, h.free, block, h.live[Find(h.live, addr)])
    requires FirstAdjacent(h.free, h.live[Find(h.live, addr)]) == |h.free|
    ensures head == block && block.next == block
    ensures Returns(h, AllNodes(nodes, block), head, size) <==>
      size <= h.live[Find(h.live, addr)].size || h.live[Find(h.live, addr)].size == h.range
  {
    MemallcReturnsIff(h, addr, head, nodes, block, size);
    TotalBounds(h.live, Find(h.live, addr));
  }

  // ----- When a further free returns -----

  lemma {:induction false} FollowLasso(all: set<Memblk>, head: Memblk?, nodes: seq<Memblk>, s: Shape, i: nat)
    requires Lasso(head, nodes, s) && i < |nodes| && forall j :: 0 <= j < |nodes| ==> nodes[j] in all
    ensures Follow(all, head, i) == nodes[i]
  {
    if i == 0 {
    } else {
      FollowLasso(all, head, nodes, s, i - 1);
      OneMoreLink(all, head, i - 1);
    }
  }

  lemma LassoEnds(all: set<Memblk>, head: Memblk?, nodes: seq<Memblk>, s: Shape)
    requires Lasso(head, nodes, s) && Ends(s) && forall j :: 0 <= j < |nodes| ==> nodes[j] in all
    ensures Follow(all, head, |nodes|) == null
  {
    if nodes == [] {
    } else {
      FollowLasso(all, head, nodes, s, |nodes| - 1);
      OneMoreLink(all, head, |nodes| - 1);
    }
  }

  lemma LassoTraps(head: Memblk?, nodes: seq<Memblk>, s: Shape)
    requires Lasso(head, nodes, s) && !Ends(s)
    ensures head != null && head in (set i | 0 <= i < |nodes| :: nodes[i]) && Trap(set i | 0 <= i < |nodes| :: nodes[i])
  {
    var trap := set i | 0 <= i < |nodes| :: nodes[i];
    forall n | n in trap
      ensures n.next != null && n.next in trap
    {
      var i :| 0 <= i < |nodes| && nodes[i] == n;
      assert nodes[i].next == nodes[NextOf(s, i)];
    }
  }

  /** From the head of a list of any shape, a loop ends if and only if the list does or a block that can be reached
      is wanted. */
  lemma LoopEndsIff(all: set<Memblk>, head: Memblk?, nodes: seq<Memblk>, s: Shape, w: Wanted)
    requires Lasso(head, nodes, s) && forall j :: 0 <= j < |nodes| ==> nodes[j] in all
    ensures LoopEnds(all, head, w) <==> Ends(s) || exists f :: f in s.blocks && Stops(f, w)
  {
    if Ends(s) {
      LassoEnds(all, head, nodes, s);
      assert DoneAfter(all, head, w, |nodes|);
    } else if f :| f in s.blocks && Stops(f, w) {
      var i :| 0 <= i < |nodes| && s.blocks[i] == f;
      FollowLasso(all, head, nodes, s, i);
      assert DoneAfter(all, head, w, i);
    } else {
      LassoTraps(head, nodes, s);
      forall steps: nat
        ensures !DoneAfter(all, head, w, steps)
      {
        Trapped(all, set i | 0 <= i < |nodes| :: nodes[i], head, steps);
        var n := Follow(all, head, steps);
        var i :| 0 <= i < |nodes| && nodes[i] == n;
        assert s.blocks[i] in s.blocks && BlockOf(n) == s.blocks[i];
      }
    }
  }

  /** So a free of c into a list of any shape returns if and only if `FreeInto` says so: the loop passes the block
      itself, which does not touch itself, and goes on from the old head. */
  lemma FreeReturnsIff(all: set<Memblk>, head: Memblk?, nodes: seq<Memblk>, s: Shape, c: Block)
    requires Lasso(head, nodes, s) && forall j :: 0 <= j < |nodes| ==> nodes[j] in all
    ensures LoopEnds(all, head, NextTo(c)) <==> FreeInto(s, c).Some?
    ensures c.size > 0 ==> !Adjacent(c, c)
  {
    LoopEndsIff(all, head, nodes, s, NextTo(c));
    FreeIntoIff(s, c);
  }

  /** After a first free as written, of b into a list in order that held bs, a second one returns if and only if its
      block rejoins what the first has left. */
  lemma SecondFreeLoopIff(head: Memblk?, nodes: seq<Memblk>, bs: seq<Block>, block: Memblk, b: Block, c: Block)
    requires Tangled(head, nodes, bs, block, b) && NoRepeats(nodes) && Absent(block, nodes)
    ensures LoopEnds(AllNodes(nodes, block), head, NextTo(c)) <==> Rejoins(bs, b, c)
  {
    var s := Shape(bs, |bs|);
    SecondFreeReturnsIff(bs, b, c);
    KnottedIsLasso(head, nodes, s, block, b);
    var reached := NodesInto(nodes, block, s, b);
    assert forall i :: 0 <= i < |reached| ==> reached[i] in reached;
    FreeReturnsIff(AllNodes(nodes, block), head, reached, FreeInto(s, b).value, c);
  }

  /** Whatever is freed, the free list as written never ends up holding the bytes it should: those that
      were free and those of the freed block. So the free path as written keeps a well-formed heap well
      formed exactly when it frees nothing. */
  lemma NeverRestored(h: Heap, addr: uint64, head: Memblk?, nodes: seq<Memblk>, block: Memblk,
                      list: seq<Memblk>, blocks: seq<Block>)
    requires WellFormed(h) && Releases(h, addr)
    requires Tangled(head, nodes, h.free, block, h.live[Find(h.live, addr)])
    requires Chain(head, list, blocks)
    ensures exists x :: Count(blocks, x) != Count(Release(h, addr).free, x)
  {
    var i := Find(h.live, addr);
    var b := h.live[i];
    var k := FirstAdjacent(h.free, b);
    TangledListIff(head, nodes, h.free, block, b, list, blocks);
    var x := h.free[0].addr;
    TotalBounds(h.live, i);
    assert Has(h.free[0], x);
    ReleaseMovesBytes(h, addr, x);
    CountAt(h.live, i, x);
    CountAt(h.free[..k], 0, x);
    CountAt(h.free, k, x);
    NoWrap(h, k, i);
    MergedBytes(h.free[k], b, x);
    CountPush(Merged(h.free[k], b), h.free[k + 1..], x);
    assert Count(h.free, x) + Count(h.live, x) == 1;
    assert Count(blocks, x) == 0;
  }
}

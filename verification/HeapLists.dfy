/** driver/memallc.c as pointer code: two singly linked lists threaded through a fixed pool of descriptors.
    Every method is proved to do to the lists what HeapModel.dfy does to values. */
module HeapLists {
  import opened Numerals
  import opened HeapModel
  import opened HeapShapes
  import opened Sequences

  class Memblk {
    /** The descriptor's index in the pool. */
    ghost const id: nat
    var addr: uint64
    var size: uint64
    var next: Memblk?

    constructor (ghost index: nat)
      ensures id == index && addr == 0 && size == 0 && next == null
    {
      id := index;
      addr, size, next := 0, 0, null;
    }
  }

  function At(nodes: seq<Memblk>, i: nat): Memblk? {
    if i < |nodes| then nodes[i] else null
  }

  predicate Absent(n: Memblk, nodes: seq<Memblk>) {
    forall i :: 0 <= i < |nodes| ==> nodes[i] != n
  }

  predicate Disjoint(a: seq<Memblk>, b: seq<Memblk>) {
    forall i, j :: 0 <= i < |a| && 0 <= j < |b| ==> a[i] != b[j]
  }

  /** From head, the list runs through exactly these nodes, which hold exactly these blocks. */
  ghost predicate Chain(head: Memblk?, nodes: seq<Memblk>, blocks: seq<Block>)
    reads nodes
  {
    && head == At(nodes, 0)
    && |nodes| == |blocks|
    && (forall i {:trigger nodes[i].next} :: 0 <= i < |nodes| ==> nodes[i].next == At(nodes, i + 1))
    && (forall i {:trigger nodes[i].addr} {:trigger nodes[i].size} {:trigger blocks[i]} ::
          0 <= i < |nodes| ==> nodes[i].addr == blocks[i].addr && nodes[i].size == blocks[i].size)
  }

  lemma ChainHolds(head: Memblk?, nodes: seq<Memblk>, blocks: seq<Block>, i: nat)
    requires Chain(head, nodes, blocks) && i < |nodes|
    ensures |nodes| == |blocks| && nodes[i].addr == blocks[i].addr && nodes[i].size == blocks[i].size
  {
  }

  lemma WithoutDistinct(nodes: seq<Memblk>, i: nat)
    requires i < |nodes| && NoRepeats(nodes)
    ensures NoRepeats(Without(nodes, i)) && Absent(nodes[i], Without(nodes, i))
  {
  }

  lemma WithDistinct(nodes: seq<Memblk>, i: nat, n: Memblk)
    requires i <= |nodes| && NoRepeats(nodes) && Absent(n, nodes)
    ensures NoRepeats(With(nodes, i, n))
  {
  }

  /** Makes prev, or the head if there is no prev, link past block. */
  method Bypass(head: Memblk?, prev: Memblk?, block: Memblk,
                ghost nodes: seq<Memblk>, ghost blocks: seq<Block>, ghost i: nat) returns (newHead: Memblk?)
    requires Chain(head, nodes, blocks) && NoRepeats(nodes)
    requires i < |nodes| && block == nodes[i]
    requires prev == if i == 0 then null else nodes[i - 1]
    modifies if prev == null then {} else {prev}
    ensures Chain(newHead, Without(nodes, i), Without(blocks, i))
    ensures NoRepeats(Without(nodes, i)) && Absent(block, Without(nodes, i))
    ensures block.addr == blocks[i].addr && block.size == blocks[i].size
  {
    WithoutDistinct(nodes, i);
    if prev != null {
      prev.next := block.next;
      newHead := head;
    } else {
      newHead := block.next;
    }
  }

  /** The three assignments that cut block to size and put newBlock, its tail, after it. */
  method CutInTwo(newBlock: Memblk, block: Memblk, size: uint64, ghost head: Memblk?,
                  ghost nodes: seq<Memblk>, ghost blocks: seq<Block>, ghost i: nat)
    requires Chain(head, nodes, blocks) && NoRepeats(nodes) && Absent(newBlock, nodes)
    requires i < |nodes| && block == nodes[i]
    modifies block, newBlock
    ensures Chain(head, With(nodes, i + 1, newBlock),
                  With(blocks[i := Block(old(block.addr), size)], i + 1, Block(old(newBlock.addr), old(newBlock.size))))
    ensures NoRepeats(With(nodes, i + 1, newBlock))
  {
    hide With;
    newBlock.next := block.next;
    block.next := newBlock;
    block.size := size;
    WithDistinct(nodes, i + 1, newBlock);
  }

  /** The assignments by which block absorbs current, its successor, and takes its place. */
  method TakePlace(head: Memblk?, prevCurrent: Memblk?, current: Memblk, block: Memblk,
                   ghost nodes: seq<Memblk>, ghost blocks: seq<Block>, ghost k: nat) returns (newHead: Memblk?)
    requires Chain(head, nodes, blocks) && NoRepeats(nodes) && Absent(block, nodes)
    requires k < |nodes| && current == nodes[k]
    requires prevCurrent == if k == 0 then null else nodes[k - 1]
    modifies block, if prevCurrent == null then {} else {prevCurrent}
    ensures Chain(newHead, nodes[k := block],
                  blocks[k := Block(old(block.addr), Add64(old(block.size), old(current.size)))])
    ensures NoRepeats(nodes[k := block])
    ensures block.addr == old(block.addr) && block.size == Add64(old(block.size), old(current.size))
  {
    newHead := head;
    block.size := Add64(block.size, current.size);
    block.next := current.next;
    if current == head {
      newHead := block;
    } else if prevCurrent != null {
      prevCurrent.next := block;
    }
  }

  /** The heap with free block i cut to size, its tail following it as a block of its own. */
  function Cut(h: Heap, i: nat, size: uint64): Heap
    requires i < |h.free| && 0 < size < h.free[i].size
  {
    var head := Block(h.free[i].addr, size);
    var tail := Block(Add64(h.free[i].addr, size), h.free[i].size - size);
    h.(free := With(h.free[i := head], i + 1, tail), used := h.used + 1)
  }

  /** The heap with free block i moved to the head of the live list. */
  function Moved(h: Heap, i: nat): Heap
    requires i < |h.free|
  {
    h.(free := Without(h.free, i), live := With(h.live, 0, h.free[i]))
  }

  lemma MovedIsAlloc(h: Heap, i: nat, size: uint64)
    requires i < |h.free| && 0 < size <= h.free[i].size && FirstFit(h.free, size) == i
    ensures Splits(h, size) ==> Moved(Cut(h, i, size), i) == Alloc(h, size)
    ensures !Splits(h, size) ==> Moved(h, i) == Alloc(h, size)
  {
    assert With(h.live, 0, h.free[i]) == [h.free[i]] + h.live;
    if Splits(h, size) {
      var c := Cut(h, i, size);
      assert Without(c.free, i) == h.free[i := c.free[i + 1]];
      assert With(h.live, 0, c.free[i]) == [c.free[i]] + h.live;
    }
  }

  /** The pointers the free path as written leaves behind, when nodes had shape s and block, holding b, was
      freed: block is the head, and then either links to itself, or stands before a cycle through the
      block it merged into, or takes its successor's place while the nodes before that one link to it. */
  ghost predicate Knotted(head: Memblk?, nodes: seq<Memblk>, s: Shape, block: Memblk, b: Block)
    reads nodes, block
  {
    var k := FirstAdjacent(s.blocks, b);
    var grown := if k < |s.blocks| then Merged(s.blocks[k], b) else b;
    var intoPredecessor := k < |s.blocks| && Precedes(s.blocks[k], b);
    var ontoSuccessor := k < |s.blocks| && !Precedes(s.blocks[k], b);
    && |nodes| == |s.blocks| && head == block
    && Holds(block, if ontoSuccessor then grown else b)
    && (forall i {:trigger nodes[i]} {:trigger s.blocks[i]} ::
          0 <= i < |nodes| ==> Holds(nodes[i], if intoPredecessor && i == k then grown else s.blocks[i]))
    && block.next == (if intoPredecessor then nodes[0]
                      else if ontoSuccessor && k > 0 then At(nodes, NextOf(s, k)) else block)
    && (forall i {:trigger nodes[i].next} :: 0 <= i < |nodes| ==>
          nodes[i].next == if intoPredecessor && i == k then nodes[0]
                           else if ontoSuccessor && i + 1 == k then block
                           else At(nodes, NextOf(s, i)))
  }

  /** The same for a list in order that held bs: then the nodes before a successor are cut off. */
  ghost predicate Tangled(head: Memblk?, nodes: seq<Memblk>, bs: seq<Block>, block: Memblk, b: Block)
    reads nodes, block
  {
    Knotted(head, nodes, Shape(bs, |bs|), block, b)
  }

  predicate Holds(n: Memblk, b: Block)
    reads n
  {
    n.addr == b.addr && n.size == b.size
  }

  function BlockOf(n: Memblk): Block
    reads n
  {
    Block(n.addr, n.size)
  }

  /** From head, the links run through these nodes, which hold the shape's blocks, and then on as it says. */
  ghost predicate Lasso(head: Memblk?, nodes: seq<Memblk>, s: Shape)
    reads nodes
  {
    Sound(s) && |nodes| == |s.blocks| && NoRepeats(nodes) && Linked(head, nodes, s) && Held(nodes, s.blocks)
  }

  ghost predicate Linked(head: Memblk?, nodes: seq<Memblk>, s: Shape)
    reads nodes
  {
    && head == At(nodes, 0)
    && (forall i {:trigger nodes[i].next} :: 0 <= i < |nodes| ==> nodes[i].next == At(nodes, NextOf(s, i)))
  }

  ghost predicate Held(nodes: seq<Memblk>, blocks: seq<Block>)
    requires |nodes| == |blocks|
    reads nodes
  {
    forall i {:trigger nodes[i].addr} {:trigger nodes[i].size} {:trigger blocks[i]} ::
      0 <= i < |nodes| ==> Holds(nodes[i], blocks[i])
  }

  /** A list in order is such a shape. */
  lemma ChainIsLasso(head: Memblk?, nodes: seq<Memblk>, blocks: seq<Block>)
    ensures Chain(head, nodes, blocks) && NoRepeats(nodes) <==> Lasso(head, nodes, Shape(blocks, |blocks|))
  {
  }

  /** The nodes that hold the blocks of `FreeInto(s, c)`, when nodes held those of s and block held c. */
  function NodesInto(nodes: seq<Memblk>, block: Memblk, s: Shape, c: Block): seq<Memblk>
    requires Sound(s) && |nodes| == |s.blocks| && FreeInto(s, c).Some?
  {
    var k := FirstAdjacent(s.blocks, c);
    if k == |nodes| then [block]
    else if Precedes(s.blocks[k], c) then [block] + nodes[..k + 1]
    else if k == 0 then [block]
    else if s.back > k then Onward(nodes, k, block)
    else if s.back == k then Onward(nodes, k, block) + [nodes[k]]
    else Around(nodes, s.back, k, block)
  }

  lemma StillApart(was: seq<Memblk>, nodes: seq<Memblk>, block: Memblk, others: seq<Memblk>)
    requires Disjoint(was, others) && Absent(block, others)
    requires forall n :: n in nodes ==> n == block || n in was
    ensures Disjoint(nodes, others)
  {
    forall i, j | 0 <= i < |nodes| && 0 <= j < |others|
      ensures nodes[i] != others[j]
    {
      assert nodes[i] in nodes;
    }
  }

  lemma LassoNoRepeats(head: Memblk?, nodes: seq<Memblk>, s: Shape)
    requires Lasso(head, nodes, s)
    ensures Sound(s) && |nodes| == |s.blocks| && NoRepeats(nodes)
  {
  }

  /** The block stands before a cycle through its predecessor. */
  lemma KnottedIntoPredecessor(head: Memblk?, nodes: seq<Memblk>, s: Shape, block: Memblk, b: Block)
    requires Sound(s) && |nodes| == |s.blocks| && NoRepeats(nodes) && Absent(block, nodes)
    requires Knotted(head, nodes, s, block, b)
    requires var k := FirstAdjacent(s.blocks, b); k < |nodes| && Precedes(s.blocks[k], b)
    ensures Lasso(head, NodesInto(nodes, block, s, b), FreeInto(s, b).value)
    ensures forall n :: n in NodesInto(nodes, block, s, b) ==> n == block || n in nodes
  {
    var k := FirstAdjacent(s.blocks, b);
    var l := [block] + nodes[..k + 1];
    assert forall i :: 0 < i <= k + 1 ==> l[i] == nodes[i - 1];
  }

  /** The block took its successor's place before the cycle, or on a list that ends. */
  lemma KnottedBefore(head: Memblk?, nodes: seq<Memblk>, s: Shape, block: Memblk, b: Block)
    requires Sound(s) && |nodes| == |s.blocks| && NoRepeats(nodes) && Absent(block, nodes)
    requires Knotted(head, nodes, s, block, b)
    requires var k := FirstAdjacent(s.blocks, b); 0 < k < |nodes| && !Precedes(s.blocks[k], b) && s.back > k
    ensures Lasso(head, NodesInto(nodes, block, s, b), FreeInto(s, b).value)
    ensures forall n :: n in NodesInto(nodes, block, s, b) ==> n == block || n in nodes
  {
    hide Onward, NoRepeats;
    OnwardNoRepeats(nodes, FirstAdjacent(s.blocks, b), block);
  }

  /** The cycle began at the successor, and still passes it. */
  lemma KnottedAt(head: Memblk?, nodes: seq<Memblk>, s: Shape, block: Memblk, b: Block)
    requires Sound(s) && |nodes| == |s.blocks| && NoRepeats(nodes) && Absent(block, nodes)
    requires Knotted(head, nodes, s, block, b)
    requires var k := FirstAdjacent(s.blocks, b); 0 < k < |nodes| && !Precedes(s.blocks[k], b) && s.back == k
    ensures Lasso(head, NodesInto(nodes, block, s, b), FreeInto(s, b).value)
    ensures forall n :: n in NodesInto(nodes, block, s, b) ==> n == block || n in nodes
  {
    hide Onward, NoRepeats;
    OnwardNoRepeats(nodes, FirstAdjacent(s.blocks, b), block);
    NoRepeatsSnoc(Onward(nodes, FirstAdjacent(s.blocks, b), block), nodes[FirstAdjacent(s.blocks, b)]);
  }

  lemma KnottedAfterHolds(head: Memblk?, nodes: seq<Memblk>, s: Shape, block: Memblk, b: Block)
    requires Sound(s) && |nodes| == |s.blocks| && NoRepeats(nodes) && Absent(block, nodes)
    requires Knotted(head, nodes, s, block, b)
    requires var k := FirstAdjacent(s.blocks, b); 0 < k < |nodes| && !Precedes(s.blocks[k], b) && s.back < k
    ensures Held(Around(nodes, s.back, FirstAdjacent(s.blocks, b), block),
                 Around(s.blocks, s.back, FirstAdjacent(s.blocks, b), Merged(s.blocks[FirstAdjacent(s.blocks, b)], b)))
  {
    hide Around, NoRepeats, Merged;
  }

  lemma KnottedAfterLinks(head: Memblk?, nodes: seq<Memblk>, s: Shape, block: Memblk, b: Block)
    requires Sound(s) && |nodes| == |s.blocks| && NoRepeats(nodes) && Absent(block, nodes)
    requires Knotted(head, nodes, s, block, b)
    requires var k := FirstAdjacent(s.blocks, b); 0 < k < |nodes| && !Precedes(s.blocks[k], b) && s.back < k
    ensures Linked(head, Around(nodes, s.back, FirstAdjacent(s.blocks, b), block), FreeInto(s, b).value)
  {
    hide Around, NoRepeats, Merged, Holds;
  }

  /** The block took its successor's place on the cycle. */
  lemma KnottedAfter(head: Memblk?, nodes: seq<Memblk>, s: Shape, block: Memblk, b: Block)
    requires Sound(s) && |nodes| == |s.blocks| && NoRepeats(nodes) && Absent(block, nodes)
    requires Knotted(head, nodes, s, block, b)
    requires var k := FirstAdjacent(s.blocks, b); 0 < k < |nodes| && !Precedes(s.blocks[k], b) && s.back < k
    ensures Lasso(head, NodesInto(nodes, block, s, b), FreeInto(s, b).value)
    ensures forall n :: n in NodesInto(nodes, block, s, b) ==> n == block || n in nodes
  {
    hide Around, NoRepeats, Held, Linked, Merged;
    AroundNoRepeats(nodes, s.back, FirstAdjacent(s.blocks, b), block);
    KnottedAfterHolds(head, nodes, s, block, b);
    KnottedAfterLinks(head, nodes, s, block, b);
  }

  /** In every case, what can be reached afterwards has the shape that was computed. */
  lemma KnottedIsLasso(head: Memblk?, nodes: seq<Memblk>, s: Shape, block: Memblk, b: Block)
    requires Sound(s) && |nodes| == |s.blocks| && NoRepeats(nodes) && Absent(block, nodes)
    requires Knotted(head, nodes, s, block, b) && FreeInto(s, b).Some?
    ensures Lasso(head, NodesInto(nodes, block, s, b), FreeInto(s, b).value)
    ensures forall n :: n in NodesInto(nodes, block, s, b) ==> n == block || n in nodes
  {
    var k := FirstAdjacent(s.blocks, b);
    if k < |nodes| && Precedes(s.blocks[k], b) {
      KnottedIntoPredecessor(head, nodes, s, block, b);
    } else if 0 < k < |nodes| && s.back > k {
      KnottedBefore(head, nodes, s, block, b);
    } else if 0 < k < |nodes| && s.back == k {
      KnottedAt(head, nodes, s, block, b);
    } else if 0 < k < |nodes| {
      KnottedAfter(head, nodes, s, block, b);
    }
  }

  /** From first, the links run through path to last. */
  ghost predicate Path(first: Memblk?, path: seq<Memblk>, last: Memblk?)
    reads path
  {
    && first == (if path == [] then last else path[0])
    && (forall i {:trigger path[i].next} :: 0 <= i < |path| ==>
          path[i].next == if i + 1 < |path| then path[i + 1] else last)
  }

  /** The node before the end of path, which follows block. */
  function Before(block: Memblk, path: seq<Memblk>): Memblk {
    if path == [] then block else path[|path| - 1]
  }

  /** The file's static variables. */
  class Allocator {
    const pool: seq<Memblk>
    ghost const poolNodes: set<Memblk>
    var poolIndex: nat
    var heapStart: uint64
    var range: uint64
    var freeList: Memblk?
    var allcList: Memblk?

    /** The nodes of both lists, and the heap they represent. */
    ghost var freeNodes: seq<Memblk>
    ghost var allcNodes: seq<Memblk>
    ghost var heap: Heap

    ghost predicate PoolValid()
      reads this
    {
      && |pool| == MAX_MEMBLK_COUNT && poolIndex <= MAX_MEMBLK_COUNT
      && forall i :: 0 <= i < |pool| ==> pool[i] in poolNodes && pool[i].id == i
    }

    /** n is a descriptor that has been handed out. */
    ghost predicate Used(n: Memblk)
      reads this
    {
      n in poolNodes && n.id < poolIndex
    }

    /** Both lists are acyclic, share no node, use only descriptors already handed out, and hold the
        blocks of heap. */
    ghost predicate Lists()
      reads this, freeNodes, allcNodes
    {
      && PoolValid()
      && Chain(freeList, freeNodes, heap.free)
      && Chain(allcList, allcNodes, heap.live)
      && NoRepeats(freeNodes) && NoRepeats(allcNodes) && Disjoint(freeNodes, allcNodes)
      && (forall i :: 0 <= i < |freeNodes| ==> Used(freeNodes[i]))
      && (forall i :: 0 <= i < |allcNodes| ==> Used(allcNodes[i]))
      && heap.start == heapStart && heap.range == range
    }

    ghost predicate Valid()
      reads this, freeNodes, allcNodes
    {
      Lists() && heap.used == poolIndex
    }

    /** n has been handed out but is on neither list. */
    ghost predicate Detached(n: Memblk)
      reads this
    {
      Used(n) && Absent(n, freeNodes) && Absent(n, allcNodes)
    }

    /** The pool before `init_memallc`: descriptors exist, none is handed out. */
    constructor ()
      ensures Valid() && fresh(poolNodes)
      ensures heap == Heap([], [], 0, 0, 0x20_0000)
    {
      poolIndex, heapStart, range := 0, 0, 0x20_0000;
      freeList, allcList := null, null;
      freeNodes, allcNodes := [], [];
      heap := Heap([], [], 0, 0, 0x20_0000);
      var nodes: seq<Memblk> := [];
      while |nodes| < MAX_MEMBLK_COUNT
        invariant |nodes| <= MAX_MEMBLK_COUNT
        invariant fresh(nodes) && forall i :: 0 <= i < |nodes| ==> nodes[i].id == i
      {
        var node := new Memblk(|nodes|);
        nodes := nodes + [node];
      }
      pool := nodes;
      poolNodes := set n | n in nodes;
    }

    method NewMemblk(addr: uint64, size: uint64) returns (block: Memblk?)
      requires PoolValid()
      modifies this`poolIndex, poolNodes
      ensures PoolValid()
      ensures old(poolIndex) == MAX_MEMBLK_COUNT ==>
        block == null && poolIndex == old(poolIndex) && unchanged(poolNodes)
      ensures old(poolIndex) < MAX_MEMBLK_COUNT ==>
        && block == pool[old(poolIndex)] && poolIndex == old(poolIndex) + 1
        && block.addr == addr && block.size == size && block.next == null
        && forall n :: n in poolNodes && n != block ==> unchanged(n)
    {
      if poolIndex >= MAX_MEMBLK_COUNT {
        return null;
      }
      block := pool[poolIndex];
      poolIndex := poolIndex + 1;
      block.addr, block.size, block.next := addr, size, null;
    }

    /** `init_memallc`, whatever the state before. */
    method InitMemallc(s: uint64, r: uint64)
      requires PoolValid()
      modifies this, poolNodes
      ensures Valid() && heap == Init(s, r)
    {
      heapStart := s;
      range := r;
      poolIndex := 0;
      freeList := NewMemblk(heapStart, range);
      allcList := null;
      freeNodes, allcNodes := [freeList], [];
      heap := Init(s, r);
    }

    /** `memallc`: the address of the block handed out, or NULL. */
    method Memallc(size: uint64) returns (addr: uint64)
      requires Valid()
      modifies this, poolNodes
      ensures Valid() && heap == Alloc(old(heap), Clamped(old(heap), size))
      ensures addr == match Allocated(old(heap), Clamped(old(heap), size))
                      case None => 0
                      case Some(b) => b.addr
      ensures size <= range ==> heap == Alloc(old(heap), size)
      ensures size > range ==> heap == Alloc(old(heap), range)
      ensures Allocated(old(heap), if size > range then range else size) == None ==> addr == 0 && heap == old(heap)
    {
      if freeList == null {
        return 0;
      }
      var block: Memblk?;
      if size > range {
        block := AllcMemblk(range);
      } else {
        block := AllcMemblk(size);
      }
      addr := if block != null then block.addr else 0;
    }

    /** block is what an allocation from h returns, and now heads the allocated list. */
    ghost predicate Hands(h: Heap, size: uint64, block: Memblk?, wasFree: seq<Memblk>, wasAllc: seq<Memblk>)
      reads this, block
    {
      && (block == null <==> Allocated(h, size) == None)
      && (block == null ==> freeNodes == wasFree && allcNodes == wasAllc)
      && (block != null ==>
            && block in wasFree
            && allcNodes == With(wasAllc, 0, block)
            && Allocated(h, size) == Some(Block(block.addr, block.size)))
    }

    /** `allc_memblk`: one descriptor moves from the free list to the head of the allocated list. */
    method AllcMemblk(size: uint64) returns (block: Memblk?)
      requires Valid()
      modifies this, poolNodes
      ensures Valid() && heap == Alloc(old(heap), size)
      ensures Hands(old(heap), size, block, old(freeNodes), old(allcNodes))
      ensures block == null ==> heap == old(heap)
    {
      if size == 0 || freeList == null {
        return null;
      }
      block := AllcMemblkImpl(size, null, freeList);
    }

    method AllcMemblkImpl(size: uint64, first: Memblk?, head: Memblk) returns (r: Memblk?)
      requires Valid() && size > 0 && first == null && head == freeList
      modifies this, poolNodes
      ensures Valid() && heap == Alloc(old(heap), size)
      ensures Hands(old(heap), size, r, old(freeNodes), old(allcNodes))
    {
      var prev, block: Memblk? := first, head;
      ghost var i := 0;
      while block != null
        invariant i <= |freeNodes| && block == At(freeNodes, i)
        invariant prev == if i == 0 then null else freeNodes[i - 1]
        invariant forall j :: 0 <= j < i ==> heap.free[j].size < size
        decreases |freeNodes| - i
      {
        if block.size >= size {
          r := AllcMemblkImplSplit(size, prev, block, i);
          return;
        }
        prev := block;
        block := block.next;
        i := i + 1;
      }
      r := null;
    }

    method AllcMemblkImplSplit(size: uint64, prev: Memblk?, block: Memblk, ghost i: nat) returns (r: Memblk)
      requires Valid() && size > 0
      requires i < |freeNodes| && block == freeNodes[i]
      requires prev == if i == 0 then null else freeNodes[i - 1]
      requires FirstFit(heap.free, size) == i
      modifies this, poolNodes
      ensures Valid() && heap == Alloc(old(heap), size)
      ensures Hands(old(heap), size, r, old(freeNodes), old(allcNodes))
    {
      MovedIsAlloc(heap, i, size);
      SplitOff(size, block, i);
      MoveToAllocated(prev, block, i);
      r := block;
    }

    /** The first half of the split function: a block that is too large leaves its tail, as a new block,
        after it in the free list; unless the pool is exhausted. */
    method SplitOff(size: uint64, block: Memblk, ghost i: nat)
      requires Valid() && i < |freeNodes| && block == freeNodes[i] && 0 < size <= block.size
      modifies this`poolIndex, this`freeNodes, this`heap, poolNodes
      ensures Valid()
      ensures heap == if old(block.size) > size && old(poolIndex) < MAX_MEMBLK_COUNT
                      then Cut(old(heap), i, size) else old(heap)
      ensures i < |freeNodes| && freeNodes[i] == block && (i > 0 ==> freeNodes[i - 1] == old(freeNodes[i - 1]))
    {
      if block.size > size {
        var newBlock := NewMemblk(Add64(block.addr, size), block.size - size);
        if newBlock != null {
          LinkTail(newBlock, block, size, i);
        }
      }
    }

    /** newBlock, block's tail, joins the free list. */
    method LinkTail(newBlock: Memblk, block: Memblk, size: uint64, ghost i: nat)
      requires Lists() && heap.used + 1 == poolIndex && Detached(newBlock)
      requires i < |freeNodes| && block == freeNodes[i] && 0 < size < block.size
      requires newBlock.addr == Add64(block.addr, size) && newBlock.size == block.size - size
      modifies this`freeNodes, this`heap, block, newBlock
      ensures Valid() && heap == Cut(old(heap), i, size)
      ensures i < |freeNodes| && freeNodes[i] == block && (i > 0 ==> freeNodes[i - 1] == old(freeNodes[i - 1]))
    {
      hide With, NoRepeats, Chain;
      ghost var was := freeNodes;
      ChainHolds(freeList, freeNodes, heap.free, i);
      CutInTwo(newBlock, block, size, freeList, was, heap.free, i);
      freeNodes := With(was, i + 1, newBlock);
      heap := Cut(heap, i, size);
    }

    /** The second half of the split function: block leaves the free list and heads the allocated one. */
    method MoveToAllocated(prev: Memblk?, block: Memblk, ghost i: nat)
      requires Valid()
      requires i < |freeNodes| && block == freeNodes[i]
      requires prev == if i == 0 then null else freeNodes[i - 1]
      modifies this`freeList, this`allcList, this`freeNodes, this`allcNodes, this`heap, poolNodes
      ensures Valid() && heap == Moved(old(heap), i)
      ensures allcNodes == With(old(allcNodes), 0, block)
    {
      UnlinkFree(prev, block, i);
      PushLive(block);
    }

    method PushLive(block: Memblk)
      requires Valid() && Detached(block)
      modifies this`allcList, this`allcNodes, this`heap, block
      ensures Valid()
      ensures heap == old(heap).(live := With(old(heap.live), 0, Block(old(block.addr), old(block.size))))
      ensures allcNodes == With(old(allcNodes), 0, block)
    {
      block.next := allcList;
      allcList := block;
      WithDistinct(allcNodes, 0, block);
      heap := heap.(live := With(heap.live, 0, Block(block.addr, block.size)));
      allcNodes := With(allcNodes, 0, block);
    }

    /** prev, or the head, now links past block. */
    method UnlinkFree(prev: Memblk?, block: Memblk, ghost i: nat)
      requires Valid()
      requires i < |freeNodes| && block == freeNodes[i]
      requires prev == if i == 0 then null else freeNodes[i - 1]
      modifies this`freeList, this`freeNodes, this`heap, poolNodes
      ensures Valid() && Detached(block)
      ensures freeNodes == Without(old(freeNodes), i)
      ensures heap == old(heap).(free := Without(old(heap.free), i))
      ensures block.addr == old(heap).free[i].addr && block.size == old(heap).free[i].size
    {
      hide Without, NoRepeats, Chain;
      freeList := Bypass(freeList, prev, block, freeNodes, heap.free, i);
      freeNodes := Without(freeNodes, i);
      heap := heap.(free := Without(heap.free, i));
    }

    /** `get_allc_memblk_by_addr`: the descriptor of the live block at addr, if there is one. */
    method GetAllcMemblkByAddr(addr: uint64) returns (r: Memblk?)
      requires Valid()
      ensures r == At(allcNodes, Find(heap.live, addr))
      ensures r != null <==> exists b :: b in heap.live && b.addr == addr
    {
      var current := allcList;
      ghost var i := 0;
      while current != null
        invariant i <= |allcNodes| && current == At(allcNodes, i)
        invariant forall j :: 0 <= j < i ==> heap.live[j].addr != addr
        decreases |allcNodes| - i
      {
        if current.addr == addr {
          assert heap.live[i] in heap.live;
          return current;
        }
        current := current.next;
        i := i + 1;
      }
      r := null;
    }

    /** The allocated list is in order; the free list may be anything. */
    ghost predicate LiveHeld()
      reads this, allcNodes
    {
      && PoolValid()
      && Chain(allcList, allcNodes, heap.live) && NoRepeats(allcNodes)
      && forall i :: 0 <= i < |allcNodes| ==> Used(allcNodes[i])
    }

    /** The first half of `free_memallc`: looks for the live block at addr and takes it off the
        allocated list; NULL if there is none. */
    method TakeLive(addr: uint64) returns (block: Memblk?)
      requires LiveHeld()
      modifies this`allcList, this`allcNodes, this`heap, set n | n in allcNodes
      ensures LiveHeld()
      ensures block == null <==> !Releases(old(heap), addr)
      ensures block == null ==> heap == old(heap) && allcNodes == old(allcNodes)
      ensures block != null ==> var i := Find(old(heap.live), addr);
        && block == old(allcNodes)[i] && Used(block) && Absent(block, allcNodes)
        && allcNodes == Without(old(allcNodes), i)
        && heap == old(heap).(live := Without(old(heap.live), i)) && BlockOf(block) == old(heap).live[i]
    {
      if addr == 0 || allcList == null {
        return null;
      }
      block := null;
      var prev: Memblk? := null;
      var current := allcList;
      ghost var i := 0;
      while current != null
        invariant i <= |allcNodes| && current == At(allcNodes, i)
        invariant prev == if i == 0 then null else allcNodes[i - 1]
        invariant forall j :: 0 <= j < i ==> heap.live[j].addr != addr
        decreases |allcNodes| - i
      {
        if current.addr == addr {
          block := current;
          UnlinkLive(prev, block, i);
          return;
        }
        prev := current;
        current := current.next;
        i := i + 1;
      }
    }

    method UnlinkLive(prev: Memblk?, block: Memblk, ghost i: nat)
      requires LiveHeld()
      requires i < |allcNodes| && block == allcNodes[i]
      requires prev == if i == 0 then null else allcNodes[i - 1]
      modifies this`allcList, this`allcNodes, this`heap, if prev == null then {} else {prev}
      ensures LiveHeld() && Absent(block, allcNodes) && allcNodes == Without(old(allcNodes), i)
      ensures heap == old(heap).(live := Without(old(heap.live), i)) && BlockOf(block) == old(heap).live[i]
    {
      hide Without, NoRepeats;
      allcList := Bypass(allcList, prev, block, allcNodes, heap.live, i);
      allcNodes := Without(allcNodes, i);
      heap := heap.(live := Without(heap.live, i));
    }

    /** The same, with the free list in order: it stays so. */
    method TakeLiveInOrder(addr: uint64) returns (block: Memblk?)
      requires Valid()
      modifies this`allcList, this`allcNodes, this`heap, poolNodes
      ensures Valid() && freeList == old(freeList) && freeNodes == old(freeNodes)
      ensures block == null <==> !Releases(old(heap), addr)
      ensures block == null ==> heap == old(heap)
      ensures block != null ==>
        && Detached(block) && block == old(allcNodes[Find(heap.live, addr)])
        && heap == old(heap).(live := Without(old(heap.live), Find(old(heap.live), addr)))
        && BlockOf(block) == old(heap.live[Find(heap.live, addr)])
    {
      hide Without;
      block := TakeLive(addr);
    }

    // ----- The free path as meant -----

    /** `free_memallc` without its early push of the block onto the free list. */
    method FreeMemallcAsMeant(addr: uint64)
      requires Valid()
      modifies this, poolNodes
      ensures Valid() && heap == Release(old(heap), addr)
      ensures addr == 0 || (forall b :: b in old(heap.live) ==> b.addr != addr) ==> heap == old(heap)
    {
      var block := TakeLiveInOrder(addr);
      if block != null {
        DefragmentAsMeant(block);
      }
    }

    /** `defragment_memblk` for a block that is not on the free list, with the predecessor's link left
        alone when the block merges into it. */
    method DefragmentAsMeant(block: Memblk)
      requires Valid() && Detached(block)
      modifies this`freeList, this`freeNodes, this`heap, poolNodes
      ensures Valid()
      ensures heap == old(heap).(free := Insert(old(heap.free), Block(old(block.addr), old(block.size))))
    {
      ghost var b := Block(block.addr, block.size);
      var current := freeList;
      var prevCurrent: Memblk? := null;
      ghost var k := 0;
      while current != null
        invariant k <= |freeNodes| && current == At(freeNodes, k)
        invariant prevCurrent == if k == 0 then null else freeNodes[k - 1]
        invariant forall j :: 0 <= j < k ==> !Adjacent(heap.free[j], b)
        decreases |freeNodes| - k
      {
        if Add64(current.addr, current.size) == block.addr {
          GrowPredecessor(current, block, k);
          return;
        } else if Add64(block.addr, block.size) == current.addr {
          ReplaceSuccessor(prevCurrent, current, block, k);
          return;
        }
        prevCurrent := current;
        current := current.next;
        k := k + 1;
      }
      PushFree(block);
    }

    method GrowPredecessor(current: Memblk, block: Memblk, ghost k: nat)
      requires Valid() && Detached(block)
      requires k < |freeNodes| && current == freeNodes[k]
      modifies this`heap, current
      ensures Valid()
      ensures heap == old(heap).(free := old(heap.free)[k :=
                Block(old(current.addr), Add64(old(current.size), block.size))])
    {
      current.size := Add64(current.size, block.size);
      heap := heap.(free := heap.free[k := Block(current.addr, current.size)]);
    }

    method ReplaceSuccessor(prevCurrent: Memblk?, current: Memblk, block: Memblk, ghost k: nat)
      requires Valid() && Detached(block)
      requires k < |freeNodes| && current == freeNodes[k]
      requires prevCurrent == if k == 0 then null else freeNodes[k - 1]
      modifies this`freeList, this`freeNodes, this`heap, poolNodes
      ensures Valid()
      ensures heap == old(heap).(free := old(heap.free)[k :=
                Block(old(block.addr), Add64(old(block.size), old(current.size)))])
    {
      hide NoRepeats, Chain;
      ChainHolds(freeList, freeNodes, heap.free, k);
      freeList := TakePlace(freeList, prevCurrent, current, block, freeNodes, heap.free, k);
      freeNodes := freeNodes[k := block];
      heap := heap.(free := heap.free[k := Block(block.addr, block.size)]);
    }

    method PushFree(block: Memblk)
      requires Valid() && Detached(block)
      modifies this`freeList, this`freeNodes, this`heap, block
      ensures Valid()
      ensures heap == old(heap).(free := [Block(old(block.addr), old(block.size))] + old(heap.free))
    {
      block.next := freeList;
      freeList := block;
      WithDistinct(freeNodes, 0, block);
      freeNodes := With(freeNodes, 0, block);
      heap := heap.(free := With(heap.free, 0, Block(block.addr, block.size)));
    }

    // ----- The free path as written -----

    /** What the free path as written leaves after freeing block, which held b: the allocated list is in
        order, and the old free list, still named by freeNodes and heap.free, is tangled. */
    ghost predicate AfterWritten(block: Memblk, b: Block)
      reads this, freeNodes, allcNodes, block
    {
      && PoolValid() && heap.used == poolIndex
      && Chain(allcList, allcNodes, heap.live)
      && NoRepeats(freeNodes) && NoRepeats(allcNodes) && Disjoint(freeNodes, allcNodes)
      && Detached(block)
      && Tangled(freeList, freeNodes, heap.free, block, b)
    }

    /** `defragment_memblk`, called with the block already at the head of the free list. Its loop passes path, no
        node of which touches the block, and stops at last, which does, or at NULL. */
    method DefragmentAsWritten(block: Memblk, ghost path: seq<Memblk>, ghost last: Memblk?)
      requires freeList == block && block.size > 0 && Path(block.next, path, last)
      requires forall i :: 0 <= i < |path| ==> !Adjacent(BlockOf(path[i]), BlockOf(block))
      requires last != null ==> Adjacent(BlockOf(last), BlockOf(block))
      modifies this`freeList, block, Before(block, path), if last == null then {} else {last}
      ensures freeList == block && block.addr == old(block.addr)
      ensures last == null ==> block.next == block && block.size == old(block.size)
      ensures last != null && old(Precedes(BlockOf(last), BlockOf(block))) ==>
        && unchanged(block) && last.addr == old(last.addr)
        && last.size == Add64(old(last.size), block.size) && last.next == block.next
      ensures last != null && !old(Precedes(BlockOf(last), BlockOf(block))) ==>
        && unchanged(last) && block.size == Add64(old(block.size), last.size)
        && block.next == if path == [] then block else last.next
      ensures Before(block, path) != block ==>
        var prev := Before(block, path);
        && prev.addr == old(prev.addr) && prev.size == old(prev.size)
        && prev.next == if last != null && !old(Precedes(BlockOf(last), BlockOf(block))) then block else last
    {
      var current := freeList;
      var prevCurrent: Memblk? := null;
      ghost var k := 0;
      while current != null
        invariant k <= |path| + 1
        invariant current == if k == 0 then block else if k <= |path| then path[k - 1] else last
        invariant prevCurrent == if k == 0 then null else if k == 1 then block else path[k - 2]
        decreases |path| + 1 - k
      {
        if Add64(current.addr, current.size) == block.addr {
          current.size := Add64(current.size, block.size);
          current.next := block.next;
          return;
        } else if Add64(block.addr, block.size) == current.addr {
          block.size := Add64(block.size, current.size);
          block.next := current.next;
          if current == freeList {
            // The head is the block itself, which does not touch itself.
            assert false;
          } else if prevCurrent != null {
            prevCurrent.next := block;
          }
          return;
        }
        prevCurrent := current;
        current := current.next;
        k := k + 1;
      }
      block.next := freeList;
      freeList := block;
    }

    /** What it does to a list of any shape, when it returns. */
    method DefragmentKnots(block: Memblk, ghost nodes: seq<Memblk>, ghost s: Shape)
      requires freeList == block && block.size > 0 && Absent(block, nodes)
      requires Lasso(block.next, nodes, s) && FreeInto(s, BlockOf(block)).Some?
      modifies this`freeList, block, set n | n in nodes
      ensures Knotted(freeList, nodes, s, block, Block(old(block.addr), old(block.size)))
    {
      ghost var k := FirstAdjacent(s.blocks, BlockOf(block));
      DefragmentAsWritten(block, nodes[..k], At(nodes, k));
    }

    /** `free_memallc`, with the free list in order. */
    method FreeMemallcAsWritten(addr: uint64)
      requires Valid() && forall i :: 0 <= i < |heap.live| ==> heap.live[i].size > 0
      modifies this, poolNodes
      ensures !Releases(old(heap), addr) ==> Valid() && heap == old(heap)
      ensures Releases(old(heap), addr) ==> var i := Find(old(heap).live, addr);
        && freeNodes == old(freeNodes)
        && heap == old(heap).(live := Without(old(heap.live), i))
        && AfterWritten(old(allcNodes)[i], old(heap).live[i])
    {
      hide NoRepeats, Tangled, Without;
      var block := TakeLiveInOrder(addr);
      if block != null {
        block.next := freeList;
        freeList := block;
        DefragmentInOrder(block);
      }
    }

    /** The state in which `free_memallc` calls `defragment_memblk`: block heads the free list. */
    ghost predicate Pushed(block: Memblk)
      reads this, freeNodes, allcNodes, block
    {
      && PoolValid() && heap.used == poolIndex
      && Chain(allcList, allcNodes, heap.live)
      && NoRepeats(freeNodes) && NoRepeats(allcNodes) && Disjoint(freeNodes, allcNodes)
      && (forall i :: 0 <= i < |freeNodes| ==> Used(freeNodes[i])) && Detached(block)
      && freeList == block && Chain(block.next, freeNodes, heap.free) && block.size > 0
    }

    /** What `defragment_memblk` does then, if the rest of the free list is in order. */
    method DefragmentInOrder(block: Memblk)
      requires Pushed(block)
      modifies this`freeList, poolNodes
      ensures AfterWritten(block, Block(old(block.addr), old(block.size)))
    {
      ChainIsLasso(block.next, freeNodes, heap.free);
      DefragmentKnots(block, freeNodes, Shape(heap.free, |heap.free|));
    }

    // ----- One free as written after another -----

    /** The free list has the shape, and the allocated list is in order. */
    ghost predicate Shaped(w: Lists)
      reads this, freeNodes, allcNodes
    {
      && LiveHeld() && w.live == heap.live
      && Lasso(freeList, freeNodes, w.free) && Disjoint(freeNodes, allcNodes)
      && forall i :: 0 <= i < |freeNodes| ==> Used(freeNodes[i])
    }

    /** `free_memallc`, whatever the free list has become, when it returns. */
    method FreeMemallcOnShape(addr: uint64, ghost w: Lists)
      requires Shaped(w) && forall i :: 0 <= i < |w.live| ==> w.live[i].size > 0
      requires FreeWritten(w, addr).Some?
      modifies this, poolNodes
      ensures Shaped(FreeWritten(w, addr).value)
      ensures addr == 0 || (forall b :: b in w.live ==> b.addr != addr) ==> Shaped(w)
    {
      hide Without, Linked, Held, NoRepeats, FreeInto;
      var block := TakeLive(addr);
      if block != null {
        block.next := freeList;
        freeList := block;
        ghost var was := freeNodes;
        DefragmentOnShape(block, w.free);
        StillApart(was, freeNodes, block, allcNodes);
        forall i | 0 <= i < |freeNodes|
          ensures Used(freeNodes[i])
        {
          assert freeNodes[i] in freeNodes;
        }
      }
    }

    /** What `defragment_memblk` leaves of a list of this shape. */
    method DefragmentOnShape(block: Memblk, ghost s: Shape)
      requires freeList == block && block.size > 0 && Absent(block, freeNodes)
      requires Lasso(block.next, freeNodes, s) && FreeInto(s, BlockOf(block)).Some?
      modifies this`freeList, this`freeNodes, block, set n | n in freeNodes
      ensures Lasso(freeList, freeNodes, FreeInto(s, old(BlockOf(block))).value)
      ensures forall n :: n in freeNodes ==> n == block || n in old(freeNodes)
    {
      hide Lasso, Knotted, FreeInto, NodesInto;
      ghost var nodes, b := freeNodes, BlockOf(block);
      LassoNoRepeats(block.next, nodes, s);
      DefragmentKnots(block, nodes, s);
      freeNodes := NodesInto(nodes, block, s, b);
      KnottedIsLasso(freeList, nodes, s, block, b);
    }

    /** Several calls of `free_memallc`, when they return. */
    method FreeAllOnShape(addrs: seq<uint64>, ghost w: Lists)
      requires Shaped(w) && forall i :: 0 <= i < |w.live| ==> w.live[i].size > 0
      requires FreesWritten(w, addrs).Some?
      modifies this, poolNodes
      ensures Shaped(FreesWritten(w, addrs).value)
      decreases addrs
    {
      hide Linked, Held, Disjoint, Without, FreeInto;
      if addrs != [] {
        FreeMemallcOnShape(addrs[0], w);
        FreeAllOnShape(addrs[1..], FreeWritten(w, addrs[0]).value);
      }
    }

    /** `memallc` when the head of the free list is large enough, whatever the links after it. This is `Memallc`,
        `AllcMemblk`, `AllcMemblkImpl` and `AllcMemblkImplSplit` written in one for that case: the search stops
        at once, with no predecessor. */
    method MemallcFromHead(size: uint64) returns (addr: uint64)
      requires PoolValid() && freeList != null && Used(freeList)
      requires 0 < (if size > range then range else size) <= freeList.size
      modifies this`poolIndex, this`freeList, this`allcList, poolNodes
      ensures PoolValid() && addr == old(freeList.addr)
      ensures allcList == old(freeList) && allcList.addr == addr && allcList.next == old(allcList)
      ensures old(freeList.size) == (if size > range then range else size) ==>
        freeList == old(freeList.next) && allcList.size == old(freeList.size) && poolIndex == old(poolIndex)
    {
      var block := freeList;
      var wanted := if size > range then range else size;
      if block.size > wanted {
        var newBlock := NewMemblk(Add64(block.addr, wanted), block.size - wanted);
        if newBlock != null {
          newBlock.next := block.next;
          block.next := newBlock;
          block.size := wanted;
        }
      }
      freeList := block.next;
      block.next := allcList;
      allcList := block;
      addr := block.addr;
    }

    /** The worst of the free path as written. After a free with no adjacent free block, the freed block
        links to itself; a request of its size takes it and leaves it at the head of both lists, and the next
        request, of any size it can serve, is given the same address while the first is live. */
    method GivenTwice(ghost block: Memblk, ghost b: Block, again: uint64) returns (first: uint64, second: uint64)
      requires AfterWritten(block, b) && FirstAdjacent(heap.free, b) == |heap.free|
      requires 0 < again <= b.size <= range
      modifies this`poolIndex, this`freeList, this`allcList, poolNodes
      ensures first == second == b.addr
    {
      first := MemallcFromHead(freeList.size);
      assert freeList == allcList == block;
      second := MemallcFromHead(again);
    }
  }
}

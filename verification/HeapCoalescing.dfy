/** Coalescing, with the free path as meant: when the free list of driver/memallc.c ends up with two blocks
    that touch, and when the whole range can be had again. */
module HeapCoalescing {
  import opened Numerals
  import opened HeapModel
  import opened HeapRuns

  /** A release merges at most once: the free list grows by one block if none touches the released one,
      and keeps its length otherwise. */
  lemma ReleaseMergesOnce(h: Heap, addr: uint64)
    requires Releases(h, addr)
    ensures |Release(h, addr).free| == |h.free| + One(!Merges(h, addr))
    ensures !Merges(h, addr) <==> forall f :: f in h.free ==> !Adjacent(f, h.live[Find(h.live, addr)])
  {
    var b := h.live[Find(h.live, addr)];
    var i := FirstAdjacent(h.free, b);
    if i < |h.free| {
      assert h.free[i] in h.free;
    }
  }

  // ----- What a release leaves -----

  /** No block ends where another starts. */
  predicate Coalesced(bs: seq<Block>) {
    forall i, j :: 0 <= i < |bs| && 0 <= j < |bs| && i != j ==> !Adjacent(bs[i], bs[j])
  }

  /** Two different blocks are adjacent to b. */
  predicate TouchesTwo(bs: seq<Block>, b: Block) {
    exists i, j :: 0 <= i < j < |bs| && Adjacent(bs[i], b) && Adjacent(bs[j], b)
  }

  ghost predicate InBounds(h: Heap, b: Block) {
    b.size > 0 && h.start <= b.addr && b.addr + b.size <= h.start + h.range
  }

  /** Whether one block of a well-formed heap precedes another can be read off their bounds. */
  lemma PrecedesByBounds(h: Heap, a: Block, b: Block)
    requires WellFormed(h) && InBounds(h, a) && InBounds(h, b)
    ensures Precedes(a, b) <==> a.addr + a.size == b.addr
  {
  }

  lemma FreeInBounds(h: Heap, i: nat)
    requires WellFormed(h) && h.range > 0 && i < |h.free|
    ensures InBounds(h, h.free[i])
  {
    InRange(h, h.free, i);
  }

  lemma LiveInBounds(h: Heap, k: nat)
    requires WellFormed(h) && k < |h.live|
    ensures InBounds(h, h.live[k]) && h.range > 0
  {
    InRange(h, h.live, k);
  }

  lemma FreeApart(h: Heap, i: nat, j: nat)
    requires WellFormed(h) && h.range > 0 && i < |h.free| && j < |h.free| && i != j
    ensures Apart(h.free[i], h.free[j])
  {
    BlocksApart(h, if i < j then i else j, if i < j then j else i);
  }

  /** A block that b has been merged into touches another free block if and only if b did. */
  lemma MergedTouches(h: Heap, k: nat, i: nat, j: nat)
    requires WellFormed(h) && k < |h.live| && i < |h.free| && j < |h.free| && i != j
    requires Adjacent(h.free[i], h.live[k]) && !Adjacent(h.free[i], h.free[j])
    ensures Adjacent(Merged(h.free[i], h.live[k]), h.free[j]) <==> Adjacent(h.free[j], h.live[k])
  {
    hide WellFormed;
    var f, g, b := h.free[i], h.free[j], h.live[k];
    LiveInBounds(h, k);
    FreeInBounds(h, i);
    FreeInBounds(h, j);
    NoWrap(h, i, k);
    NoWrap(h, j, k);
    FreeApart(h, i, j);
    PrecedesByBounds(h, f, g);
    PrecedesByBounds(h, g, f);
    PrecedesByBounds(h, Merged(f, b), g);
    PrecedesByBounds(h, g, Merged(f, b));
  }

  lemma AdjacentEitherWay(a: Block, b: Block)
    ensures Adjacent(a, b) <==> Adjacent(b, a)
  {
  }

  lemma PushCoalesces(bs: seq<Block>, b: Block)
    requires Coalesced(bs) && forall j :: 0 <= j < |bs| ==> !Adjacent(bs[j], b)
    ensures Coalesced([b] + bs)
  {
    hide Adjacent;
    forall j | 0 <= j < |bs|
      ensures !Adjacent(b, bs[j])
    {
      AdjacentEitherWay(b, bs[j]);
    }
  }

  lemma ReplaceCoalesces(bs: seq<Block>, i: nat, m: Block)
    requires Coalesced(bs) && i < |bs|
    ensures Coalesced(bs[i := m]) <==> forall j :: 0 <= j < |bs| && j != i ==> !Adjacent(m, bs[j])
  {
    hide Adjacent;
    forall j | 0 <= j < |bs|
      ensures Adjacent(m, bs[j]) <==> Adjacent(bs[j], m)
    {
      AdjacentEitherWay(m, bs[j]);
    }
    if Coalesced(bs[i := m]) {
      forall j | 0 <= j < |bs| && j != i
        ensures !Adjacent(m, bs[j])
      {
        assert bs[i := m][i] == m && bs[i := m][j] == bs[j];
      }
    }
  }

  lemma NoTouch(bs: seq<Block>, i: nat, j: nat)
    requires Coalesced(bs) && i < |bs| && j < |bs| && i != j
    ensures !Adjacent(bs[i], bs[j])
  {
  }

  /** A merge does not part two free blocks that touched. */
  lemma MergedStillTouches(h: Heap, k: nat, i: nat, j: nat)
    requires WellFormed(h) && k < |h.live| && i < |h.free| && j < |h.free| && i != j
    requires Adjacent(h.free[i], h.live[k]) && Adjacent(h.free[i], h.free[j])
    ensures Adjacent(Merged(h.free[i], h.live[k]), h.free[j])
  {
    var f, g, b := h.free[i], h.free[j], h.live[k];
    LiveInBounds(h, k);
    FreeInBounds(h, i);
    FreeInBounds(h, j);
    NoWrap(h, i, k);
    BlocksApart(h, j, |h.free| + k);
    FreeApart(h, i, j);
    PrecedesByBounds(h, f, g);
    PrecedesByBounds(h, g, f);
    PrecedesByBounds(h, Merged(f, b), g);
    PrecedesByBounds(h, g, Merged(f, b));
  }

  lemma ReleaseCoalesces(h: Heap, addr: uint64)
    requires WellFormed(h) && Releases(h, addr) && Coalesced(h.free)
    ensures Coalesced(Release(h, addr).free) <==> !TouchesTwo(h.free, h.live[Find(h.live, addr)])
  {
    hide Merged, Adjacent, Coalesced;
    var k := Find(h.live, addr);
    var b := h.live[k];
    var i := FirstAdjacent(h.free, b);
    if i == |h.free| {
      PushCoalesces(h.free, b);
    } else {
      var m := Merged(h.free[i], b);
      ReplaceCoalesces(h.free, i, m);
      forall j | 0 <= j < |h.free| && j != i
        ensures Adjacent(m, h.free[j]) <==> Adjacent(h.free[j], b)
      {
        NoTouch(h.free, i, j);
        MergedTouches(h, k, i, j);
      }
    }
  }

  /** Two blocks that touch in one list still do in another that has them. */
  lemma TouchingStays(bs: seq<Block>, cs: seq<Block>, i: nat, j: nat, i': nat, j': nat)
    requires i < |bs| && j < |bs| && Adjacent(bs[i], bs[j])
    requires i' < |cs| && j' < |cs| && i' != j' && cs[i'] == bs[i] && cs[j'] == bs[j]
    ensures !Coalesced(cs)
  {
  }

  lemma ReleaseKeepsTouching(h: Heap, addr: uint64)
    requires WellFormed(h) && Releases(h, addr) && !Coalesced(h.free)
    ensures !Coalesced(Release(h, addr).free)
  {
    hide Merged;
    var k := Find(h.live, addr);
    var b := h.live[k];
    var i := FirstAdjacent(h.free, b);
    var free := Release(h, addr).free;
    var p, q :| 0 <= p < |h.free| && 0 <= q < |h.free| && p != q && Adjacent(h.free[p], h.free[q]);
    if i == |h.free| {
      TouchingStays(h.free, free, p, q, p + 1, q + 1);
    } else if p != i && q != i {
      TouchingStays(h.free, free, p, q, p, q);
    } else {
      var other := if p == i then q else p;
      AdjacentEitherWay(h.free[p], h.free[q]);
      MergedStillTouches(h, k, i, other);
      TouchingStays(free, free, i, other, i, other);
    }
  }

  /** A release leaves no two free blocks touching if and only if none did before and the released block had at
      most one free neighbour. */
  lemma ReleaseCoalescesIff(h: Heap, addr: uint64)
    requires WellFormed(h) && Releases(h, addr)
    ensures Coalesced(Release(h, addr).free)
       <==> Coalesced(h.free) && !TouchesTwo(h.free, h.live[Find(h.live, addr)])
  {
    hide Coalesced, TouchesTwo, Release, WellFormed;
    if Coalesced(h.free) {
      ReleaseCoalesces(h, addr);
    } else {
      ReleaseKeepsTouching(h, addr);
    }
  }

  // ----- Allocation and runs -----

  lemma RemoveCoalesces(bs: seq<Block>, i: nat)
    requires Coalesced(bs) && i < |bs|
    ensures Coalesced(bs[..i] + bs[i + 1..])
  {
    hide Adjacent;
    var r := bs[..i] + bs[i + 1..];
    assert forall j :: 0 <= j < |r| ==> r[j] == bs[if j < i then j else j + 1];
  }

  lemma PositiveRange(h: Heap, i: nat)
    requires WellFormed(h) && i < |h.free| && h.free[i].size > 0
    ensures h.range > 0
  {
    InRange(h, h.free, i);
  }

  /** The tail of a block touches no other block that the block itself did not. */
  lemma TailOf(h: Heap, f: Block, tail: Block, g: Block)
    requires WellFormed(h) && InBounds(h, f) && InBounds(h, tail) && InBounds(h, g)
    requires f.addr < tail.addr && tail.addr + tail.size == f.addr + f.size
    requires Apart(f, g) && !Adjacent(f, g)
    ensures !Adjacent(tail, g)
  {
    hide WellFormed, Precedes;
    PrecedesByBounds(h, f, g);
    PrecedesByBounds(h, tail, g);
    PrecedesByBounds(h, g, tail);
  }

  lemma TailTouches(h: Heap, size: uint64, j: nat)
    requires WellFormed(h) && Coalesced(h.free) && Splits(h, size)
    requires j < |h.free| && j != FirstFit(h.free, size)
    ensures !Adjacent(Alloc(h, size).free[FirstFit(h.free, size)], h.free[j])
  {
    hide Coalesced, Precedes;
    var i := FirstFit(h.free, size);
    AllocFrame(h, size);
    NoTouch(h.free, i, j);
    PositiveRange(h, i);
    FreeInBounds(h, i);
    FreeInBounds(h, j);
    FreeApart(h, i, j);
    TailOf(h, h.free[i], Alloc(h, size).free[i], h.free[j]);
  }

  /** An allocation makes no two free blocks touch. */
  lemma AllocCoalesces(h: Heap, size: uint64)
    requires WellFormed(h) && Coalesced(h.free)
    ensures Coalesced(Alloc(h, size).free)
  {
    var i := FirstFit(h.free, size);
    if Allocated(h, size) != None {
      if Splits(h, size) {
        var rest := Alloc(h, size).free[i];
        ReplaceCoalesces(h.free, i, rest);
        forall j | 0 <= j < |h.free| && j != i
          ensures !Adjacent(rest, h.free[j])
        {
          TailTouches(h, size, j);
        }
      } else {
        RemoveCoalesces(h.free, i);
      }
    }
  }

  /** No release in the run is of a block with two free neighbours. */
  predicate NeverBetween(h: Heap, ops: seq<Op>)
    decreases ops
  {
    ops != [] ==>
      && (ops[0].Free? && Releases(h, ops[0].addr) ==>
            !TouchesTwo(h.free, h.live[Find(h.live, ops[0].addr)]))
      && NeverBetween(Step(h, ops[0]), ops[1..])
  }

  /** Then no two free blocks touch after the run. */
  lemma {:induction false} RunCoalesces(h: Heap, ops: seq<Op>)
    requires WellFormed(h) && Coalesced(h.free) && NeverBetween(h, ops)
    ensures Coalesced(Run(h, ops).free)
    decreases ops
  {
    hide Coalesced, TouchesTwo;
    if ops == [] {
    } else {
      match ops[0] {
        case Request(size) =>
          AllocKeeps(h, Clamped(h, size));
          AllocCoalesces(h, Clamped(h, size));
        case Free(addr) =>
          ReleaseKeeps(h, addr);
          if Releases(h, addr) {
            ReleaseCoalescesIff(h, addr);
          }
      }
      RunCoalesces(Step(h, ops[0]), ops[1..]);
    }
  }

  // ----- The whole range again -----

  /** Of two blocks, one ends before the range does; if both are free and nothing is live, the byte after it
      is free too, and so another block starts there. */
  lemma SomethingFollows(h: Heap, i: nat)
    requires WellFormed(h) && h.range > 0 && h.live == [] && i < |h.free|
    requires h.free[i].addr + h.free[i].size < h.start + h.range
    ensures !Coalesced(h.free)
  {
    var f := h.free[i];
    var x := f.addr + f.size;
    FreeInBounds(h, i);
    assert Count(h.live, x) == 0;
    CountOwner(h.free, x);
    var g :| g in h.free && Has(g, x);
    var j :| 0 <= j < |h.free| && h.free[j] == g;
    FreeInBounds(h, j);
    FreeApart(h, i, j);
    PrecedesByBounds(h, f, g);
  }

  lemma TotalZero(bs: seq<Block>)
    requires forall i :: 0 <= i < |bs| ==> bs[i].size > 0
    ensures Total(bs) == 0 <==> bs == []
  {
  }

  lemma WholeIsOneBlock(h: Heap)
    requires WellFormed(h) && h.range > 0 && h.live == []
    ensures Allocated(h, h.range) != None <==> |h.free| == 1
  {
    var i := FirstFit(h.free, h.range);
    if i < |h.free| {
      CountAt(h.free, i, 0);
      TotalZero(h.free[..i]);
      TotalZero(h.free[i + 1..]);
    }
    if |h.free| == 1 {
      assert h.free == [h.free[0]] + [];
      CountPush(h.free[0], [], 0);
    }
  }

  /** With everything freed, the whole range can be had again if and only if no two free blocks touch. */
  lemma WholeAgainIff(h: Heap)
    requires WellFormed(h) && h.range > 0 && h.live == []
    ensures Allocated(h, h.range) != None <==> Coalesced(h.free)
  {
    WholeIsOneBlock(h);
    if |h.free| == 1 {
    } else {
      assert h.free != [] by {
        assert Count(h.free, h.start) + Count(h.live, h.start) == 1;
      }
      FreeInBounds(h, 0);
      FreeInBounds(h, 1);
      FreeApart(h, 0, 1);
      SomethingFollows(h, if h.free[0].addr + h.free[0].size < h.start + h.range then 0 else 1);
    }
  }

  /** So after a run that frees everything and never between two free blocks, it can. */
  lemma WholeAgainAfterRun(start: uint64, range: uint64, ops: seq<Op>)
    requires start + range <= TWO_TO_64 && range > 0
    requires NeverBetween(Init(start, range), ops) && Run(Init(start, range), ops).live == []
    ensures Allocated(Run(Init(start, range), ops), range) != None
  {
    InitWellFormed(start, range);
    RunKeeps(Init(start, range), ops);
    RunCoalesces(Init(start, range), ops);
    WholeAgainIff(Run(Init(start, range), ops));
  }

  // ----- A run that leaves two blocks touching -----

  lemma {:induction false} RunConcat(h: Heap, a: seq<Op>, b: seq<Op>)
    ensures Run(h, a + b) == Run(Run(h, a), b)
    decreases a
  {
    if a == [] {
      assert a + b == b;
    } else {
      assert (a + b)[1..] == a[1..] + b;
      RunConcat(Step(h, a[0]), a[1..], b);
    }
  }

  lemma RunThree(h: Heap, a: Op, b: Op, c: Op)
    ensures Run(h, [a, b, c]) == Step(Step(Step(h, a), b), c)
  {
    RunConcat(h, [a], [b, c]);
    RunConcat(Step(h, a), [b], [c]);
  }

  lemma PartialAllocated() returns (h: Heap)
    ensures h == Heap([], [Block(3, 1), Block(2, 1), Block(1, 1)], 3, 1, 3)
    ensures Run(Init(1, 3), [Request(1), Request(1), Request(1)]) == h
  {
    var h1 := Step(Init(1, 3), Request(1));
    assert h1 == Heap([Block(2, 2)], [Block(1, 1)], 2, 1, 3);
    var h2 := Step(h1, Request(1));
    assert h2 == Heap([Block(3, 1)], [Block(2, 1), Block(1, 1)], 3, 1, 3);
    h := Step(h2, Request(1));
    assert h == Heap([], [Block(3, 1), Block(2, 1), Block(1, 1)], 3, 1, 3);
    RunThree(Init(1, 3), Request(1), Request(1), Request(1));
  }

  lemma PartialFreed() returns (h: Heap)
    ensures h == Heap([Block(2, 2), Block(1, 1)], [], 3, 1, 3) && Allocated(h, 3) == None
    ensures Run(Heap([], [Block(3, 1), Block(2, 1), Block(1, 1)], 3, 1, 3), [Free(1), Free(3), Free(2)]) == h
  {
    var h3 := Heap([], [Block(3, 1), Block(2, 1), Block(1, 1)], 3, 1, 3);
    var h4 := Step(h3, Free(1));
    assert h4 == Heap([Block(1, 1)], [Block(3, 1), Block(2, 1)], 3, 1, 3);
    var h5 := Step(h4, Free(3));
    assert h5 == Heap([Block(3, 1), Block(1, 1)], [Block(2, 1)], 3, 1, 3);
    h := Step(h5, Free(2));
    assert h == Heap([Block(2, 2), Block(1, 1)], [], 3, 1, 3);
    RunThree(h3, Free(1), Free(3), Free(2));
  }

  /** Three blocks freed first, last, middle: the last release is of a block with two free neighbours, and two
      touching free blocks remain. */
  lemma CoalescingIsPartial()
    ensures var ops := [Request(1), Request(1), Request(1), Free(1), Free(3), Free(2)];
      var h := Run(Init(1, 3), ops);
      && h.live == [] && h.free == [Block(2, 2), Block(1, 1)]
      && Allocated(h, 3) == None
  {
    hide Run, Step, Init, FirstFit;
    var h3 := PartialAllocated();
    var h6 := PartialFreed();
    var requests, frees := [Request(1), Request(1), Request(1)], [Free(1), Free(3), Free(2)];
    assert requests + frees == [Request(1), Request(1), Request(1), Free(1), Free(3), Free(2)];
    RunConcat(Init(1, 3), requests, frees);
  }
}

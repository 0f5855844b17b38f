/** Whole runs of the allocator: `init_memallc`, then any sequence of `memallc` and `free_memallc` (the
    free path as meant). */
module HeapRuns {
  import opened Numerals
  import opened HeapModel

  datatype Op = Request(size: uint64) | Free(addr: uint64)

  function Step(h: Heap, op: Op): Heap {
    match op
    case Request(size) => Alloc(h, Clamped(h, size))
    case Free(addr) => Release(h, addr)
  }

  function Run(h: Heap, ops: seq<Op>): Heap
    decreases ops
  {
    if ops == [] then h else Run(Step(h, ops[0]), ops[1..])
  }

  lemma InitWellFormed(start: uint64, range: uint64)
    requires start + range <= TWO_TO_64
    ensures WellFormed(Init(start, range))
  {
    var h := Init(start, range);
    forall x: int
      ensures Count(h.free, x) + Count(h.live, x) == One(start <= x < start + range)
    {
      CountPush(Block(start, range), [], x);
    }
    assert Total(h.free) == range by { CountPush(Block(start, range), [], 0); }
  }

  lemma {:induction false} RunKeeps(h: Heap, ops: seq<Op>)
    requires WellFormed(h)
    ensures WellFormed(Run(h, ops))
    ensures Run(h, ops).start == h.start && Run(h, ops).range == h.range
    decreases ops
  {
    if ops == [] {
    } else {
      match ops[0] {
        case Request(size) => AllocKeeps(h, Clamped(h, size));
        case Free(addr) => ReleaseKeeps(h, addr);
      }
      RunKeeps(Step(h, ops[0]), ops[1..]);
    }
  }

  // ----- What tiling means for the blocks themselves -----

  ghost predicate Apart(a: Block, b: Block) {
    a.addr + a.size <= b.addr || b.addr + b.size <= a.addr
  }

  lemma CountTwo(bs: seq<Block>, i: nat, j: nat, x: int)
    requires i < j < |bs| && Has(bs[i], x) && Has(bs[j], x)
    ensures Count(bs, x) >= 2
  {
    CountAt(bs, j, x);
    CountAt(bs[..j], i, x);
  }

  ghost predicate Owned(bs: seq<Block>, x: int) {
    exists b :: b in bs && Has(b, x)
  }

  lemma {:induction false} CountOwner(bs: seq<Block>, x: int)
    requires Count(bs, x) > 0
    ensures Owned(bs, x)
  {
    if Has(bs[0], x) {
    } else {
      CountOwner(bs[1..], x);
    }
  }

  /** Two blocks of a well-formed heap, whichever lists they are on, share no byte. */
  lemma BlocksApart(h: Heap, i: nat, j: nat)
    requires WellFormed(h) && i < j < |h.free + h.live|
    ensures var bs := h.free + h.live; bs[i].size > 0 && bs[j].size > 0 ==> Apart(bs[i], bs[j])
  {
    var bs := h.free + h.live;
    if bs[i].size > 0 && bs[j].size > 0 && !Apart(bs[i], bs[j]) {
      var x := if bs[i].addr < bs[j].addr then bs[j].addr else bs[i].addr;
      CountTwo(bs, i, j, x);
      CountConcat(h.free, h.live, x);
    }
  }

  /** Over every run, the free and the live blocks lie in the range, are pairwise disjoint, hold every
      byte of the range between them, and have sizes that add up to the range. */
  lemma RunTiles(start: uint64, range: uint64, ops: seq<Op>)
    requires start + range <= TWO_TO_64
    ensures var h := Run(Init(start, range), ops); var bs := h.free + h.live;
      && WellFormed(h)
      && Total(bs) == range
      && (forall b :: b in bs && b.size > 0 ==> start <= b.addr && b.addr + b.size <= start + range)
      && (forall i, j :: 0 <= i < j < |bs| && bs[i].size > 0 && bs[j].size > 0 ==> Apart(bs[i], bs[j]))
      && (forall x :: start <= x < start + range ==> Owned(bs, x))
  {
    var h := Run(Init(start, range), ops);
    var bs := h.free + h.live;
    InitWellFormed(start, range);
    RunKeeps(Init(start, range), ops);
    CountConcat(h.free, h.live, 0);
    forall b | b in bs && b.size > 0
      ensures start <= b.addr && b.addr + b.size <= start + range
    {
      if b in h.free {
        var i :| 0 <= i < |h.free| && h.free[i] == b;
        InRange(h, h.free, i);
      } else {
        var i :| 0 <= i < |h.live| && h.live[i] == b;
        InRange(h, h.live, i);
      }
    }
    forall i, j | 0 <= i < j < |bs| && bs[i].size > 0 && bs[j].size > 0
      ensures Apart(bs[i], bs[j])
    {
      BlocksApart(h, i, j);
    }
    forall x | start <= x < start + range
      ensures Owned(bs, x)
    {
      CountConcat(h.free, h.live, x);
      CountOwner(bs, x);
    }
  }

  // ----- An allocation is left alone until it is freed -----

  lemma {:induction false} LiveStays(h: Heap, ops: seq<Op>, b: Block)
    requires b in h.live && Free(b.addr) !in ops
    ensures b in Run(h, ops).live
    decreases ops
  {
    if ops == [] {
    } else {
      assert ops[0] in ops && forall op :: op in ops[1..] ==> op in ops;
      var h' := Step(h, ops[0]);
      assert b in h'.live by {
        if ops[0].Free? && Releases(h, ops[0].addr) {
          var i := Find(h.live, ops[0].addr);
          var k :| 0 <= k < |h.live| && h.live[k] == b;
          assert k != i && h'.live[if k < i then k else k - 1] == b;
        }
      }
      LiveStays(h', ops[1..], b);
    }
  }

  /** Whatever happens between, no later request is given a byte of a block that has not been freed. */
  lemma NoReuseWhileLive(h: Heap, size: uint64, ops: seq<Op>, later: uint64)
    requires WellFormed(h) && Allocated(h, Clamped(h, size)) != None
    requires var b := Allocated(h, Clamped(h, size)).value; Free(b.addr) !in ops
    ensures var b := Allocated(h, Clamped(h, size)).value;
      var h' := Run(Step(h, Request(size)), ops);
      && b in h'.live
      && (Allocated(h', Clamped(h', later)) != None ==>
            Apart(b, Allocated(h', Clamped(h', later)).value))
  {
    var b := Allocated(h, Clamped(h, size)).value;
    var h1 := Step(h, Request(size));
    var h' := Run(h1, ops);
    AllocKeeps(h, Clamped(h, size));
    LiveStays(h1, ops, b);
    RunKeeps(h1, ops);
    if Allocated(h', Clamped(h', later)) != None {
      var i := FirstFit(h'.free, Clamped(h', later));
      var k :| 0 <= k < |h'.live| && h'.live[k] == b;
      BlocksApart(h', i, |h'.free| + k);
      AllocExact(h', Clamped(h', later));
    }
  }

  // ----- Descriptors -----

  function SplitCount(h: Heap, ops: seq<Op>): nat
    decreases ops
  {
    if ops == [] then 0
    else One(ops[0].Request? && Splits(h, Clamped(h, ops[0].size))) + SplitCount(Step(h, ops[0]), ops[1..])
  }

  predicate Merges(h: Heap, addr: uint64) {
    Releases(h, addr) && FirstAdjacent(h.free, h.live[Find(h.live, addr)]) < |h.free|
  }

  function MergeCount(h: Heap, ops: seq<Op>): nat
    decreases ops
  {
    if ops == [] then 0
    else One(ops[0].Free? && Merges(h, ops[0].addr)) + MergeCount(Step(h, ops[0]), ops[1..])
  }

  lemma {:induction false} RunCounts(h: Heap, ops: seq<Op>)
    ensures Run(h, ops).used == h.used + SplitCount(h, ops)
    ensures |Run(h, ops).free| + |Run(h, ops).live| + MergeCount(h, ops)
         == |h.free| + |h.live| + SplitCount(h, ops)
    decreases ops
  {
    if ops == [] {
    } else {
      RunCounts(Step(h, ops[0]), ops[1..]);
    }
  }

  /** The pool index is one plus the number of splits, and every merge loses a descriptor for good: those
      on the two lists and those lost make up all that were handed out. */
  lemma DescriptorsConserved(start: uint64, range: uint64, ops: seq<Op>)
    ensures var h0 := Init(start, range); var h := Run(h0, ops);
      && h.used == 1 + SplitCount(h0, ops)
      && h.used == |h.free| + |h.live| + MergeCount(h0, ops)
      && h.used <= MAX_MEMBLK_COUNT
  {
    RunCounts(Init(start, range), ops);
    UsedBounded(Init(start, range), ops);
  }

  lemma {:induction false} UsedBounded(h: Heap, ops: seq<Op>)
    requires h.used <= MAX_MEMBLK_COUNT
    ensures Run(h, ops).used <= MAX_MEMBLK_COUNT
    decreases ops
  {
    if ops == [] {
    } else {
      UsedBounded(Step(h, ops[0]), ops[1..]);
    }
  }

  /** n rounds of taking size bytes and giving them back. */
  function Rounds(start: uint64, size: uint64, n: nat): seq<Op> {
    if n == 0 then [] else [Request(size), Free(start)] + Rounds(start, size, n - 1)
  }

  function Whole(start: uint64, range: uint64, used: nat): Heap {
    Heap([Block(start, range)], [], used, start, range)
  }

  lemma OneRound(start: uint64, range: uint64, size: uint64, used: nat)
    requires start > 0 && 0 < size < range && start + range <= TWO_TO_64
    ensures var h := Whole(start, range, used);
      && Allocated(h, size) == Some(Block(start, if used < MAX_MEMBLK_COUNT then size else range))
      && Step(Step(h, Request(size)), Free(start))
         == Whole(start, range, if used < MAX_MEMBLK_COUNT then used + 1 else used)
  {
    var h := Whole(start, range, used);
    assert FirstFit(h.free, size) == 0;
    var h1 := Step(h, Request(size));
    var b := Allocated(h, size).value;
    assert h1.live == [b] && Find(h1.live, start) == 0;
    if used < MAX_MEMBLK_COUNT {
      assert h1.free == [Block(start + size, range - size)];
      assert Precedes(b, h1.free[0]);
      assert FirstAdjacent(h1.free, b) == 0;
    } else {
      assert h1.free == [];
    }
  }

  /** Allocating and freeing wears the pool out: after n rounds 1 + n descriptors are gone, and after 1023 a
      request of any size takes the whole heap, though nothing is in use. */
  lemma RoundsExhaustThePool(start: uint64, range: uint64, size: uint64, n: nat, other: uint64)
    requires start > 0 && 0 < size < range && start + range <= TWO_TO_64 && 0 < other <= range
    ensures var h := Run(Init(start, range), Rounds(start, size, n));
      && h == Whole(start, range, if n < MAX_MEMBLK_COUNT then 1 + n else MAX_MEMBLK_COUNT)
      && Allocated(h, other) == Some(Block(start, if n < MAX_MEMBLK_COUNT - 1 then other else range))
  {
    RoundsFrom(start, range, size, 1, n);
  }

  lemma {:induction false} RoundsFrom(start: uint64, range: uint64, size: uint64, used: nat, n: nat)
    requires start > 0 && 0 < size < range && start + range <= TWO_TO_64 && used <= MAX_MEMBLK_COUNT
    ensures Run(Whole(start, range, used), Rounds(start, size, n))
         == Whole(start, range, if used + n < MAX_MEMBLK_COUNT then used + n else MAX_MEMBLK_COUNT)
    decreases n
  {
    if n == 0 {
    } else {
      OneRound(start, range, size, used);
      var h, ops := Whole(start, range, used), Rounds(start, size, n);
      assert ops[0] == Request(size) && ops[1] == Free(start);
      assert ops[1..][1..] == Rounds(start, size, n - 1);
      assert Run(h, ops) == Run(Step(Step(h, ops[0]), ops[1]), ops[1..][1..]);
      RoundsFrom(start, range, size, if used < MAX_MEMBLK_COUNT then used + 1 else used, n - 1);
    }
  }
}

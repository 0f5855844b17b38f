/** driver/memallc.c as values: the two lists of blocks, what an allocation and a release do to them, and
    what every run keeps. The pointer code is in HeapLists.dfy and refines these functions. */
module HeapModel {
  import opened Numerals

  const MAX_MEMBLK_COUNT: nat := 1024
  /** 64-bit addition, as C does it on sizes and addresses. */
  function Add64(a: uint64, b: uint64): uint64 {
    (a + b) % TWO_TO_64
  }

  datatype Block = Block(addr: uint64, size: uint64)

  /** Both lists, head first, the number of descriptors handed out so far, and the managed range. */
  datatype Heap = Heap(free: seq<Block>, live: seq<Block>, used: nat, start: uint64, range: uint64)

  // ----- Operations -----

  function Init(start: uint64, range: uint64): Heap {
    Heap([Block(start, range)], [], 1, start, range)
  }

  /** The position of the first block in list order that is large enough, or |bs|. */
  function FirstFit(bs: seq<Block>, size: nat): (i: nat)
    ensures i <= |bs|
    ensures forall j :: 0 <= j < i ==> bs[j].size < size
    ensures i < |bs| ==> bs[i].size >= size
  {
    if bs == [] || bs[0].size >= size then 0 else 1 + FirstFit(bs[1..], size)
  }

  predicate Splits(h: Heap, size: uint64) {
    var i := FirstFit(h.free, size);
    size > 0 && i < |h.free| && h.free[i].size > size && h.used < MAX_MEMBLK_COUNT
  }

  /** The block an allocation hands out, if any. */
  function Allocated(h: Heap, size: uint64): Option<Block> {
    var i := FirstFit(h.free, size);
    if size == 0 || i == |h.free| then None
    else if Splits(h, size) then Some(Block(h.free[i].addr, size))
    else Some(h.free[i])
  }

  function Alloc(h: Heap, size: uint64): Heap {
    var i := FirstFit(h.free, size);
    match Allocated(h, size)
    case None => h
    case Some(b) =>
      if Splits(h, size) then
        var rest := Block(Add64(b.addr, size), h.free[i].size - size);
        h.(free := h.free[i := rest], live := [b] + h.live, used := h.used + 1)
      else
        h.(free := h.free[..i] + h.free[i + 1..], live := [b] + h.live)
  }

  /** A request larger than the range asks for the whole range instead. */
  function Clamped(h: Heap, size: uint64): uint64 {
    if size > h.range then h.range else size
  }

  /** The position of the first block at addr, or |bs|. */
  function Find(bs: seq<Block>, addr: nat): (i: nat)
    ensures i <= |bs|
    ensures forall j :: 0 <= j < i ==> bs[j].addr != addr
    ensures i < |bs| ==> bs[i].addr == addr
  {
    if bs == [] || bs[0].addr == addr then 0 else 1 + Find(bs[1..], addr)
  }

  predicate Precedes(a: Block, b: Block) {
    Add64(a.addr, a.size) == b.addr
  }

  predicate Adjacent(a: Block, b: Block) {
    Precedes(a, b) || Precedes(b, a)
  }

  /** The position of the first free block that touches b, or |bs|. */
  function FirstAdjacent(bs: seq<Block>, b: Block): (i: nat)
    ensures i <= |bs|
    ensures forall j :: 0 <= j < i ==> !Adjacent(bs[j], b)
    ensures i < |bs| ==> Adjacent(bs[i], b)
  {
    if bs == [] || Adjacent(bs[0], b) then 0 else 1 + FirstAdjacent(bs[1..], b)
  }

  /** Two touching blocks as one. */
  function Merged(a: Block, b: Block): Block {
    if Precedes(a, b) then Block(a.addr, Add64(a.size, b.size)) else Block(b.addr, Add64(b.size, a.size))
  }

  /** The free list with b returned to it: b joins the first block it touches, or becomes the head. */
  function Insert(bs: seq<Block>, b: Block): seq<Block> {
    var i := FirstAdjacent(bs, b);
    if i == |bs| then [b] + bs else bs[i := Merged(bs[i], b)]
  }

  predicate Releases(h: Heap, addr: uint64) {
    addr != 0 && Find(h.live, addr) < |h.live|
  }

  /** The free path as meant. */
  function Release(h: Heap, addr: uint64): Heap {
    if !Releases(h, addr) then h
    else
      var i := Find(h.live, addr);
      h.(free := Insert(h.free, h.live[i]), live := h.live[..i] + h.live[i + 1..])
  }

  // ----- Which block holds which byte -----

  predicate Has(b: Block, x: int) {
    b.addr <= x < b.addr + b.size
  }

  /** How many blocks hold byte x. */
  function Count(bs: seq<Block>, x: int): nat {
    if bs == [] then 0 else (if Has(bs[0], x) then 1 else 0) + Count(bs[1..], x)
  }

  function Total(bs: seq<Block>): nat {
    if bs == [] then 0 else bs[0].size + Total(bs[1..])
  }

  /** Every byte of the range is in exactly one block, free or live, and no other byte is in any. */
  ghost predicate Tiled(h: Heap) {
    forall x: int {:trigger Count(h.free, x)} {:trigger Count(h.live, x)} ::
      Count(h.free, x) + Count(h.live, x) == if h.start <= x < h.start + h.range then 1 else 0
  }

  ghost predicate WellFormed(h: Heap) {
    && h.start + h.range <= TWO_TO_64
    && Tiled(h)
    && Total(h.free) + Total(h.live) == h.range
    && (forall i :: 0 <= i < |h.live| ==> h.live[i].size > 0)
    && (forall i :: 0 <= i < |h.free| ==> h.free[i].size > 0 || h.range == 0)
    && h.used <= MAX_MEMBLK_COUNT
  }

  lemma {:induction false} CountConcat(a: seq<Block>, b: seq<Block>, x: int)
    ensures Count(a + b, x) == Count(a, x) + Count(b, x)
    ensures Total(a + b) == Total(a) + Total(b)
  {
    if a == [] {
      assert a + b == b;
    } else {
      assert (a + b)[1..] == a[1..] + b;
      CountConcat(a[1..], b, x);
    }
  }

  function One(c: bool): nat { if c then 1 else 0 }

  lemma CountAt(bs: seq<Block>, i: nat, x: int)
    requires i < |bs|
    ensures Count(bs, x) == Count(bs[..i], x) + One(Has(bs[i], x)) + Count(bs[i + 1..], x)
    ensures Total(bs) == Total(bs[..i]) + bs[i].size + Total(bs[i + 1..])
  {
    assert bs == bs[..i] + ([bs[i]] + bs[i + 1..]);
    CountConcat(bs[..i], [bs[i]] + bs[i + 1..], x);
    CountConcat([bs[i]], bs[i + 1..], x);
  }

  lemma CountRemove(bs: seq<Block>, i: nat, x: int)
    requires i < |bs|
    ensures Count(bs[..i] + bs[i + 1..], x) == Count(bs, x) - One(Has(bs[i], x))
    ensures Total(bs[..i] + bs[i + 1..]) == Total(bs) - bs[i].size
  {
    CountAt(bs, i, x);
    CountConcat(bs[..i], bs[i + 1..], x);
  }

  lemma CountReplace(bs: seq<Block>, i: nat, b: Block, x: int)
    requires i < |bs|
    ensures Count(bs[i := b], x) == Count(bs, x) - One(Has(bs[i], x)) + One(Has(b, x))
    ensures Total(bs[i := b]) == Total(bs) - bs[i].size + b.size
  {
    CountAt(bs, i, x);
    CountAt(bs[i := b], i, x);
    assert bs[i := b][..i] == bs[..i] && bs[i := b][i + 1..] == bs[i + 1..];
  }

  lemma CountPush(b: Block, bs: seq<Block>, x: int)
    ensures Count([b] + bs, x) == One(Has(b, x)) + Count(bs, x)
    ensures Total([b] + bs) == b.size + Total(bs)
  {
    CountConcat([b], bs, x);
  }

  /** A block of a well-formed heap lies in its range. */
  lemma InRange(h: Heap, bs: seq<Block>, i: nat)
    requires WellFormed(h) && (bs == h.free || bs == h.live) && i < |bs| && bs[i].size > 0
    ensures h.start <= bs[i].addr && bs[i].addr + bs[i].size <= h.start + h.range
  {
    CountAt(bs, i, bs[i].addr);
    CountAt(bs, i, bs[i].addr + bs[i].size - 1);
  }

  // ----- Allocation -----

  /** First fit is exact: a request fails if and only if it is for nothing or no free block is large
      enough; otherwise it starts where the first large enough block starts, and has the requested size
      unless the descriptors have run out, when it is that whole block. */
  lemma AllocExact(h: Heap, size: uint64)
    ensures Allocated(h, size) == None <==> size == 0 || forall f :: f in h.free ==> f.size < size
    ensures Allocated(h, size) != None ==>
      exists i :: 0 <= i < |h.free|
        && h.free[i].size >= size && (forall j :: 0 <= j < i ==> h.free[j].size < size)
        && Allocated(h, size).value.addr == h.free[i].addr
        && Allocated(h, size).value.size ==
             if h.used < MAX_MEMBLK_COUNT then size else h.free[i].size
  {
    var i := FirstFit(h.free, size);
    if i < |h.free| {
      assert h.free[i] in h.free;
    }
  }

  lemma {:induction false} TotalBounds(bs: seq<Block>, i: nat)
    requires i < |bs|
    ensures bs[i].size <= Total(bs)
  {
    CountAt(bs, i, 0);
  }

  /** A request beyond the range is served only by one free block that is the whole range. */
  lemma OversizedRequest(h: Heap, size: uint64)
    requires WellFormed(h) && size > h.range > 0
    ensures Allocated(h, Clamped(h, size)) != None <==> Block(h.start, h.range) in h.free
    ensures Allocated(h, Clamped(h, size)) != None ==>
      Allocated(h, Clamped(h, size)) == Some(Block(h.start, h.range)) && h.live == []
  {
    var i := FirstFit(h.free, h.range);
    if i < |h.free| {
      TotalBounds(h.free, i);
      InRange(h, h.free, i);
      NothingLive(h);
    }
  }

  lemma NothingLive(h: Heap)
    requires WellFormed(h) && Total(h.live) == 0
    ensures h.live == []
  {
  }

  /** The bytes handed out move from free to live; no other byte changes side. */
  lemma AllocMovesBytes(h: Heap, size: uint64, x: int)
    requires WellFormed(h) && Allocated(h, size) != None
    ensures var b := Allocated(h, size).value;
      && Count(Alloc(h, size).free, x) == Count(h.free, x) - One(Has(b, x))
      && Count(Alloc(h, size).live, x) == Count(h.live, x) + One(Has(b, x))
      && Total(Alloc(h, size).free) == Total(h.free) - b.size
      && Total(Alloc(h, size).live) == Total(h.live) + b.size
  {
    var i := FirstFit(h.free, size);
    var b := Allocated(h, size).value;
    InRange(h, h.free, i);
    CountPush(b, h.live, x);
    if Splits(h, size) {
      CountReplace(h.free, i, Block(Add64(b.addr, size), h.free[i].size - size), x);
    } else {
      CountRemove(h.free, i, x);
    }
  }

  /** Allocation keeps the heap well formed. */
  lemma AllocKeeps(h: Heap, size: uint64)
    requires WellFormed(h)
    ensures WellFormed(Alloc(h, size))
  {
    if Allocated(h, size) != None {
      var h' := Alloc(h, size);
      forall x: int
        ensures Count(h'.free, x) + Count(h'.live, x) == Count(h.free, x) + Count(h.live, x)
      {
        AllocMovesBytes(h, size, x);
      }
      AllocMovesBytes(h, size, 0);
      var i := FirstFit(h.free, size);
      assert h.free[i].size > 0;
      if !Splits(h, size) {
        assert forall j :: 0 <= j < |h'.free| ==> h'.free[j] == h.free[if j < i then j else j + 1];
      }
    }
  }

  /** What an allocation leaves alone: every live block, and every free block but the one it takes, which
      shrinks to its tail or disappears. */
  lemma AllocFrame(h: Heap, size: uint64)
    requires WellFormed(h) && Allocated(h, size) != None
    ensures var h', b, i := Alloc(h, size), Allocated(h, size).value, FirstFit(h.free, size);
      && h'.live == [b] + h.live
      && h'.free[..i] == h.free[..i]
      && (b == h.free[i] ==> h'.free[i..] == h.free[i + 1..])
      && (b != h.free[i] ==>
            && h'.free[i + 1..] == h.free[i + 1..]
            && h'.free[i].addr == b.addr + b.size
            && h'.free[i].addr + h'.free[i].size == h.free[i].addr + h.free[i].size)
  {
    InRange(h, h.free, FirstFit(h.free, size));
  }

  // ----- Release -----

  /** a and b touch or not as their bounds say, and their sizes add up. */
  ghost predicate Exact(a: Block, b: Block) {
    && (Precedes(a, b) <==> a.addr + a.size == b.addr)
    && (Precedes(b, a) <==> b.addr + b.size == a.addr)
    && a.size + b.size < TWO_TO_64
  }

  /** In a well-formed heap, address wrap-around cannot make a free and a live block look adjacent. */
  lemma NoWrap(h: Heap, i: nat, k: nat)
    requires WellFormed(h) && i < |h.free| && k < |h.live|
    ensures Exact(h.free[i], h.live[k])
  {
    TotalBounds(h.free, i);
    TotalBounds(h.live, k);
    InRange(h, h.live, k);
    InRange(h, h.free, i);
  }

  lemma MergedBytes(a: Block, b: Block, x: int)
    requires Adjacent(a, b) && Exact(a, b)
    ensures One(Has(Merged(a, b), x)) == One(Has(a, x)) + One(Has(b, x))
    ensures Merged(a, b).size == a.size + b.size
  {
  }

  lemma InsertCounts(bs: seq<Block>, b: Block, x: int)
    requires forall f :: f in bs ==> Exact(f, b)
    ensures Count(Insert(bs, b), x) == Count(bs, x) + One(Has(b, x))
    ensures Total(Insert(bs, b)) == Total(bs) + b.size
  {
    var i := FirstAdjacent(bs, b);
    if i == |bs| {
      CountPush(b, bs, x);
    } else {
      MergedBytes(bs[i], b, x);
      CountReplace(bs, i, Merged(bs[i], b), x);
    }
  }

  /** A release moves exactly the bytes of the released block from live to free. */
  lemma ReleaseMovesBytes(h: Heap, addr: uint64, x: int)
    requires WellFormed(h) && Releases(h, addr)
    ensures var b := h.live[Find(h.live, addr)];
      && Count(Release(h, addr).free, x) == Count(h.free, x) + One(Has(b, x))
      && Count(Release(h, addr).live, x) == Count(h.live, x) - One(Has(b, x))
      && Total(Release(h, addr).free) == Total(h.free) + b.size
      && Total(Release(h, addr).live) == Total(h.live) - b.size
  {
    var k := Find(h.live, addr);
    forall f | f in h.free
      ensures Exact(f, h.live[k])
    {
      var i :| 0 <= i < |h.free| && h.free[i] == f;
      NoWrap(h, i, k);
    }
    InsertCounts(h.free, h.live[k], x);
    CountRemove(h.live, k, x);
  }

  /** What a release leaves alone: every other live block, and every free block but the one it joins, which
      it touches from one side and then covers together with the released block. */
  lemma ReleaseFrame(h: Heap, addr: uint64)
    requires WellFormed(h) && Releases(h, addr)
    ensures var h', k, i := Release(h, addr), Find(h.live, addr), FirstAdjacent(h.free, h.live[Find(h.live, addr)]);
      var b := h.live[k];
      && h'.live[..k] == h.live[..k] && h'.live[k..] == h.live[k + 1..]
      && (i == |h.free| ==> h'.free == [b] + h.free)
      && (i < |h.free| ==>
            var f := h.free[i];
            && h'.free[..i] == h.free[..i] && h'.free[i + 1..] == h.free[i + 1..]
            && h'.free[i].size == f.size + b.size
            && ((f.addr + f.size == b.addr && h'.free[i].addr == f.addr)
                || (b.addr + b.size == f.addr && h'.free[i].addr == b.addr)))
  {
    var k := Find(h.live, addr);
    var i := FirstAdjacent(h.free, h.live[k]);
    if i < |h.free| {
      NoWrap(h, i, k);
    }
  }

  lemma ReleaseSizes(h: Heap, addr: uint64)
    requires WellFormed(h) && Releases(h, addr)
    ensures forall b :: b in Release(h, addr).live ==> b.size > 0
    ensures forall b :: b in Release(h, addr).free ==> b.size > 0 || h.range == 0
  {
    var k := Find(h.live, addr);
    var i := FirstAdjacent(h.free, h.live[k]);
    if i < |h.free| {
      NoWrap(h, i, k);
      MergedBytes(h.free[i], h.live[k], 0);
    }
  }

  lemma ReleaseKeeps(h: Heap, addr: uint64)
    requires WellFormed(h)
    ensures WellFormed(Release(h, addr))
  {
    if Releases(h, addr) {
      var h' := Release(h, addr);
      forall x: int
        ensures Count(h'.free, x) + Count(h'.live, x) == Count(h.free, x) + Count(h.live, x)
      {
        ReleaseMovesBytes(h, addr, x);
      }
      ReleaseMovesBytes(h, addr, 0);
      ReleaseSizes(h, addr);
    }
  }
}

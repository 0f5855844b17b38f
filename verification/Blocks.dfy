/** Blocks of 2 MiB: the arithmetic of addresses, table indexes and block counts that the page-table code
    does on 64-bit words, in small steps. */
module Blocks {
  import opened Descriptors

  /** The address of the block with these two table indexes. */
  function BlockAddr(l1: bv9, l2: bv9): bv64 {
    ((l1 as bv64) << 30) | ((l2 as bv64) << 21)
  }

  lemma BlockAddrIndexes(l1: bv9, l2: bv9)
    ensures L1Index(BlockAddr(l1, l2)) == l1 && L2Index(BlockAddr(l1, l2)) == l2
    ensures Translatable(BlockAddr(l1, l2)) && BlockAddr(l1, l2) & 0x1F_FFFF == 0
  {
  }

  lemma AlignedIsBlockAddr(a: bv64)
    requires a < 0x80_0000_0000 && a & 0x1F_FFFF == 0
    ensures a == BlockAddr(L1Index(a), L2Index(a))
  {
  }

  lemma RegionBetween(a: bv64, b: bv64, c: bv64)
    requires a <= b <= c < 0x80_0000_0000 && L1Index(a) == L1Index(c)
    ensures L1Index(b) == L1Index(a)
  {
  }

  lemma BlockAddrBetween(l1: bv9, a: bv9, b: bv9, last: bv64)
    requires a <= b <= L2Index(last) && L1Index(last) == l1 && last < 0x80_0000_0000
    ensures BlockAddr(l1, a) <= BlockAddr(l1, b) <= last
  {
  }

  // ----- Slots as numbers -----

  function SlotNum(k: bv9): (n: nat)
    ensures n < 512
  {
    k as int
  }

  function NextSlot(k: bv9): bv9 {
    k + 1
  }

  /** The number of an address's slot in its level 2 table. */
  function SlotOf(a: bv64): (i: nat)
    ensures i < 512
  {
    SlotNum(L2Index(a))
  }

  lemma SlotCompare(a: bv9, b: bv9)
    ensures a <= b <==> SlotNum(a) <= SlotNum(b)
  {
  }

  lemma SlotInjective(a: bv9, b: bv9)
    ensures SlotNum(a) == SlotNum(b) <==> a == b
  {
  }

  lemma SlotSucc(a: bv9)
    requires SlotNum(a) != 511
    ensures a != 0x1FF && SlotNum(NextSlot(a)) == SlotNum(a) + 1
  {
  }

  lemma SlotOrderWord(a: bv64, b: bv64)
    requires a <= b < 0x80_0000_0000 && L1Index(a) == L1Index(b)
    ensures L2Index(a) <= L2Index(b)
  {
  }

  lemma SlotOrder(a: bv64, b: bv64)
    requires a <= b < 0x80_0000_0000 && L1Index(a) == L1Index(b)
    ensures SlotOf(a) <= SlotOf(b)
  {
    hide L1Index, L2Index, SlotNum;
    SlotOrderWord(a, b);
    SlotCompare(L2Index(a), L2Index(b));
  }

  /** Slot number i as an index. */
  function SlotWord(i: nat): bv9 {
    if i == 0 then 0 else NextSlot(SlotWord(i - 1))
  }

  lemma SlotZero()
    ensures SlotNum(0) == 0
  {
  }

  lemma {:induction false} SlotNumber(i: nat)
    requires i < 512
    ensures SlotNum(SlotWord(i)) == i
  {
    hide SlotNum, NextSlot;
    if i > 0 {
      SlotNumber(i - 1);
      SlotSucc(SlotWord(i - 1));
    } else {
      SlotZero();
    }
  }

  /** `kernel_block_pa += L2_BLOCK_SIZE`. */
  function AfterBlock(a: bv64): bv64 {
    a + L2_BLOCK_SIZE
  }

  lemma NextBlockAddr(l1: bv9, l2: bv9)
    requires l2 != 0x1FF
    ensures AfterBlock(BlockAddr(l1, l2)) == BlockAddr(l1, NextSlot(l2))
  {
  }

  lemma NextSlotAddr(l1: bv9, i: nat)
    requires i + 1 < 512
    ensures AfterBlock(BlockAddr(l1, SlotWord(i))) == BlockAddr(l1, SlotWord(i + 1))
  {
    hide BlockAddr, SlotNum, NextSlot, AfterBlock;
    SlotNumber(i);
    SlotSucc(SlotWord(i));
    NextBlockAddr(l1, SlotWord(i));
  }

  // ----- Counting blocks -----

  function Num(c: bv10): (n: nat)
    ensures n < 1024
  {
    c as int
  }

  function Inc(c: bv10): bv10 {
    c + 1
  }

  function Plus(a: bv10, b: bv10): bv10 {
    a + b
  }

  /** n as a ten-bit count. */
  function CountWord(n: nat): bv10 {
    if n == 0 then 0 else Inc(CountWord(n - 1))
  }

  /** The loop condition `i < n`. */
  predicate Below(i: bv64, n: bv64) {
    i < n
  }

  /** `i++`. */
  function After(i: bv64): bv64 {
    i + 1
  }

  function Wide(c: bv10): bv64 {
    c as bv64
  }

  lemma CountSucc(c: bv10)
    requires Num(c) != 1023
    ensures c != 0x3FF && Num(Inc(c)) == Num(c) + 1
  {
  }

  lemma CountZero(c: bv10)
    ensures Num(c) == 0 <==> c == 0
  {
  }

  lemma {:induction false} CountNumber(n: nat)
    requires n < 1024
    ensures Num(CountWord(n)) == n
  {
    hide Num, Inc;
    if n > 0 {
      CountNumber(n - 1);
      CountSucc(CountWord(n - 1));
    } else {
      CountZero(0);
    }
  }

  lemma CountCompare(a: bv10, b: bv10)
    ensures a < b <==> Num(a) < Num(b)
  {
  }

  lemma WideCompare(a: bv10, b: bv10)
    ensures Below(Wide(a), Wide(b)) <==> a < b
  {
  }

  lemma WideNumber(a: bv10, b: bv10)
    ensures Below(Wide(a), Wide(b)) <==> Num(a) < Num(b)
  {
    hide Wide, Num, Below;
    WideCompare(a, b);
    CountCompare(a, b);
  }

  lemma WideSucc(a: bv10)
    requires a != 0x3FF
    ensures After(Wide(a)) == Wide(Inc(a))
  {
  }

  /** A loop counter and its bound compare as the numbers they count. */
  lemma CountersCompare(n: nat, total: nat)
    requires n < 1024 && total < 1024
    ensures Below(Wide(CountWord(n)), Wide(CountWord(total))) <==> n < total
  {
    hide Below, Wide, Num, Inc, CountWord;
    CountNumber(n);
    CountNumber(total);
    WideNumber(CountWord(n), CountWord(total));
  }

  lemma CounterStep(n: nat)
    requires n + 1 < 1024
    ensures After(Wide(CountWord(n))) == Wide(CountWord(n + 1))
  {
    hide Wide, Num, Inc, After;
    CountNumber(n);
    CountSucc(CountWord(n));
    WideSucc(CountWord(n));
  }

  lemma CountInjective(a: bv10, b: bv10)
    requires Num(a) == Num(b)
    ensures a == b
  {
  }

  lemma CountBefore(b: bv10)
    requires b != 0
    ensures Inc(b - 1) == b && b - 1 < b
  {
  }

  lemma PlusInc(a: bv10, b: bv10)
    ensures Plus(a, Inc(b)) == Inc(Plus(a, b)) && Plus(a, 0) == a
  {
  }

  lemma {:induction false} CountAdd(a: bv10, b: bv10)
    requires Num(a) + Num(b) < 1024
    ensures Num(Plus(a, b)) == Num(a) + Num(b)
    decreases b
  {
    hide Num, Inc, Plus;
    PlusInc(a, b);
    CountZero(b);
    if b == 0 {
    } else {
      var p := b - 1;
      CountBefore(b);
      CountCompare(p, b);
      CountSucc(p);
      CountAdd(a, p);
      CountSucc(Plus(a, p));
      PlusInc(a, p);
    }
  }

  // ----- How many blocks a byte range touches -----

  /** `block_num`: a size in blocks, rounded up. */
  function BlockCount(size: bv64): bv64 {
    (size + (L2_BLOCK_SIZE - 1)) >> 21
  }

  function Tens(b: bv9): bv10 {
    b as bv10
  }

  lemma TensNumber(b: bv9)
    ensures Num(Tens(b)) == SlotNum(b)
  {
  }

  /** A length of k whole blocks and some bytes, less than a block. */
  function Length(k: bv9, offset: bv64): bv64 {
    ((k as bv64) << 21) | offset
  }

  function Offset(a: bv64): bv64 {
    a & 0x1F_FFFF
  }

  function Add(a: bv64, b: bv64): bv64 {
    a + b
  }

  lemma LengthParts(a: bv64)
    requires a >> 30 == 0
    ensures a == Length(L2Index(a), Offset(a))
  {
  }

  lemma LengthInRegion(start: bv64, rest: bv64)
    requires start <= Add(start, rest) < 0x80_0000_0000 && L1Index(start) == L1Index(Add(start, rest))
    ensures rest >> 30 == 0
  {
  }

  lemma LastSlot(l1: bv9, o: bv9, k: bv9, a: bv64)
    requires Add(BlockAddr(l1, o), Length(k, Offset(a))) < 0x80_0000_0000
    requires L1Index(Add(BlockAddr(l1, o), Length(k, Offset(a)))) == l1
    ensures Plus(Tens(o), Tens(k)) == Tens(L2Index(Add(BlockAddr(l1, o), Length(k, Offset(a)))))
  {
  }

  lemma CountOfLength(k: bv9, a: bv64)
    ensures BlockCount(Length(k, Offset(a)) + 1) == Wide(Inc(Tens(k)))
  {
  }

  /** The size of the byte range from start to last. */
  function SizeOf(start: bv64, last: bv64): bv64 {
    last + 1 - start
  }

  lemma SizeOfEnd(start: bv64, end: bv64)
    ensures SizeOf(start, end - 1) == end - start
  {
  }

  lemma SizeOfSum(start: bv64, rest: bv64)
    ensures SizeOf(start, start + rest) == rest + 1
  {
  }

  predicate SumsTo(start: bv64, rest: bv64, last: bv64) {
    Add(start, rest) == last
  }

  lemma RestExists(start: bv64, last: bv64)
    ensures exists rest :: SumsTo(start, rest, last)
  {
    assert SumsTo(start, last - start, last);
  }

  lemma BlocksOfLength(start: bv64, last: bv64, rest: bv64)
    requires start <= last < 0x80_0000_0000 && start & 0x1F_FFFF == 0 && L1Index(start) == L1Index(last)
    requires SumsTo(start, rest, last)
    ensures SlotOf(start) <= SlotOf(last)
    ensures BlockCount(rest + 1) == Wide(CountWord(SlotOf(last) - SlotOf(start) + 1))
  {
    hide L1Index, L2Index, Length, Plus, Inc, Tens, Wide, BlockCount, SlotOf, CountWord, Add;
    SlotOrder(start, last);
    SlotOfSum(start, last, rest);
    CountOfLength(L2Index(rest), rest);
    SlotDistance(start, last, L2Index(rest));
  }

  lemma SlotOfSum(start: bv64, last: bv64, rest: bv64)
    requires start <= last < 0x80_0000_0000 && start & 0x1F_FFFF == 0 && L1Index(start) == L1Index(last)
    requires SumsTo(start, rest, last)
    ensures rest == Length(L2Index(rest), Offset(rest))
    ensures Plus(Tens(L2Index(start)), Tens(L2Index(rest))) == Tens(L2Index(last))
  {
    hide L1Index, L2Index, BlockAddr, Length, Offset, Plus, Tens, Add;
    LengthInRegion(start, rest);
    LengthParts(rest);
    AlignedIsBlockAddr(start);
    LastSlot(L1Index(start), L2Index(start), L2Index(rest), rest);
  }

  /** The block count of a block-aligned range inside one region is the number of slots it spans. */
  lemma BlocksOfRange(start: bv64, last: bv64)
    requires start <= last < 0x80_0000_0000 && start & 0x1F_FFFF == 0 && L1Index(start) == L1Index(last)
    ensures SlotOf(start) <= SlotOf(last)
    ensures BlockCount(SizeOf(start, last)) == Wide(CountWord(SlotOf(last) - SlotOf(start) + 1))
  {
    hide L1Index, L2Index, Wide, BlockCount, SlotOf, CountWord, SizeOf;
    RestExists(start, last);
    var rest :| SumsTo(start, rest, last);
    SizeOfSum(start, rest);
    BlocksOfLength(start, last, rest);
  }

  lemma SlotDistance(start: bv64, last: bv64, k: bv9)
    requires Plus(Tens(L2Index(start)), Tens(k)) == Tens(L2Index(last)) && SlotOf(start) <= SlotOf(last)
    ensures Inc(Tens(k)) == CountWord(SlotOf(last) - SlotOf(start) + 1)
  {
    hide L2Index, Tens, CountWord, SlotNum, Num, Inc, Plus;
    var o, e := L2Index(start), L2Index(last);
    TensNumber(o);
    TensNumber(k);
    TensNumber(e);
    CountAdd(Tens(o), Tens(k));
    CountSucc(Tens(k));
    CountNumber(SlotOf(last) - SlotOf(start) + 1);
    CountInjective(Inc(Tens(k)), CountWord(SlotOf(last) - SlotOf(start) + 1));
  }
}

/** The page-table builder of arch/arm64/memorymanager/mmu.c, writing into the 4 KiB pages between
    `__page_tables_start` and `__page_tables_end`, and the hardware walk that reads them. */
module PageTables {
  import opened Sequences
  import opened Descriptors
  import opened Blocks
  import opened AddressMap

  /** The pointer arithmetic `table + PT_ENTRIES`. */
  function AfterTable(p: bv64): bv64 {
    p + PAGE_SIZE
  }

  /** Pointer comparison. */
  predicate Before(p: bv64, q: bv64) {
    p < q
  }

  /** The address n pages after p. */
  function PageAt(p: bv64, n: nat): bv64 {
    if n == 0 then p else AfterTable(PageAt(p, n - 1))
  }

  /** n pages from p on are page-aligned and end at or below 2^40. */
  predicate Room(p: bv64, n: nat)
    decreases n
  {
    p & 0xFFF == 0 && p <= 0x100_0000_0000
    && (n == 0 || (p <= 0xFF_FFFF_F000 && Room(AfterTable(p), n - 1)))
  }

  lemma NextPage(p: bv64)
    requires p & 0xFFF == 0 && p <= 0xFF_FFFF_F000
    ensures Before(p, AfterTable(p)) && InPhysicalRange(p)
  {
  }

  lemma {:induction false} RoomFrom(p: bv64, count: nat, n: nat)
    requires Room(p, count) && n <= count
    ensures Room(PageAt(p, n), count - n)
  {
    hide AfterTable;
    if n == 0 {
    } else {
      RoomFrom(p, count, n - 1);
    }
  }

  /** Page n of the area is page-aligned and below 2^40. */
  lemma PageFacts(p: bv64, count: nat, n: nat)
    requires Room(p, count) && n < count
    ensures PageAt(p, n) & 0xFFF == 0 && InPhysicalRange(PageAt(p, n))
    ensures Before(PageAt(p, n), PageAt(p, n + 1))
  {
    hide PageAt, AfterTable, Before;
    RoomFrom(p, count, n);
    NextPage(PageAt(p, n));
    PageAtNext(p, n);
  }

  lemma PageAtNext(p: bv64, n: nat)
    ensures PageAt(p, n + 1) == AfterTable(PageAt(p, n))
  {
  }

  lemma BeforeOrder(p: bv64, q: bv64, r: bv64)
    ensures Before(p, q) && Before(q, r) ==> Before(p, r)
    ensures Before(p, q) ==> p != q && !Before(q, p)
  {
  }

  lemma {:induction false} PagesIncrease(p: bv64, count: nat, m: nat, n: nat)
    requires Room(p, count) && m < n <= count
    ensures Before(PageAt(p, m), PageAt(p, n))
    decreases n
  {
    hide PageAt, Room, Before;
    PageFacts(p, count, n - 1);
    if m == n - 1 {
    } else {
      PagesIncrease(p, count, m, n - 1);
      BeforeOrder(PageAt(p, m), PageAt(p, n - 1), PageAt(p, n));
    }
  }

  // ----- Which tables exist -----

  /** The L1 indexes that have a table, in the order their tables were handed out. */
  function OwnersAfter(owners: seq<bv9>, devs: seq<Device>): seq<bv9> {
    if devs == [] then owners
    else WithOwner(OwnersAfter(owners, devs[..|devs| - 1]), L1Index(devs[|devs| - 1].base))
  }

  function WithOwner(owners: seq<bv9>, l1: bv9): seq<bv9> {
    if l1 in owners then owners else owners + [l1]
  }

  lemma {:induction false} OwnersGrow(owners: seq<bv9>, devs: seq<Device>, i: nat)
    requires i <= |devs|
    ensures |OwnersAfter(owners, devs[..i])| <= |OwnersAfter(owners, devs)|
    decreases |devs|
  {
    if i < |devs| {
      assert devs[..|devs| - 1][..i] == devs[..i];
      OwnersGrow(owners, devs[..|devs| - 1], i);
    } else {
      assert devs[..i] == devs;
    }
  }

  function DeviceRegions(devs: seq<Device>): set<bv9> {
    if devs == [] then {} else DeviceRegions(devs[..|devs| - 1]) + {L1Index(devs[|devs| - 1].base)}
  }

  /** One table exists per distinct L1 index: the kernel's and those of the devices. */
  lemma {:induction false} OwnersAreRegions(l1: bv9, devs: seq<Device>)
    ensures var owners := OwnersAfter([l1], devs);
      && NoRepeats(owners)
      && (forall k :: k in owners <==> k == l1 || k in DeviceRegions(devs))
      && |owners| == |{l1} + DeviceRegions(devs)|
    decreases |devs|
  {
    hide L1Index;
    if devs == [] {
      assert {l1} + {} == {l1};
    } else {
      var front, last := devs[..|devs| - 1], L1Index(devs[|devs| - 1].base);
      OwnersAreRegions(l1, front);
      var before := {l1} + DeviceRegions(front);
      assert {l1} + DeviceRegions(devs) == before + {last};
      if last in OwnersAfter([l1], front) {
        assert before + {last} == before;
      } else {
        assert last !in before;
      }
    }
  }

  // ----- What a level 2 table holds -----

  /** The descriptor at these indexes after writing the mappings one after the other. */
  function DescAt(ms: seq<Mapping>, l1: bv9, l2: bv9): bv64 {
    if ms == [] then 0
    else
      var m := ms[|ms| - 1];
      if L1Index(m.pa) == l1 && L2Index(m.pa) == l2 then m.Desc() else DescAt(ms[..|ms| - 1], l1, l2)
  }

  /** What the walker makes of a block descriptor, given the bits of the address it translates. */
  function BlockOutcome(d: bv64, oa: bv64, offset: bv64): Outcome {
    if !Accessed(d) then AccessFlagFault
    else if !InPhysicalRange(oa) then AddressSizeFault
    else Mapped(oa | offset, AttributesOf(d))
  }

  function LastLevel(d: bv64, va: bv64): Outcome {
    match KindOf(d)
    case Invalid => TranslationFault
    case Block => BlockOutcome(d, OutputAddress(d), va & 0x1F_FFFF)
    case Table => Elsewhere
  }

  lemma InvalidEntry()
    ensures KindOf(0) == Invalid
  {
  }

  lemma LastLevelOfDesc(m: Mapping, va: bv64)
    requires m.Legal()
    ensures LastLevel(m.Desc(), va) == Mapped(InBlockOf(m.pa, va), m.Attrs())
  {
    BlockDescDecodes(m.pa, m.attrIndx, m.ap, m.sh, m.pxn, m.uxn);
    SmallOutput(m.pa);
  }

  lemma SmallOutput(pa: bv64)
    ensures InPhysicalRange(pa & 0xFF_FFE0_0000)
  {
  }

  lemma {:induction false} DescLookup(ms: seq<Mapping>, va: bv64)
    requires Translatable(va) && forall m :: m in ms ==> m.Legal()
    ensures LastLevel(DescAt(ms, L1Index(va), L2Index(va)), va) == Lookup(ms, va)
    decreases |ms|
  {
    hide L1Index, L2Index, LastLevel, Mapping.Desc, Mapping.Attrs, Mapping.Legal, InBlockOf, SameBlock;
    if ms == [] {
      NothingMapped(va);
    } else {
      var m, front := ms[|ms| - 1], ms[..|ms| - 1];
      assert m in ms && forall x :: x in front ==> x in ms;
      SameBlockIff(m.pa, va);
      LastLevelOfDesc(m, va);
      DescLookup(front, va);
    }
  }

  lemma NothingMapped(va: bv64)
    ensures LastLevel(0, va) == TranslationFault
  {
  }

  lemma {:induction false} NoRegionNoLookup(ms: seq<Mapping>, va: bv64)
    requires forall m :: m in ms ==> L1Index(m.pa) != L1Index(va)
    ensures Lookup(ms, va) == TranslationFault
    decreases |ms|
  {
    hide L1Index, L2Index, SameBlock;
    if ms == [] {
    } else {
      assert ms[|ms| - 1] in ms;
      SameBlockIff(ms[|ms| - 1].pa, va);
      NoRegionNoLookup(ms[..|ms| - 1], va);
    }
  }

  // ----- The builder -----

  /** The number of the page at p among the first n from start on, or -1. */
  function PageNumber(start: bv64, n: nat, p: bv64): (r: int)
    ensures -1 <= r < n
    ensures r >= 0 ==> PageAt(start, r) == p
  {
    if n == 0 then -1 else if PageAt(start, n - 1) == p then n - 1 else PageNumber(start, n - 1, p)
  }

  lemma {:induction false} PageNumberOf(start: bv64, count: nat, n: nat, i: nat)
    requires Room(start, count) && i < n <= count
    ensures PageNumber(start, n, PageAt(start, i)) == i
    decreases n
  {
    hide PageAt, Room;
    if i == n - 1 {
    } else {
      PagesIncrease(start, count, i, n - 1);
      PageNumberOf(start, count, n - 1, i);
    }
  }

  /** The page-table area: a row of 512 words per page. */
  class PageTableArea {
    const start: bv64
    const count: nat
    const words: array2<bv64>

    ghost predicate Valid() {
      Room(start, count) && words.Length0 == count && words.Length1 == 512
    }

    /** An area with arbitrary contents. */
    constructor (start: bv64, count: nat)
      requires Room(start, count)
      ensures Valid() && fresh(words) && this.start == start && this.count == count
    {
      this.start, this.count := start, count;
      words := new bv64[count, 512];
    }

    function Row(p: bv64): (r: int)
      ensures -1 <= r < count
    {
      PageNumber(start, count, p)
    }

    /** There is a page of the area at p. */
    predicate HasPage(p: bv64) {
      Row(p) >= 0
    }

    lemma HasPageAt(i: nat)
      requires Valid() && i < count
      ensures HasPage(PageAt(start, i)) && Row(PageAt(start, i)) == i
    {
      PageNumberOf(start, count, count, i);
    }

    /** Entry k of the table in row n. */
    function Entry(n: nat, k: bv9): bv64
      requires Valid() && n < count
      reads words
    {
      words[n, SlotNum(k)]
    }

    /** `table[k] := w`, for the table at p. */
    method SetEntry(p: bv64, k: bv9, w: bv64)
      requires Valid() && HasPage(p)
      modifies words
      ensures Entry(Row(p), k) == w
      ensures forall n: nat, j :: n < count && (n != Row(p) || j != k) ==> Entry(n, j) == old(Entry(n, j))
    {
      words[Row(p), SlotNum(k)] := w;
      forall n: nat, j | n < count && (n != Row(p) || j != k)
        ensures Entry(n, j) == old(Entry(n, j))
      {
        SlotInjective(j, k);
      }
    }

    /** `memset(table, 0, 512 * sizeof(uint64_t))`, for the table at p. */
    method ClearTable(p: bv64)
      requires Valid() && HasPage(p)
      modifies words
      ensures forall k: bv9 :: Entry(Row(p), k) == 0
      ensures forall n: nat, k: bv9 :: n < count && n != Row(p) ==> Entry(n, k) == old(Entry(n, k))
    {
      var j := 0;
      while j < 512
        invariant 0 <= j <= 512
        invariant forall i :: 0 <= i < j ==> words[Row(p), i] == 0
        invariant forall n, i :: 0 <= n < count && 0 <= i < 512 && n != Row(p) ==> words[n, i] == old(words[n, i])
      {
        words[Row(p), j] := 0;
        j := j + 1;
      }
      forall k: bv9
        ensures Entry(Row(p), k) == 0
      {
      }
      forall n: nat, k: bv9 | n < count && n != Row(p)
        ensures Entry(n, k) == old(Entry(n, k))
      {
      }
    }

    // ----- The hardware walk -----

    /** A two-level walk from this area's first page, for 39-bit addresses: level 1 is indexed by bits
        38:30, level 2 by bits 29:21. */
    function Translate(va: bv64): Outcome
      requires Valid() && count > 0
      reads words
    {
      if !Translatable(va) then TranslationFault
      else
        var d := Entry(0, WalkIndex1(va));
        match KindOf(d)
        case Invalid => TranslationFault
        case Block => BlockOutcome(d, d & 0xFFFF_C000_0000, va & 0x3FFF_FFFF)
        case Table =>
          var table := NextTable(d);
          if !InPhysicalRange(table) then AddressSizeFault
          else if !HasPage(table) then Elsewhere
          else LastLevel(Entry(Row(table), WalkIndex2(va)), va)
    }

    // ----- The tables in memory -----

    /** Row 0 is the level 1 table, row i + 1 the level 2 table of the i-th owner, and the level 2 tables
        hold these mappings. */
    ghost predicate Tables(owners: seq<bv9>, ms: seq<Mapping>)
      requires Valid()
      reads words
    {
      && 1 + |owners| <= count && NoRepeats(owners)
      && (forall m :: m in ms ==> m.Legal() && L1Index(m.pa) in owners)
      && (forall i :: 0 <= i < |owners| ==> Entry(0, owners[i]) == TableDesc(PageAt(start, i + 1)))
      && (forall k: bv9 :: k !in owners ==> Entry(0, k) == 0)
      && (forall i, k: bv9 :: 0 <= i < |owners| ==> Entry(i + 1, k) == DescAt(ms, owners[i], k))
    }

    lemma NotTranslated(ms: seq<Mapping>, va: bv64)
      requires Valid() && count > 0 && !Translatable(va)
      ensures Translate(va) == TranslationFault && Lookup(ms, va) == TranslationFault
    {
    }

    /** The walk of an address whose L1 index has a table ends in that table. */
    lemma WalkOfOwned(owners: seq<bv9>, ms: seq<Mapping>, i: nat, va: bv64)
      requires Valid() && Tables(owners, ms) && Translatable(va)
      requires i < |owners| && owners[i] == L1Index(va)
      ensures Translate(va) == LastLevel(DescAt(ms, L1Index(va), L2Index(va)), va)
    {
      hide L1Index, L2Index, TableDesc, LastLevel, NextTable, KindOf, Mapping.Legal, PageAt, Room, PageNumber, DescAt,
           Translatable, InPhysicalRange, BlockOutcome, WalkIndex1, WalkIndex2;
      IndexesAgree(va);
      PageFacts(start, count, i + 1);
      HasPageAt(i + 1);
      TableDescRoundTrip(PageAt(start, i + 1));
      hide Row, HasPage, Valid;
    }

    /** The walk of an address whose L1 index has no table faults. */
    lemma WalkOfUnowned(owners: seq<bv9>, ms: seq<Mapping>, va: bv64)
      requires Valid() && Tables(owners, ms) && Translatable(va) && L1Index(va) !in owners
      ensures Translate(va) == TranslationFault
    {
      hide L1Index, L2Index, TableDesc, LastLevel, NextTable, KindOf, Mapping.Legal, PageAt, Room, PageNumber, DescAt,
           Translatable, InPhysicalRange, BlockOutcome, WalkIndex1, WalkIndex2;
      IndexesAgree(va);
      InvalidEntry();
    }

    /** The walk of such tables gives exactly the map of the mappings. */
    lemma TablesTranslate(owners: seq<bv9>, ms: seq<Mapping>, va: bv64)
      requires Valid() && Tables(owners, ms)
      ensures Translate(va) == Lookup(ms, va)
    {
      hide L1Index, L2Index, Mapping.Legal, LastLevel, DescAt, Translatable, Lookup, Entry, Translate;
      if !Translatable(va) {
        hide Tables;
        NotTranslated(ms, va);
      } else if L1Index(va) in owners {
        var i :| 0 <= i < |owners| && owners[i] == L1Index(va);
        WalkOfOwned(owners, ms, i, va);
        DescLookup(ms, va);
      } else {
        WalkOfUnowned(owners, ms, va);
        NoRegionNoLookup(ms, va);
      }
    }

    method InitL1Table(pa: bv64)
      requires Valid() && count > 0 && pa == start
      modifies words
      ensures Tables([], [])
    {
      hide L1Index, TableDesc, Mapping.Legal;
      HasPageAt(0);
      assert PageAt(start, 0) == start;
      ClearTable(pa);
    }

    /** A new level 2 table for an L1 index that has none. */
    method InitL2Table(l1Table: bv64, l1Index: bv9, l2Table: bv64, ghost owners: seq<bv9>, ghost ms: seq<Mapping>)
      requires Valid() && Tables(owners, ms) && l1Index !in owners && 2 + |owners| <= count
      requires l1Table == start && l2Table == PageAt(start, 1 + |owners|)
      modifies words
      ensures Tables(owners + [l1Index], ms)
    {
      hide L1Index, TableDesc, Mapping.Legal, PageAt, Room, PageNumber, DescAt, NoRepeats;
      NoRepeatsSnoc(owners, l1Index);
      HasPageAt(0);
      FirstPage(start);
      HasPageAt(1 + |owners|);
      ClearTable(l2Table);
      SetEntry(l1Table, l1Index, TableDesc(l2Table));
      forall k: bv9
        ensures DescAt(ms, l1Index, k) == 0
      {
        NoDescOutside(ms, owners, l1Index, k);
      }
    }

    /** Writes one block into the level 2 table that owns its region. */
    method InitL2Block(l2Table: bv64, l2Index: bv9, m: Mapping,
                       ghost owners: seq<bv9>, ghost ms: seq<Mapping>, ghost i: nat)
      requires Valid() && Tables(owners, ms) && m.Legal()
      requires i < |owners| && owners[i] == L1Index(m.pa)
      requires l2Table == PageAt(start, i + 1) && l2Index == L2Index(m.pa)
      modifies words
      ensures Tables(owners, ms + [m])
    {
      hide L1Index, L2Index, TableDesc, Mapping.Legal, Mapping.Desc, PageAt, Room, PageNumber;
      HasPageAt(i + 1);
      SetEntry(l2Table, l2Index, m.Desc());
      forall j: bv9, n | 0 <= n < |owners|
        ensures DescAt(ms + [m], owners[n], j)
             == if n == i && j == l2Index then m.Desc() else DescAt(ms, owners[n], j)
      {
        assert (ms + [m])[..|ms|] == ms;
      }
    }

    /** The loop of `map_kernel`. */
    method MapKernelBlocks(l2Table: bv64, blockNum: bv64, kernelStart: bv64, kernelEnd: bv64)
      requires Valid() && KernelFits(kernelStart, LastByte(kernelEnd))
      requires blockNum == BlockCount(Span(kernelStart, kernelEnd)) && l2Table == PageAt(start, 1)
      requires Tables([L1Index(kernelStart)], [])
      modifies words
      ensures Tables([L1Index(kernelStart)], KernelMap(kernelStart, LastByte(kernelEnd)))
    {
      hide L1Index, L2Index, TableDesc, Mapping.Legal, Mapping.Desc, KernelMapping, PageAt, Room, PageNumber,
           BlockAddr, SlotOf, SlotWord, CountWord, Wide, BlockCount, KernelFits, KernelMap, AfterBlock, After, LastByte,
           Span, Tables, Entry, DescAt, Below;
      ghost var l1, o := L1Index(kernelStart), SlotOf(kernelStart);
      ghost var total := SlotOf(LastByte(kernelEnd)) - o + 1;
      KernelShape(kernelStart, kernelEnd);
      var blockPa := kernelStart;
      var i: bv64 := 0;
      ghost var n := 0;
      while Below(i, blockNum)
        invariant 0 <= n <= total && i == Wide(CountWord(n))
        invariant n < total ==> blockPa == BlockAddr(l1, SlotWord(o + n))
        invariant Tables([l1], KernelBlocks(l1, o, n))
        decreases total - n
      {
        CountersCompare(n, total);
        BlockAddrIndexes(l1, SlotWord(o + n));
        InitL2Block(l2Table, L2Index(blockPa), KernelMapping(blockPa), [l1], KernelBlocks(l1, o, n), 0);
        CounterStep(n);
        if n + 1 < total {
          NextSlotAddr(l1, o + n);
        }
        blockPa := AfterBlock(blockPa);
        i := After(i);
        n := n + 1;
      }
      CountersCompare(n, total);
    }

    /** `map_kernel`. It returns NULL, zero here, when its two tables fill the area. */
    method MapKernel(tablesStart: bv64, tablesEnd: bv64, kernelStart: bv64, kernelEnd: bv64) returns (next: bv64)
      requires Valid() && count >= 2 && tablesStart == start && tablesEnd == PageAt(start, count)
      requires KernelFits(kernelStart, LastByte(kernelEnd))
      modifies words
      ensures Tables([L1Index(kernelStart)], KernelMap(kernelStart, LastByte(kernelEnd)))
      ensures next == if count > 2 then PageAt(start, 2) else 0
    {
      hide Before;
      hide L1Index, L2Index, PageAt, AfterTable, Room, PageNumber, BlockCount, KernelFits, KernelMap, LastByte, Span,
           Tables, Entry, DescAt;
      var blockNum := BlockCount(Span(kernelStart, kernelEnd));
      var l1Table := tablesStart;
      var l2Table := AfterTable(tablesStart);
      ThreePages(start);
      InitL1Table(l1Table);
      InitL2Table(l1Table, L1Index(kernelStart), l2Table, [], []);
      assert [] + [L1Index(kernelStart)] == [L1Index(kernelStart)];
      MapKernelBlocks(l2Table, blockNum, kernelStart, kernelEnd);
      RoomAfterTwo(start, count);
      next := if Before(AfterTable(l2Table), tablesEnd) then AfterTable(l2Table) else 0;
    }

    /** What the entry of an L1 index says: valid exactly if the index has a table, and then masking the
        entry recovers the table. */
    lemma EntryTells(owners: seq<bv9>, ms: seq<Mapping>, k: bv9) returns (i: nat)
      requires Valid() && Tables(owners, ms)
      ensures HasTable(Entry(0, k)) <==> k in owners
      ensures k in owners ==> i < |owners| && owners[i] == k && TableIn(Entry(0, k)) == PageAt(start, i + 1)
    {
      hide HasTable, TableIn, TableDesc, PageAt, Room, DescAt, L1Index, L2Index, Mapping.Legal, InPhysicalRange;
      i := 0;
      if k in owners {
        i :| 0 <= i < |owners| && owners[i] == k;
        PageFacts(start, count, i + 1);
        TableInDesc(PageAt(start, i + 1));
      } else {
        NoTableInZero();
      }
    }

    /** One iteration of the loop of `map_devices`. */
    method MapDevice(l1Table: bv64, tablesEnd: bv64, unused: bv64, dev: Device,
                     ghost owners: seq<bv9>, ghost ms: seq<Mapping>) returns (next: bv64)
      requires Valid() && count > 0 && l1Table == start && tablesEnd == PageAt(start, count)
      requires Tables(owners, ms) && dev.Legal()
      requires L1Index(dev.base) !in owners ==> unused == PageAt(start, 1 + |owners|) && 2 + |owners| <= count
      modifies words
      ensures Tables(WithOwner(owners, L1Index(dev.base)), ms + [dev.ToMapping()])
      ensures next == if L1Index(dev.base) in owners then unused else PageAt(start, 2 + |owners|)
    {
      hide L1Index, L2Index, HasTable, TableIn, PageAt, AfterTable, Room, PageNumber, Before, Tables, Entry, DescAt,
           Mapping.Legal;
      var l1Index := L1Index(dev.base);
      ghost var i := EntryTells(owners, ms, l1Index);
      var l2Table;
      next := unused;
      if !HasTable(Entry(0, l1Index)) {
        l2Table := next;
        next := AfterTable(next);
        InitL2Table(l1Table, l1Index, l2Table, owners, ms);
        i := |owners|;
        PageAtNext(start, 1 + |owners|);
        NotPastEnd(start, count, 2 + |owners|);
        if Before(tablesEnd, next) {
          next := 0;
        }
      } else {
        l2Table := TableIn(Entry(0, l1Index));
      }
      LegalMapping(dev);
      InitL2Block(l2Table, L2Index(dev.base), dev.ToMapping(), WithOwner(owners, l1Index), ms, i);
    }

    /** `map_devices`. It needs room for one table per L1 index that has none yet; the returned pointer is
        the first page not handed out. */
    method MapDevices(unused: bv64, tablesEnd: bv64, devs: seq<Device>,
                      ghost owners: seq<bv9>, ghost ms: seq<Mapping>) returns (next: bv64)
      requires Valid() && tablesEnd == PageAt(start, count) && Tables(owners, ms)
      requires forall d :: d in devs ==> d.Legal()
      requires 1 + |OwnersAfter(owners, devs)| <= count
      requires |OwnersAfter(owners, devs)| > |owners| ==> unused == PageAt(start, 1 + |owners|)
      modifies words
      ensures Tables(OwnersAfter(owners, devs), ms + DeviceBlocks(devs))
      ensures next == if |OwnersAfter(owners, devs)| > |owners| then PageAt(start, 1 + |OwnersAfter(owners, devs)|)
                      else unused
    {
      hide L1Index, PageAt, Room, PageNumber, Tables, Entry, DescAt, Device.Legal, Device.ToMapping, OwnersAfter,
           WithOwner, DeviceBlocks;
      next := unused;
      var n := 0;
      NoDeviceYet(owners, devs, ms);
      while n < |devs|
        invariant 0 <= n <= |devs|
        invariant Tables(OwnersAfter(owners, devs[..n]), ms + DeviceBlocks(devs[..n]))
        invariant |owners| <= |OwnersAfter(owners, devs[..n])|
        invariant next == if |OwnersAfter(owners, devs[..n])| > |owners|
                          then PageAt(start, 1 + |OwnersAfter(owners, devs[..n])|) else unused
      {
        ghost var before := OwnersAfter(owners, devs[..n]);
        OneMoreDevice(owners, devs, n, ms);
        OwnersGrow(owners, devs, n + 1);
        next := MapDevice(start, tablesEnd, next, devs[n], before, ms + DeviceBlocks(devs[..n]));
        n := n + 1;
      }
      assert devs[..n] == devs;
    }

    /** `__page_tables_end`. */
    method EndOfArea() returns (end: bv64)
      ensures end == PageAt(start, count)
    {
      end := PageAt(start, count);
    }

    /** Each address translates to itself with the fields that the last device in its block lists, or else as kernel
        memory if its block holds a byte of the kernel, or else not at all. */
    ghost predicate TranslatesAsListed(first: bv64, last: bv64, devs: seq<Device>)
      requires Valid() && count > 0
      reads words
    {
      forall va :: Translate(va) ==
        if !Translatable(va) then TranslationFault
        else match DeviceAt(devs, va)
             case Some(d) =>
               Mapped(va, Attributes(d.memType & 7, d.accessPerm >> 6, d.shareability >> 8, false,
                                     d.pxn != 0, d.uxn != 0))
             case None =>
               if InKernelBlock(first, last, va) then Mapped(va, Attributes(0, 0, 3, false, false, true))
               else TranslationFault
    }

    lemma ListedAttributes(first: bv64, last: bv64, devs: seq<Device>)
      requires Valid() && count > 0 && KernelFits(first, last) && forall d :: d in devs ==> Translatable(d.base)
      requires forall va :: Translate(va) == Lookup(KernelMap(first, last) + DeviceBlocks(devs), va)
      ensures TranslatesAsListed(first, last, devs)
    {
      hide KernelFits, KernelMap, Lookup, Translate, Translatable, DeviceAt, InKernelBlock, DeviceBlocks;
      forall va {
        WholeMap(first, last, devs, va);
      }
    }

    /** Whatever the area held before, every address then translates as the map of the kernel's blocks followed by
        the devices' says. */
    method MapAll(kernelStart: bv64, kernelEnd: bv64, devs: seq<Device>)
      requires Valid() && KernelFits(kernelStart, LastByte(kernelEnd))
      requires forall d :: d in devs ==> d.Legal()
      requires count >= 2 && 1 + |OwnersAfter([L1Index(kernelStart)], devs)| <= count
      modifies words
      ensures Tables(OwnersAfter([L1Index(kernelStart)], devs),
                     KernelMap(kernelStart, LastByte(kernelEnd)) + DeviceBlocks(devs))
      ensures forall va :: Translate(va) == Lookup(KernelMap(kernelStart, LastByte(kernelEnd)) + DeviceBlocks(devs), va)
    {
      hide L1Index, PageAt, Room, PageNumber, Tables, Entry, DescAt, Device.Legal, OwnersAfter, DeviceBlocks,
           KernelFits, KernelMap, LastByte, Lookup, Translate;
      ghost var owners, kernel := [L1Index(kernelStart)], KernelMap(kernelStart, LastByte(kernelEnd));
      var end := EndOfArea();
      var next := MapKernel(start, end, kernelStart, kernelEnd);
      OwnersAtLeast(owners, devs);
      next := MapDevices(next, end, devs, owners, kernel);
      forall va
        ensures Translate(va) == Lookup(kernel + DeviceBlocks(devs), va)
      {
        TablesTranslate(OwnersAfter(owners, devs), kernel + DeviceBlocks(devs), va);
      }
    }

    /** The table-building part of `early_mmu_init`. Whatever the area held before, every address then
        translates as the map of the kernel's blocks followed by the devices' says: with the fields the last device in
        its block lists, or as kernel memory, or not at all. */
    method EarlyMmuInit(kernelStart: bv64, kernelEnd: bv64, devs: seq<Device>)
      requires Valid() && KernelFits(kernelStart, LastByte(kernelEnd))
      requires forall d :: d in devs ==> d.Legal()
      requires count >= 2 && 1 + |OwnersAfter([L1Index(kernelStart)], devs)| <= count
      modifies words
      ensures Tables(OwnersAfter([L1Index(kernelStart)], devs),
                     KernelMap(kernelStart, LastByte(kernelEnd)) + DeviceBlocks(devs))
      ensures forall va :: Translate(va) == Lookup(KernelMap(kernelStart, LastByte(kernelEnd)) + DeviceBlocks(devs), va)
      ensures (forall d :: d in devs ==> Translatable(d.base)) ==>
        TranslatesAsListed(kernelStart, LastByte(kernelEnd), devs)
    {
      hide Tables, KernelFits, KernelMap, LastByte, Lookup, Translate, Translatable, OwnersAfter, DeviceBlocks,
           TranslatesAsListed;
      MapAll(kernelStart, kernelEnd, devs);
      if forall d :: d in devs ==> Translatable(d.base) {
        ListedAttributes(kernelStart, LastByte(kernelEnd), devs);
      }
    }
  }

  lemma OwnersAtLeast(owners: seq<bv9>, devs: seq<Device>)
    ensures |owners| <= |OwnersAfter(owners, devs)|
  {
    NoDeviceYet(owners, devs, []);
    OwnersGrow(owners, devs, 0);
  }

  lemma LegalMapping(dev: Device)
    requires dev.Legal()
    ensures dev.ToMapping().Legal()
  {
  }

  predicate HasTable(d: bv64) {
    d & PTE_VALID != 0
  }

  function TableIn(d: bv64): bv64 {
    d & TABLE_ADDR_MASK
  }

  lemma TableInDesc(p: bv64)
    requires p & 0xFFF == 0 && InPhysicalRange(p)
    ensures HasTable(TableDesc(p)) && TableIn(TableDesc(p)) == p
  {
    TableDescRoundTrip(p);
  }

  lemma NoTableInZero()
    ensures !HasTable(0)
  {
  }

  lemma NotPastEnd(start: bv64, count: nat, n: nat)
    requires Room(start, count) && n <= count
    ensures !Before(PageAt(start, count), PageAt(start, n))
  {
    hide PageAt, Room, Before;
    BeforeOrder(PageAt(start, n), PageAt(start, count), PageAt(start, n));
    if n < count {
      PagesIncrease(start, count, n, count);
    }
  }

  lemma NoDeviceYet(owners: seq<bv9>, devs: seq<Device>, ms: seq<Mapping>)
    ensures OwnersAfter(owners, devs[..0]) == owners && ms + DeviceBlocks(devs[..0]) == ms
  {
  }

  lemma OneMoreDevice(owners: seq<bv9>, devs: seq<Device>, n: nat, ms: seq<Mapping>)
    requires n < |devs|
    ensures OwnersAfter(owners, devs[..n + 1]) == WithOwner(OwnersAfter(owners, devs[..n]), L1Index(devs[n].base))
    ensures |OwnersAfter(owners, devs[..n + 1])|
         == |OwnersAfter(owners, devs[..n])| + if L1Index(devs[n].base) in OwnersAfter(owners, devs[..n]) then 0 else 1
    ensures ms + DeviceBlocks(devs[..n + 1]) == ms + DeviceBlocks(devs[..n]) + [devs[n].ToMapping()]
  {
    hide L1Index;
    assert devs[..n + 1][..n] == devs[..n];
  }

  lemma ThreePages(start: bv64)
    ensures PageAt(start, 0) == start && PageAt(start, 1) == AfterTable(start)
    ensures PageAt(start, 2) == AfterTable(AfterTable(start))
  {
    hide AfterTable;
  }

  lemma RoomAfterTwo(start: bv64, count: nat)
    requires Room(start, count) && count >= 2
    ensures PageAt(start, 2) == AfterTable(AfterTable(start))
    ensures Before(AfterTable(AfterTable(start)), PageAt(start, count)) <==> count > 2
  {
    hide PageAt, AfterTable, Room, Before;
    ThreePages(start);
    BeforeOrder(PageAt(start, 2), PageAt(start, 2), PageAt(start, 2));
    if count > 2 {
      PagesIncrease(start, count, 2, count);
    }
  }

  lemma SpanIsSize(start: bv64, end: bv64)
    ensures SizeOf(start, LastByte(end)) == Span(start, end)
  {
    SizeOfEnd(start, end);
  }

  /** Where the kernel's blocks begin, and how many there are. */
  lemma KernelShape(start: bv64, end: bv64)
    requires KernelFits(start, LastByte(end))
    ensures SlotOf(start) <= SlotOf(LastByte(end))
    ensures start == BlockAddr(L1Index(start), SlotWord(SlotOf(start)))
    ensures BlockCount(Span(start, end)) == Wide(CountWord(SlotOf(LastByte(end)) - SlotOf(start) + 1))
    ensures Wide(CountWord(0)) == 0
    ensures KernelMap(start, LastByte(end))
         == KernelBlocks(L1Index(start), SlotOf(start), SlotOf(LastByte(end)) - SlotOf(start) + 1)
  {
    hide L1Index, L2Index, BlockAddr, SlotNum, SlotWord, BlockCount, SizeOf, LastByte, Span;
    BlocksOfRange(start, LastByte(end));
    SpanIsSize(start, end);
    AlignedIsBlockAddr(start);
    SlotNumber(SlotOf(start));
    SlotInjective(SlotWord(SlotOf(start)), L2Index(start));
  }

  lemma FirstPage(start: bv64)
    ensures PageAt(start, 0) == start
  {
  }

  lemma {:induction false} NoDescOutside(ms: seq<Mapping>, owners: seq<bv9>, l1: bv9, l2: bv9)
    requires l1 !in owners && forall m :: m in ms ==> L1Index(m.pa) in owners
    ensures DescAt(ms, l1, l2) == 0
    decreases |ms|
  {
    hide L1Index, L2Index;
    if ms == [] {
    } else {
      assert ms[|ms| - 1] in ms;
      NoDescOutside(ms[..|ms| - 1], owners, l1, l2);
    }
  }

  // ----- Which pages are handed out -----

  /** The page to hand out next, and those `map_devices` has handed out. */
  datatype Handing = Handing(next: bv64, pages: seq<bv64>)

  /** What is handed out after this page: the one after it, or NULL if that begins beyond the area's end. */
  function AfterHanding(page: bv64, end: bv64): bv64 {
    if Before(end, AfterTable(page)) then 0 else AfterTable(page)
  }

  /** The pages the source's pointers name, whether the area has them or not. `map_kernel` leaves the third
      page, or NULL if there is none. */
  function HandingOut(start: bv64, count: nat, l1: bv9, devs: seq<Device>): Handing {
    if devs == [] then Handing(if count > 2 then PageAt(start, 2) else 0, [])
    else
      var front := devs[..|devs| - 1];
      var h := HandingOut(start, count, l1, front);
      if L1Index(devs[|devs| - 1].base) in OwnersAfter([l1], front) then h
      else Handing(AfterHanding(h.next, PageAt(start, count)), h.pages + [h.next])
  }

  /** Every page handed out is one of the area's. */
  predicate AllInArea(start: bv64, count: nat, pages: seq<bv64>) {
    forall p :: p in pages ==> PageNumber(start, count, p) >= 0
  }

  lemma BeyondAreaEnd(start: bv64, count: nat)
    requires Room(start, count)
    ensures PageNumber(start, count, PageAt(start, count)) == -1
  {
    hide PageAt, Room, Before;
    var i := PageNumber(start, count, PageAt(start, count));
    if i >= 0 {
      PagesIncrease(start, count, i, count);
      BeforeOrder(PageAt(start, i), PageAt(start, count), PageAt(start, i));
    }
  }

  lemma NothingBeforeNull(p: bv64)
    ensures !Before(p, 0)
  {
  }

  lemma NullIsNoPage(start: bv64, count: nat)
    requires Room(start, count) && start != 0
    ensures PageNumber(start, count, 0) == -1
  {
    hide PageAt, Room, Before;
    var i := PageNumber(start, count, 0);
    FirstPage(start);
    if i > 0 {
      PagesIncrease(start, count, 0, i);
      NothingBeforeNull(start);
    }
  }

  lemma HasNumber(start: bv64, count: nat, n: nat)
    requires Room(start, count) && n < count
    ensures PageNumber(start, count, PageAt(start, n)) >= 0
  {
    PageNumberOf(start, count, count, n);
  }

  lemma OneMorePage(start: bv64, count: nat, pages: seq<bv64>, page: bv64)
    ensures AllInArea(start, count, pages + [page]) <==>
      AllInArea(start, count, pages) && PageNumber(start, count, page) >= 0
  {
    hide PageNumber;
    if AllInArea(start, count, pages + [page]) {
      assert forall p :: p in pages ==> p in pages + [page];
      assert page in pages + [page];
    }
  }

  /** After page n of the area, page n + 1 comes next, even if that is the area's end. */
  lemma NextHanding(start: bv64, count: nat, n: nat)
    requires Room(start, count) && n < count
    ensures AfterHanding(PageAt(start, n), PageAt(start, count)) == PageAt(start, n + 1)
  {
    hide PageAt, AfterTable, Room, Before;
    PageAtNext(start, n);
    NotPastEnd(start, count, n + 1);
  }

  /** With n pages needed so far: the pages handed out are the area's own if and only if it has n, and then
      the next one is the one after them. */
  predicate HandedOut(start: bv64, count: nat, h: Handing, n: nat) {
    && (AllInArea(start, count, h.pages) <==> n <= count)
    && (n <= count ==> h.next == if n == count == 2 then 0 else PageAt(start, n))
  }

  lemma HandOne(start: bv64, count: nat, h: Handing, n: nat)
    requires Room(start, count) && start != 0 && n >= 2 && HandedOut(start, count, h, n)
    ensures HandedOut(start, count, Handing(AfterHanding(h.next, PageAt(start, count)), h.pages + [h.next]), n + 1)
  {
    hide PageAt, AfterHanding, Room, PageNumber, AllInArea;
    OneMorePage(start, count, h.pages, h.next);
    if n < count {
      HasNumber(start, count, n);
      NextHanding(start, count, n);
    } else {
      BeyondAreaEnd(start, count);
      NullIsNoPage(start, count);
    }
  }

  lemma FirstHanding(start: bv64, count: nat, l1: bv9)
    requires count >= 2
    ensures HandedOut(start, count, HandingOut(start, count, l1, []), 2)
  {
    hide PageAt, PageNumber;
  }

  /** The kernel's two pages and one per further region are needed: the pages that `map_devices` hands out
      are the area's own if and only if the area has that many. */
  lemma {:induction false} PagesHandedOut(start: bv64, count: nat, l1: bv9, devs: seq<Device>)
    requires Room(start, count) && start != 0 && count >= 2
    ensures |OwnersAfter([l1], devs)| >= 1
    ensures HandedOut(start, count, HandingOut(start, count, l1, devs), 1 + |OwnersAfter([l1], devs)|)
    decreases |devs|
  {
    hide L1Index, PageAt, AfterHanding, Room, HandedOut;
    if devs == [] {
      FirstHanding(start, count, l1);
    } else {
      var front := devs[..|devs| - 1];
      PagesHandedOut(start, count, l1, front);
      HandOne(start, count, HandingOut(start, count, l1, front), 1 + |OwnersAfter([l1], front)|);
    }
  }

  /** So the builder writes inside the area if and only if the area has a page for each table it needs. */
  lemma AreaSufficesIff(start: bv64, count: nat, l1: bv9, devs: seq<Device>)
    requires Room(start, count) && start != 0 && count >= 2
    ensures AllInArea(start, count, HandingOut(start, count, l1, devs).pages)
       <==> 1 + |{l1} + DeviceRegions(devs)| <= count
  {
    PagesHandedOut(start, count, l1, devs);
    OwnersAreRegions(l1, devs);
  }
}

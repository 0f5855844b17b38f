/** The address map the boot code of arch/arm64/memorymanager/mmu.c is meant to build: what a lookup of
    each virtual address should give, without any table. */
module AddressMap {
  import opened Numerals
  import opened Descriptors
  import opened Blocks

  /** One 2 MiB block to be mapped at its own address. */
  datatype Mapping = Mapping(pa: bv64, attrIndx: bv64, ap: bv64, sh: bv64, pxn: bv64, uxn: bv64) {
    predicate Legal() {
      LegalFields(ap, sh, pxn, uxn)
    }

    /** What `init_l2_block` writes. */
    function Desc(): bv64 {
      BlockDesc(pa, attrIndx, ap, sh, PTE_AF, 0, pxn, uxn)
    }

    function Attrs(): Attributes {
      Attributes(attrIndx & 7, ap >> 6, sh >> 8, false, pxn != 0, uxn != 0)
    }
  }

  /** What a lookup can give; `Elsewhere` is a walk that leaves the tables modelled. */
  datatype Outcome =
    | Mapped(pa: bv64, attrs: Attributes)
    | TranslationFault
    | AccessFlagFault
    | AddressSizeFault
    | Elsewhere

  /** The walker uses bits 38:21 of an address to find its block, so an address of 2^39 or more shares its
      block with one below. */
  predicate SameBlock(a: bv64, b: bv64) {
    a & 0x7F_FFE0_0000 == b & 0x7F_FFE0_0000
  }

  predicate SameRegionBits(a: bv64, b: bv64) {
    a & 0x7F_C000_0000 == b & 0x7F_C000_0000
  }

  predicate SameSlotBits(a: bv64, b: bv64) {
    a & 0x3FE0_0000 == b & 0x3FE0_0000
  }

  lemma RegionBits(a: bv64, b: bv64)
    ensures SameRegionBits(a, b) <==> L1Index(a) == L1Index(b)
  {
  }

  lemma SlotBits(a: bv64, b: bv64)
    ensures SameSlotBits(a, b) <==> L2Index(a) == L2Index(b)
  {
  }

  lemma BlockGivesRegion(a: bv64, b: bv64)
    requires SameBlock(a, b)
    ensures SameRegionBits(a, b)
  {
  }

  lemma BlockGivesSlot(a: bv64, b: bv64)
    requires SameBlock(a, b)
    ensures SameSlotBits(a, b)
  {
  }

  lemma BothGiveBlock(a: bv64, b: bv64)
    requires SameRegionBits(a, b) && SameSlotBits(a, b)
    ensures SameBlock(a, b)
  {
  }

  lemma SameBlockIff(a: bv64, b: bv64)
    ensures SameBlock(a, b) <==> L1Index(a) == L1Index(b) && L2Index(a) == L2Index(b)
  {
    hide L1Index, L2Index, SameBlock, SameRegionBits, SameSlotBits;
    RegionBits(a, b);
    SlotBits(a, b);
    if SameBlock(a, b) {
      BlockGivesRegion(a, b);
      BlockGivesSlot(a, b);
    } else if SameRegionBits(a, b) && SameSlotBits(a, b) {
      BothGiveBlock(a, b);
    }
  }

  /** The address in pa's block that has va's offset. */
  function InBlockOf(pa: bv64, va: bv64): bv64 {
    (pa & 0xFF_FFE0_0000) | (va & 0x1F_FFFF)
  }

  /** The map that results from writing these mappings one after the other: the last one for a block wins. */
  function Lookup(ms: seq<Mapping>, va: bv64): Outcome {
    if ms == [] || !Translatable(va) then TranslationFault
    else
      var m := ms[|ms| - 1];
      if SameBlock(m.pa, va) then Mapped(InBlockOf(m.pa, va), m.Attrs())
      else Lookup(ms[..|ms| - 1], va)
  }

  // ----- The kernel image -----

  const MT_NORMAL: bv64 := 0

  /** Normal memory, readable and writable by the kernel only, inner shareable, never executable by user
      code. */
  const KERNEL_ATTRIBUTES := Attributes(0, 0, 3, false, false, true)

  function KernelMapping(pa: bv64): (m: Mapping)
    ensures m.Legal() && m.pa == pa && m.Attrs() == KERNEL_ATTRIBUTES
  {
    Mapping(pa, MT_NORMAL, AP_RW_EL1, SH_INNER, 0, PTE_UXN)
  }

  /** n blocks of region l1 from slot o on, in the order `map_kernel` writes them. */
  function KernelBlocks(l1: bv9, o: nat, n: nat): seq<Mapping>
    requires o + n <= 512
  {
    if n == 0 then [] else KernelBlocks(l1, o, n - 1) + [KernelMapping(BlockAddr(l1, SlotWord(o + n - 1)))]
  }

  /** The kernel, from its first to its last byte, starts at a block boundary, lies below 2^39, and stays in
      one 1 GiB region. */
  predicate KernelFits(start: bv64, last: bv64) {
    start <= last < 0x80_0000_0000 && start & 0x1F_FFFF == 0 && L1Index(start) == L1Index(last)
  }

  /** The address before the linker's end symbol. */
  function LastByte(end: bv64): bv64 {
    end - 1
  }

  /** The difference of the linker's end and start symbols. */
  function Span(start: bv64, end: bv64): bv64 {
    end - start
  }

  /** Every block the kernel reaches into, in order of address. */
  function KernelMap(start: bv64, last: bv64): seq<Mapping>
    requires KernelFits(start, last)
  {
    hide L1Index, SlotOf;
    SlotOrder(start, last);
    KernelBlocks(L1Index(start), SlotOf(start), SlotOf(last) - SlotOf(start) + 1)
  }

  // ----- Devices -----

  datatype Device = Device(base: bv64, size: bv64, memType: bv64, accessPerm: bv64, shareability: bv64,
                           pxn: bv64, uxn: bv64) {
    predicate Legal() {
      LegalFields(accessPerm, shareability, pxn, uxn)
    }

    function ToMapping(): Mapping {
      Mapping(base, memType, accessPerm, shareability, pxn, uxn)
    }
  }

  function DeviceBlocks(devs: seq<Device>): (ms: seq<Mapping>)
    ensures |ms| == |devs|
  {
    if devs == [] then [] else DeviceBlocks(devs[..|devs| - 1]) + [devs[|devs| - 1].ToMapping()]
  }

  /** The last device listed in the block of virtual addresses that va is in. */
  function DeviceAt(devs: seq<Device>, va: bv64): Option<Device> {
    if devs == [] then None
    else if SameBlock(devs[|devs| - 1].base, va) then Some(devs[|devs| - 1])
    else DeviceAt(devs[..|devs| - 1], va)
  }

  /** The address is in a block that holds a byte of the kernel. */
  ghost predicate InKernelBlock(start: bv64, last: bv64, va: bv64) {
    exists x :: start <= x <= last && SameBlock(x, va)
  }

  // ----- The map in closed form -----

  lemma AtOwnAddress(base: bv64, va: bv64)
    requires Translatable(base) && Translatable(va)
    ensures SameBlock(base, va) ==> InBlockOf(base, va) == va
  {
  }

  lemma {:induction false} BlocksLookup(l1: bv9, o: nat, n: nat, va: bv64)
    requires o + n <= 512 && Translatable(va)
    ensures Lookup(KernelBlocks(l1, o, n), va)
         == if L1Index(va) == l1 && o <= SlotOf(va) < o + n
            then Mapped(va, KERNEL_ATTRIBUTES) else TranslationFault
  {
    hide L1Index, SlotOf, SlotWord, BlockAddr, SameBlock, InBlockOf, KernelMapping, Mapping.Attrs, Mapping.Legal;
    if n == 0 {
    } else {
      var ms := KernelBlocks(l1, o, n);
      assert ms[..|ms| - 1] == KernelBlocks(l1, o, n - 1);
      BlocksLookup(l1, o, n - 1, va);
      OnlyBlockOfSlot(l1, o + n - 1, va);
      AtOwnAddress(BlockAddr(l1, SlotWord(o + n - 1)), va);
    }
  }

  lemma OnlyBlockOfSlot(l1: bv9, i: nat, va: bv64)
    requires i < 512
    ensures SameBlock(BlockAddr(l1, SlotWord(i)), va) <==> L1Index(va) == l1 && SlotOf(va) == i
    ensures Translatable(BlockAddr(l1, SlotWord(i)))
  {
    hide L1Index, L2Index, BlockAddr, SameBlock;
    SameBlockIff(BlockAddr(l1, SlotWord(i)), va);
    BlockAddrIndexes(l1, SlotWord(i));
    SlotNumber(i);
    SlotInjective(SlotWord(i), L2Index(va));
  }

  lemma KernelBlockHasSlot(start: bv64, last: bv64, va: bv64)
    requires KernelFits(start, last) && Translatable(va) && InKernelBlock(start, last, va)
    ensures L1Index(va) == L1Index(start) && L2Index(start) <= L2Index(va) <= L2Index(last)
  {
    hide L1Index, L2Index, SameBlock;
    var x :| start <= x <= last && SameBlock(x, va);
    SameBlockIff(x, va);
    RegionBetween(start, x, last);
    SlotOrderWord(start, x);
    SlotOrderWord(x, last);
  }

  lemma ByteFound(start: bv64, last: bv64, va: bv64, x: bv64)
    requires start <= x <= last && L1Index(x) == L1Index(va) && L2Index(x) == L2Index(va)
    ensures InKernelBlock(start, last, va)
  {
    hide L1Index, L2Index, SameBlock;
    SameBlockIff(x, va);
  }

  lemma SlotHoldsKernelByte(start: bv64, last: bv64, va: bv64)
    requires KernelFits(start, last) && Translatable(va)
    requires L1Index(va) == L1Index(start) && L2Index(start) <= L2Index(va) <= L2Index(last)
    ensures InKernelBlock(start, last, va)
  {
    hide L1Index, L2Index, BlockAddr;
    var l1, o, b := L1Index(start), L2Index(start), L2Index(va);
    AlignedIsBlockAddr(start);
    BlockAddrBetween(l1, o, b, last);
    BlockAddrIndexes(l1, b);
    ByteFound(start, last, va, BlockAddr(l1, b));
  }

  lemma KernelSlots(start: bv64, last: bv64)
    requires KernelFits(start, last)
    ensures SlotOf(start) <= SlotOf(last)
  {
    hide L1Index, SlotOf;
    SlotOrder(start, last);
  }

  lemma InKernelIffSlot(start: bv64, last: bv64, va: bv64)
    requires KernelFits(start, last) && Translatable(va)
    ensures InKernelBlock(start, last, va) <==>
      L1Index(va) == L1Index(start) && L2Index(start) <= L2Index(va) <= L2Index(last)
  {
    hide L1Index, L2Index;
    if InKernelBlock(start, last, va) {
      KernelBlockHasSlot(start, last, va);
    }
    if L1Index(va) == L1Index(start) && L2Index(start) <= L2Index(va) <= L2Index(last) {
      SlotHoldsKernelByte(start, last, va);
    }
  }

  lemma InKernelIffSlotNumber(start: bv64, last: bv64, va: bv64)
    requires KernelFits(start, last) && Translatable(va)
    ensures InKernelBlock(start, last, va) <==>
      L1Index(va) == L1Index(start) && SlotOf(start) <= SlotOf(va) <= SlotOf(last)
  {
    hide L1Index, L2Index, InKernelBlock, KernelFits, SlotNum;
    InKernelIffSlot(start, last, va);
    SlotCompare(L2Index(start), L2Index(va));
    SlotCompare(L2Index(va), L2Index(last));
  }

  /** `map_kernel`'s blocks are those that hold a byte of the kernel: it is covered, and nothing more is
      mapped. */
  lemma KernelLookup(start: bv64, last: bv64, va: bv64)
    requires KernelFits(start, last) && Translatable(va)
    ensures Lookup(KernelMap(start, last), va)
         == if InKernelBlock(start, last, va) then Mapped(va, KERNEL_ATTRIBUTES) else TranslationFault
  {
    hide L1Index, SlotOf, InKernelBlock, Lookup, KernelBlocks, KernelFits;
    KernelSlots(start, last);
    BlocksLookup(L1Index(start), SlotOf(start), SlotOf(last) - SlotOf(start) + 1, va);
    InKernelIffSlotNumber(start, last, va);
  }

  /** Which device that is: one in the block, with none behind it in the list. */
  lemma {:induction false} DeviceAtIsLast(devs: seq<Device>, va: bv64)
    ensures DeviceAt(devs, va) == None <==> forall i :: 0 <= i < |devs| ==> !SameBlock(devs[i].base, va)
    ensures DeviceAt(devs, va).Some? ==>
      exists i :: 0 <= i < |devs| && devs[i] == DeviceAt(devs, va).value && SameBlock(devs[i].base, va)
        && forall j :: i < j < |devs| ==> !SameBlock(devs[j].base, va)
    decreases |devs|
  {
    hide SameBlock;
    if devs == [] {
    } else if SameBlock(devs[|devs| - 1].base, va) {
      assert devs[|devs| - 1] == DeviceAt(devs, va).value;
    } else {
      DeviceAtIsLast(devs[..|devs| - 1], va);
    }
  }

  lemma DeviceMemType(d: Device)
    ensures d.ToMapping().Attrs().attrIndx == d.memType & 7
  {
  }

  lemma DevicePermissions(d: Device)
    ensures d.ToMapping().Attrs().ap == d.accessPerm >> 6
  {
  }

  lemma DeviceShareability(d: Device)
    ensures d.ToMapping().Attrs().sh == d.shareability >> 8
  {
  }

  lemma DeviceFlags(d: Device)
    ensures var a := d.ToMapping().Attrs();
      !a.notGlobal && a.pxn == (d.pxn != 0) && a.uxn == (d.uxn != 0)
  {
  }

  /** The walker reads from a device's block the fields the device lists. */
  lemma DeviceAttributes(d: Device)
    ensures d.ToMapping().Attrs()
         == Attributes(d.memType & 7, d.accessPerm >> 6, d.shareability >> 8, false, d.pxn != 0, d.uxn != 0)
  {
    hide Device.ToMapping, Mapping.Attrs;
    DeviceMemType(d);
    DevicePermissions(d);
    DeviceShareability(d);
    DeviceFlags(d);
  }

  lemma DeviceBase(d: Device)
    ensures d.ToMapping().pa == d.base
  {
  }

  lemma {:induction false} MapByMappings(start: bv64, last: bv64, devs: seq<Device>, va: bv64)
    requires KernelFits(start, last)
    requires forall d :: d in devs ==> Translatable(d.base)
    ensures Lookup(KernelMap(start, last) + DeviceBlocks(devs), va)
         == if !Translatable(va) then TranslationFault
            else match DeviceAt(devs, va)
                 case Some(d) => Mapped(va, d.ToMapping().Attrs())
                 case None =>
                   if InKernelBlock(start, last, va)
                   then Mapped(va, KERNEL_ATTRIBUTES)
                   else TranslationFault
    decreases |devs|
  {
    hide SameBlock, InBlockOf, KernelFits, KernelMap, InKernelBlock, Mapping.Attrs, Device.ToMapping;
    var k := KernelMap(start, last);
    var ms := k + DeviceBlocks(devs);
    if Translatable(va) {
      if devs == [] {
        assert ms == k;
        KernelLookup(start, last, va);
      } else {
        var d, front := devs[|devs| - 1], devs[..|devs| - 1];
        assert ms[..|ms| - 1] == k + DeviceBlocks(front);
        assert d in devs && forall e :: e in front ==> e in devs;
        MapByMappings(start, last, front, va);
        DeviceBase(d);
        AtOwnAddress(d.base, va);
      }
    }
  }

  /** The whole map. Every device block below 2^39 is mapped at its own address with the attributes of
      the last device listed in it; every other address in a block that holds a byte of the kernel is
      mapped at itself, readable and writable by the kernel only, inner shareable, never executable by user
      code; nothing else is mapped. */
  lemma WholeMap(start: bv64, last: bv64, devs: seq<Device>, va: bv64)
    requires KernelFits(start, last)
    requires forall d :: d in devs ==> Translatable(d.base)
    ensures Lookup(KernelMap(start, last) + DeviceBlocks(devs), va)
         == if !Translatable(va) then TranslationFault
            else match DeviceAt(devs, va)
                 case Some(d) =>
                   Mapped(va, Attributes(d.memType & 7, d.accessPerm >> 6, d.shareability >> 8, false,
                                         d.pxn != 0, d.uxn != 0))
                 case None =>
                   if InKernelBlock(start, last, va)
                   then Mapped(va, KERNEL_ATTRIBUTES)
                   else TranslationFault
  {
    hide SameBlock, KernelFits, KernelMap, InKernelBlock, Lookup, Device.ToMapping, Mapping.Attrs, Translatable;
    MapByMappings(start, last, devs, va);
    if d :| DeviceAt(devs, va) == Some(d) {
      DeviceAttributes(d);
    }
  }

  /** A device is found at its own address exactly if that address is below 2^39. */
  lemma DeviceReachableIff(ms: seq<Mapping>, d: Device)
    ensures Lookup(ms + [d.ToMapping()], d.base)
         == Mapped(d.base, Attributes(d.memType & 7, d.accessPerm >> 6, d.shareability >> 8, false,
                                      d.pxn != 0, d.uxn != 0))
       <==> Translatable(d.base)
  {
    DeviceAttributes(d);
    var all := ms + [d.ToMapping()];
    assert all[|all| - 1] == d.ToMapping();
    if Translatable(d.base) {
      AtOwnAddress(d.base, d.base);
    }
  }
}

/** The boards the kernel is built for: where linker.ld puts the kernel, which devices
    arch/arm64/memorymanager/board_devices.c lists, and what map the boot code then builds. */
module Board {
  import opened Numerals
  import opened Descriptors
  import opened Blocks
  import opened AddressMap
  import opened PageTables

  const KERNEL_START: bv64 := 0x8200_0000
  const PAGE_TABLE_PAGES := 5
  const HEAP_END: bv64 := KERNEL_START + 0x2000_0000

  const MT_DEVICE_nGnRnE: bv64 := 3
  const SH_OUTER: bv64 := 2 << 8

  /** Device memory, readable and writable by the kernel only, outer shareable, never executable. */
  const DEVICE_ATTRIBUTES := Attributes(3, 0, 2, false, true, true)

  function Registers(base: bv64, size: bv64): Device {
    Device(base, size, MT_DEVICE_nGnRnE, AP_RW_EL1, SH_OUTER, PTE_PXN, PTE_UXN)
  }

  function Uart(qemu: bool): Device {
    Registers(if qemu then 0x0900_0000 else 0x0286_0000, 0x1000)
  }

  function Distributor(qemu: bool): Device {
    Registers(if qemu then 0x0800_0000 else 0x0180_0000, 0x1_0000)
  }

  function Redistributor(qemu: bool): Device {
    Registers(if qemu then 0x080A_0000 else 0x0188_0000, 0xC_0000)
  }

  function EarlyDeviceMap(qemu: bool): seq<Device> {
    [Uart(qemu), Distributor(qemu), Redistributor(qemu)]
  }

  /** The kernel ends in its first region. */
  predicate Ends(last: bv64) {
    KERNEL_START <= last < 0xC000_0000
  }

  lemma RegistersMapping(base: bv64, size: bv64)
    ensures Registers(base, size).Legal() && Registers(base, size).base == base
    ensures Registers(base, size).ToMapping().Attrs() == DEVICE_ATTRIBUTES
  {
  }

  lemma DeviceRegionsOf(qemu: bool)
    ensures L1Index(Uart(qemu).base) == 0
    ensures L1Index(Distributor(qemu).base) == 0 && L1Index(Redistributor(qemu).base) == 0
    ensures L1Index(KERNEL_START) == 2
  {
  }

  /** offset is that of a byte of the device's registers. */
  predicate OfDevice(d: Device, offset: bv64) {
    offset < d.size
  }

  predicate SmallOffsets(base: bv64, offset: bv64) {
    base < 0x1000_0000 && base & 0x1F_FFFF <= 0xA_0000 && offset < 0xC_0000
  }

  lemma FitsItsBlock(base: bv64, offset: bv64)
    requires SmallOffsets(base, offset)
    ensures Translatable(Add(base, offset)) && SameBlock(base, Add(base, offset))
  {
  }

  lemma DeviceBounds(qemu: bool, d: Device, offset: bv64)
    requires d in EarlyDeviceMap(qemu) && OfDevice(d, offset)
    ensures SmallOffsets(d.base, offset)
  {
  }

  /** Every register of every listed device is in the one block that is mapped for it. */
  lemma DeviceFitsItsBlock(qemu: bool, d: Device, offset: bv64)
    requires d in EarlyDeviceMap(qemu) && OfDevice(d, offset)
    ensures Translatable(Add(d.base, offset)) && SameBlock(d.base, Add(d.base, offset))
  {
    hide SameBlock, Translatable, EarlyDeviceMap, SmallOffsets, OfDevice, Add;
    DeviceBounds(qemu, d, offset);
    FitsItsBlock(d.base, offset);
  }

  lemma KernelStart(last: bv64)
    requires Ends(last)
    ensures KernelFits(KERNEL_START, last)
  {
  }

  lemma BoardOwners(qemu: bool)
    ensures OwnersAfter([L1Index(KERNEL_START)], EarlyDeviceMap(qemu)) == [2, 0]
  {
    hide L1Index;
    var devs, owners := EarlyDeviceMap(qemu), [L1Index(KERNEL_START)];
    DeviceRegionsOf(qemu);
    NoDeviceYet(owners, devs, []);
    OneMoreDevice(owners, devs, 0, []);
    OneMoreDevice(owners, devs, 1, []);
    OneMoreDevice(owners, devs, 2, []);
    assert devs[..3] == devs;
  }

  /** Both boards meet what `EarlyMmuInit` asks for; three of the five pages are used. */
  lemma BoardMeetsRequirements(qemu: bool, last: bv64)
    requires Ends(last)
    ensures KernelFits(KERNEL_START, last)
    ensures forall d :: d in EarlyDeviceMap(qemu) ==> d.Legal() && Translatable(d.base)
    ensures 1 + |OwnersAfter([L1Index(KERNEL_START)], EarlyDeviceMap(qemu))| == 3 <= PAGE_TABLE_PAGES
  {
    KernelStart(last);
    BoardOwners(qemu);
  }

  /** va is in the block of a listed device. */
  predicate NearDevice(qemu: bool, va: bv64) {
    exists d :: d in EarlyDeviceMap(qemu) && SameBlock(d.base, va)
  }

  lemma {:induction false} DeviceAtSome(devs: seq<Device>, va: bv64)
    ensures DeviceAt(devs, va).Some? <==> exists d :: d in devs && SameBlock(d.base, va)
    ensures DeviceAt(devs, va).Some? ==> DeviceAt(devs, va).value in devs
  {
    hide SameBlock;
    if devs == [] {
    } else {
      DeviceAtSome(devs[..|devs| - 1], va);
      assert devs == devs[..|devs| - 1] + [devs[|devs| - 1]];
    }
  }

  /** The blocks of the devices: on the emulated board those of 0x08000000 and 0x09000000, on the hardware those of
      0x01800000 and 0x02800000. */
  predicate InDeviceBlock(qemu: bool, va: bv64) {
    if qemu then 0x0800_0000 <= va < 0x0820_0000 || 0x0900_0000 <= va < 0x0920_0000
    else 0x0180_0000 <= va < 0x01A0_0000 || 0x0280_0000 <= va < 0x02A0_0000
  }

  lemma NearDeviceIff(qemu: bool, va: bv64)
    requires Translatable(va)
    ensures NearDevice(qemu, va) <==> InDeviceBlock(qemu, va)
  {
    hide SameBlock, InDeviceBlock;
    SameBlockAs(qemu, va);
    assert Uart(qemu) in EarlyDeviceMap(qemu);
    assert Distributor(qemu) in EarlyDeviceMap(qemu);
  }

  lemma SameBlockAs(qemu: bool, va: bv64)
    requires Translatable(va)
    ensures SameBlock(Distributor(qemu).base, va) <==> SameBlock(Redistributor(qemu).base, va)
    ensures SameBlock(Uart(qemu).base, va) || SameBlock(Distributor(qemu).base, va) <==> InDeviceBlock(qemu, va)
  {
  }

  lemma AllDevicesAlike(qemu: bool)
    ensures forall d :: d in EarlyDeviceMap(qemu) ==> d.ToMapping().Attrs() == DEVICE_ATTRIBUTES
  {
    hide Mapping.Attrs, Device.ToMapping;
    RegistersMapping(Uart(qemu).base, Uart(qemu).size);
    RegistersMapping(Distributor(qemu).base, Distributor(qemu).size);
    RegistersMapping(Redistributor(qemu).base, Redistributor(qemu).size);
  }

  /** The map of a board: the devices' blocks as device memory, the kernel's blocks as normal memory, and a
      fault for every other address. */
  lemma BoardMap(qemu: bool, last: bv64, va: bv64)
    requires Ends(last) && Translatable(va)
    ensures KernelFits(KERNEL_START, last)
    ensures Lookup(KernelMap(KERNEL_START, last) + DeviceBlocks(EarlyDeviceMap(qemu)), va)
         == if InDeviceBlock(qemu, va) then Mapped(va, DEVICE_ATTRIBUTES)
            else if InKernelBlock(KERNEL_START, last, va) then Mapped(va, KERNEL_ATTRIBUTES)
            else TranslationFault
  {
    hide Lookup, SameBlock, InKernelBlock, KernelFits, KernelMap, DeviceBlocks, DeviceAt, Ends, Translatable,
         Mapping.Attrs, Device.Legal, Device.ToMapping, EarlyDeviceMap, InDeviceBlock;
    var devs := EarlyDeviceMap(qemu);
    BoardMeetsRequirements(qemu, last);
    MapByMappings(KERNEL_START, last, devs, va);
    DeviceAtSome(devs, va);
    NearDeviceIff(qemu, va);
    AllDevicesAlike(qemu);
  }

  /** Of the memory above the kernel that the boot code gives to the allocator, only the rest of the
      kernel's last block is mapped. */
  lemma HeapMappedIff(qemu: bool, last: bv64, va: bv64)
    requires Ends(last) && last < va < HEAP_END
    ensures KernelFits(KERNEL_START, last)
    ensures Lookup(KernelMap(KERNEL_START, last) + DeviceBlocks(EarlyDeviceMap(qemu)), va)
         == if SameBlock(last, va) then Mapped(va, KERNEL_ATTRIBUTES) else TranslationFault
  {
    hide Lookup, KernelMap, DeviceBlocks, InKernelBlock;
    BoardMap(qemu, last, va);
    HeapIsFarFromDevices(qemu, last, va);
    AboveKernel(last, va);
  }

  lemma HeapIsFarFromDevices(qemu: bool, last: bv64, va: bv64)
    requires Ends(last) && last < va < HEAP_END
    ensures Translatable(va) && L1Index(va) == L1Index(last) == L1Index(KERNEL_START) && !InDeviceBlock(qemu, va)
  {
  }

  lemma AboveKernel(last: bv64, va: bv64)
    requires Ends(last) && last < va < HEAP_END
    ensures InKernelBlock(KERNEL_START, last, va) <==> SameBlock(last, va)
  {
    hide L1Index, L2Index, InKernelBlock, SameBlock;
    SameBlockIff(last, va);
    KernelStart(last);
    HeapIsFarFromDevices(true, last, va);
    InKernelIffSlot(KERNEL_START, last, va);
    SlotOrderWord(KERNEL_START, last);
    SlotOrderWord(last, va);
  }
}

/** The descriptor and index macros of arch/arm64/memorymanager/mmu.c, and how a VMSAv8-64 walker reads
    what they produce (Arm ARM DDI 0487, translation table descriptor formats, 4 KiB granule). */
module Descriptors {
  // ----- The macros -----

  const PTE_VALID: bv64 := 1
  const PTE_NEXT_TABLE: bv64 := 3
  const PTE_ADDR_MASK_PA: bv64 := 0xFF_FFFF_FFFF
  const PTE_AF: bv64 := 1 << 10
  const AP_RW_EL1: bv64 := 0
  const SH_INNER: bv64 := 3 << 8
  const PTE_PXN: bv64 := 1 << 53
  const PTE_UXN: bv64 := 1 << 54
  const L2_BLOCK_SIZE: bv64 := 1 << 21
  const PAGE_SIZE: bv64 := 1 << 12
  const TABLE_ADDR_MASK: bv64 := MakeDescAddrPage(0xFFFF_FFFF_FFFF_FFFF)

  function L1Index(va: bv64): bv9 {
    ((va >> 30) & 0x1FF) as bv9
  }

  function L2Index(va: bv64): bv9 {
    ((va >> 21) & 0x1FF) as bv9
  }

  function MakeDescAddrPage(pa: bv64): bv64 {
    pa & (PTE_ADDR_MASK_PA & !0xFFF)
  }

  function MakeDescAddrL2(pa: bv64): bv64 {
    pa & (PTE_ADDR_MASK_PA & !0x1F_FFFF)
  }

  function PteAttrIndx(x: bv64): bv64 {
    (x & 7) << 2
  }

  function BlockDesc(pa: bv64, attrIndx: bv64, ap: bv64, sh: bv64, af: bv64, ng: bv64, pxn: bv64, uxn: bv64): bv64 {
    PTE_VALID | MakeDescAddrL2(pa) | PteAttrIndx(attrIndx) | ap | sh | af | ng | pxn | uxn
  }

  function TableDesc(pa: bv64): bv64 {
    PTE_NEXT_TABLE | MakeDescAddrPage(pa)
  }

  // ----- The walker's view -----

  /** The walker's level 1 index, bits 38:30 of an address, and its level 2 index, bits 29:21. */
  function WalkIndex1(va: bv64): bv9 {
    ((va & 0x7F_C000_0000) >> 30) as bv9
  }

  function WalkIndex2(va: bv64): bv9 {
    ((va & 0x3FE0_0000) >> 21) as bv9
  }

  /** The macros compute the walker's indexes. */
  lemma IndexesAgree(va: bv64)
    ensures L1Index(va) == WalkIndex1(va) && L2Index(va) == WalkIndex2(va)
  {
  }

  /** Bits 1:0 of a descriptor at level 1 or 2. */
  datatype Kind = Invalid | Block | Table

  function KindOf(d: bv64): Kind {
    if d & 1 == 0 then Invalid else if d & 2 == 0 then Block else Table
  }

  /** The next-level table address, bits 47:12. */
  function NextTable(d: bv64): bv64 {
    d & 0xFFFF_FFFF_F000
  }

  /** The output address of a 2 MiB block, bits 47:21. */
  function OutputAddress(d: bv64): bv64 {
    d & 0xFFFF_FFE0_0000
  }

  /** The attribute fields of a block descriptor: AttrIndx in bits 4:2, AP in 7:6, SH in 9:8, nG in 11,
      PXN in 53, UXN in 54. */
  datatype Attributes = Attributes(attrIndx: bv64, ap: bv64, sh: bv64, notGlobal: bool, pxn: bool, uxn: bool)

  function AttributesOf(d: bv64): Attributes {
    Attributes((d >> 2) & 7, (d >> 6) & 3, (d >> 8) & 3,
               (d >> 11) & 1 == 1, (d >> 53) & 1 == 1, (d >> 54) & 1 == 1)
  }

  predicate Accessed(d: bv64) {
    (d >> 10) & 1 == 1
  }

  /** The walk translates 39-bit addresses. */
  predicate Translatable(va: bv64) {
    va < 0x80_0000_0000
  }

  /** The output address size is 40 bits. */
  predicate InPhysicalRange(pa: bv64) {
    pa < 0x100_0000_0000
  }

  // ----- What the macros encode -----

  /** The field values the AP_, SH_, PTE_PXN and PTE_UXN macros can produce. */
  predicate LegalFields(ap: bv64, sh: bv64, pxn: bv64, uxn: bv64) {
    ap & !0xC0 == 0 && sh & !0x300 == 0 && pxn & !PTE_PXN == 0 && uxn & !PTE_UXN == 0
  }

  /** No field of a block descriptor spills into another: whatever the address and the legal field values,
      the walker sees a block at the address's 2 MiB block, with those values, and nothing else set. */
  lemma BlockDescDecodes(pa: bv64, attrIndx: bv64, ap: bv64, sh: bv64, pxn: bv64, uxn: bv64)
    requires LegalFields(ap, sh, pxn, uxn)
    ensures var d := BlockDesc(pa, attrIndx, ap, sh, PTE_AF, 0, pxn, uxn);
      && KindOf(d) == Block
      && OutputAddress(d) == pa & 0xFF_FFE0_0000
      && Accessed(d)
      && AttributesOf(d) == Attributes(attrIndx & 7, ap >> 6, sh >> 8, false, pxn != 0, uxn != 0)
      && d & 0xFF9F_FF00_001F_F820 == 0
  {
  }

  /** In particular a 2 MiB aligned address below 2^40 comes back unchanged. */
  lemma BlockAddressRoundTrip(pa: bv64, attrIndx: bv64, ap: bv64, sh: bv64, pxn: bv64, uxn: bv64)
    requires LegalFields(ap, sh, pxn, uxn) && pa & 0x1F_FFFF == 0 && InPhysicalRange(pa)
    ensures OutputAddress(BlockDesc(pa, attrIndx, ap, sh, PTE_AF, 0, pxn, uxn)) == pa
  {
    BlockDescDecodes(pa, attrIndx, ap, sh, pxn, uxn);
  }

  /** A page-aligned table address below 2^40 comes back from its descriptor, both by the walker's rule and
      by the mask `map_devices` uses; the descriptor is a valid table descriptor. */
  lemma TableDescRoundTrip(pa: bv64)
    requires pa & 0xFFF == 0 && InPhysicalRange(pa)
    ensures KindOf(TableDesc(pa)) == Table && TableDesc(pa) & PTE_VALID != 0
    ensures NextTable(TableDesc(pa)) == pa
    ensures TableDesc(pa) & TABLE_ADDR_MASK == pa
  {
  }
}

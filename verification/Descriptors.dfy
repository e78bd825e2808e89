/** Page-table descriptors and the virtual-address indexer, bit for bit.

    A descriptor is one 64-bit entry of a paging table: bits 12..51 hold a frame
    address and bits 0..11 hold flags (sections 4.5 and 4.6 of the Intel SDM,
    Volume 3A). Bit 0 is PRESENT, bit 1 WRITE and bit 2 USER. */
module Descriptors {

  /** A 64-bit word: a descriptor, an address or a set of flags. */
  datatype Word = Word(bits: bv64)

  /** An index into a paging table of 512 entries. */
  datatype Index = Index(bits: bv9)

  function GetAddress(d: Word): Word {
    Word(d.bits & 0x000f_ffff_ffff_f000)
  }

  predicate GetFlag(d: Word, flag: bv64) {
    d.bits & flag != 0
  }

  /** The source ORs the address in: bits that are already set stay set. */
  function SetAddress(d: Word, address: Word): Word {
    Word(d.bits | (address.bits & 0x000f_ffff_ffff_f000))
  }

  function SetFlag(d: Word, flag: bv64, value: bool): Word {
    Word(if value then (d.bits & !flag) | flag else d.bits & !flag)
  }

  function SetFlags(d: Word, flags: Word): Word {
    Word((d.bits & !0xfff) | flags.bits)
  }

  function OrFlags(d: Word, flags: Word): Word {
    Word(d.bits | flags.bits)
  }

  predicate Present(d: Word) {
    GetFlag(d, 0x001)
  }

  /** The low twelve bits, where every flag this kernel uses lives. */
  function Low(d: Word): Word {
    Word(d.bits & 0xfff)
  }

  /** PAGING_FLAGS_KERNEL_PAGE: present and writable. */
  function KernelPage(): Word {
    Word(0x003)
  }

  /** Only address and flag bits are set. */
  predicate Clean(d: Word) {
    d.bits & 0xfff0_0000_0000_0000 == 0
  }

  /** Every bit of `a` is also set in `b`. */
  predicate Within(a: Word, b: Word) {
    a.bits & b.bits == a.bits
  }

  /** A descriptor that points at `frame` with the flags `flags`. */
  function Leaf(frame: Word, flags: Word): Word {
    Word((frame.bits & 0x000f_ffff_ffff_f000) | (flags.bits & 0xfff))
  }

  /** The word written over an absent upper-level entry. */
  function NewTableEntry(d: Word, table: Word, flags: Word): Word {
    OrFlags(SetFlag(SetAddress(d, table), 0x001, true), flags)
  }

  /** The word written into the last level. */
  function NewLeafEntry(d: Word, phys: Word, flags: Word): Word {
    SetFlags(SetFlag(SetAddress(d, phys), 0x001, true), flags)
  }

  lemma NewTableEntryPoints(table: Word, flags: Word)
    requires GetAddress(table) == table && Low(flags) == flags
    ensures NewTableEntry(Word(0), table, flags).bits & 0x001 != 0 && Present(NewTableEntry(Word(0), table, flags))
    ensures GetAddress(NewTableEntry(Word(0), table, flags)) == table
    ensures Clean(NewTableEntry(Word(0), table, flags))
    ensures Within(flags, NewTableEntry(Word(0), table, flags))
  {
  }

  /** Since the address is ORed in, mapping over a leaf gives the wanted frame exactly
      when the bits of the old frame all belong to the new one. */
  lemma NewLeafEntryPoints(d: Word, phys: Word, flags: Word)
    requires Clean(d) && Low(flags) == flags
    ensures NewLeafEntry(d, phys, flags) == Leaf(phys, flags) <==> Within(GetAddress(d), phys)
  {
    if Within(GetAddress(d), phys) {
      assert NewLeafEntry(d, phys, flags) == Leaf(phys, flags);
    } else {
      assert NewLeafEntry(d, phys, flags) != Leaf(phys, flags);
    }
  }

  /** It can go wrong: mapped over frame 0x3000, frame 0x5000 becomes 0x7000. */
  lemma NewLeafEntryMixes()
    ensures GetAddress(NewLeafEntry(Leaf(Word(0x3000), KernelPage()), Word(0x5000), KernelPage())) == Word(0x7000)
  {
  }

  lemma NewLeafEntryFlags(d: Word, phys: Word, flags: Word)
    requires Low(flags) == flags
    ensures Low(NewLeafEntry(d, phys, flags)) == flags
  {
  }

  lemma NewLeafEntryClean(d: Word, phys: Word, flags: Word)
    requires Clean(d) && Low(flags) == flags
    ensures Clean(NewLeafEntry(d, phys, flags))
  {
  }

  lemma LeafFields(frame: Word, flags: Word)
    ensures GetAddress(Leaf(frame, flags)) == GetAddress(frame)
    ensures Low(Leaf(frame, flags)) == Low(flags)
  {
  }

  /** The address and the flags of a word put together from a frame, flags and bits the kernel does not
      look at. */
  lemma FieldsRead(top: bv64, frame: bv64, flags: bv64)
    requires top & 0xfff0_0000_0000_0000 == top && frame & 0x000f_ffff_ffff_f000 == frame && flags < 0x1000
    ensures GetAddress(Word(top | frame | flags)) == Word(frame) && Low(Word(top | frame | flags)) == Word(flags)
  {
  }

  /** The bits of a 16-bit set of flags that reach into the address. */
  function High(flags: Word): Word {
    Word(flags.bits & 0xf000)
  }

  predicate Sixteen(flags: Word) {
    flags.bits & 0xffff == flags.bits
  }

  /** `paging_desc_set_flags` on one descriptor: the frame stays exactly when the flag bits above the
      low twelve are already part of it. */
  lemma SetFlagsKeepsFrame(d: Word, flags: Word)
    requires Sixteen(flags)
    ensures GetAddress(SetFlags(d, flags)) == GetAddress(d) <==> Within(High(flags), d)
  {
  }

  /** The same for flags ORed into a descriptor. */
  lemma OrFlagsKeepsFrame(d: Word, flags: Word)
    requires Sixteen(flags)
    ensures GetAddress(OrFlags(d, flags)) == GetAddress(d) <==> Within(High(flags), d)
  {
  }

  /** Neither clears an address bit. */
  lemma AddressOnlyGrows(d: Word, flags: Word)
    ensures Within(GetAddress(d), GetAddress(OrFlags(d, flags)))
    ensures Within(GetAddress(d), GetAddress(SetFlags(d, flags)))
  {
  }

  lemma WithinBothWays(a: Word, b: Word)
    requires Within(a, b) && Within(b, a)
    ensures a == b
  {
  }

  lemma FlagsKeepClean(d: Word, flags: Word)
    requires Sixteen(flags) && Clean(d)
    ensures Clean(OrFlags(d, flags)) && Clean(SetFlags(d, flags))
  {
  }

  lemma SetFlagsLowTwelve(d: Word, flags: Word)
    requires Sixteen(flags)
    ensures Low(SetFlags(d, flags)) == Low(flags)
  {
  }

  lemma WithinLow(flags: Word, d: Word)
    requires Within(flags, d)
    ensures Within(Low(flags), d)
  {
  }

  /** Flags below 0x1000 reach into no address. */
  lemma LowFlagsFit(flags: Word)
    requires Low(flags) == flags
    ensures Sixteen(flags) && High(flags) == Word(0) && forall w :: Within(High(flags), w)
  {
  }

  /** Writing a word's own address and flags into an empty entry copies the word. */
  lemma CopyDescriptor(d: Word)
    requires Clean(d)
    ensures NewLeafEntry(Word(0), GetAddress(d), Low(d)) == d
  {
  }

  lemma OrFlagsGrows(d: Word, flags: Word)
    ensures Within(d, OrFlags(d, flags))
  {
  }

  lemma OrFlagsIncludes(d: Word, flags: Word)
    ensures Within(flags, OrFlags(d, flags))
  {
  }

  /** What an entry's flags may become when `flags` are asked for: those and what it had, and the 0x001 and
      0x002 of the kernel's own pages. */
  predicate GainsAtMost(d: Word, e: Word, flags: Word) {
    Low(e).bits & !(Low(d).bits | flags.bits | 0x003) == 0
  }

  lemma GainsFlags(d: Word, flags: Word)
    ensures GainsAtMost(d, OrFlags(d, flags), flags) && GainsAtMost(d, d, flags)
  {
  }

  lemma GainsEntry(d: Word, table: Word, flags: Word)
    ensures GainsAtMost(d, NewTableEntry(d, table, flags), flags)
  {
  }

  lemma GainsOn(d: Word, e: Word, e': Word, flags: Word)
    requires GainsAtMost(d, e, flags) && GainsAtMost(e, e', flags)
    ensures GainsAtMost(d, e', flags)
  {
  }

  /** A kernel page's flags are among those anyway. */
  lemma GainsKernel(d: Word, e: Word, flags: Word)
    requires GainsAtMost(d, e, Low(KernelPage()))
    ensures GainsAtMost(d, e, flags)
  {
  }

  /** And no bit that is in neither. */
  lemma OrFlagsAddsNoMore(d: Word, flags: Word, w: Word)
    requires Within(d, w) && Within(flags, w)
    ensures Within(OrFlags(d, flags), w)
  {
  }

  lemma WithinPresent(d: Word, e: Word)
    requires Present(d) && Within(d, e)
    ensures Present(e)
  {
  }

  lemma WithinTransitive(a: Word, b: Word, c: Word)
    requires Within(a, b) && Within(b, c)
    ensures Within(a, c)
  {
  }

  lemma WithinReflexive()
    ensures forall w :: Within(w, w)
  {
  }

  lemma KernelPageIsLow()
    ensures Low(KernelPage()) == KernelPage()
  {
  }

  /** The flags of a page of the kernel's own: present, writable, closed to user code, and no other. */
  predicate Supervisor(d: Word) {
    d.bits & 0x001 != 0 && d.bits & 0x002 != 0 && d.bits & 0x004 == 0 && d.bits & 0xff8 == 0
  }

  lemma KernelLeafIsSupervisor(frame: Word)
    ensures Supervisor(Leaf(frame, KernelPage()))
  {
  }

  lemma SupervisorLow(d: Word, e: Word)
    requires Low(d) == Low(e)
    ensures Supervisor(d) <==> Supervisor(e)
  {
  }

  lemma GetAddressTwice(d: Word)
    ensures GetAddress(GetAddress(d)) == GetAddress(d)
  {
  }

  lemma LowOfLow(d: Word)
    ensures Low(Low(d)) == Low(d)
  {
  }

  lemma ZeroWord()
    ensures !Present(Word(0)) && GetAddress(Word(0)) == Word(0) && Low(Word(0)) == Word(0) && Clean(Word(0))
    ensures forall w :: Within(Word(0), w)
  {
  }

  /** The four table indices of a virtual address. */
  datatype Indexer = Indexer(pml4: Index, pml3: Index, pml2: Index, pml1: Index)

  function Pml1Bits(a: bv64): bv9 {
    ((a >> 12) & 0x1ff) as bv9
  }

  function Pml2Bits(a: bv64): bv9 {
    ((a >> 12 >> 9) & 0x1ff) as bv9
  }

  function Pml3Bits(a: bv64): bv9 {
    ((a >> 12 >> 9 >> 9) & 0x1ff) as bv9
  }

  function Pml4Bits(a: bv64): bv9 {
    ((a >> 12 >> 9 >> 9 >> 9) & 0x1ff) as bv9
  }

  function Assign(address: Word): Indexer {
    Indexer(Index(Pml4Bits(address.bits)), Index(Pml3Bits(address.bits)),
            Index(Pml2Bits(address.bits)), Index(Pml1Bits(address.bits)))
  }

  /** The two addresses agree on bits 12..47. */
  predicate SamePage(a: bv64, b: bv64) {
    a & 0x0000_ffff_ffff_f000 == b & 0x0000_ffff_ffff_f000
  }

  /** Each index, in its place, is nine bits of the address. */
  lemma AssignReads(a: Word)
    ensures var x := Assign(a);
            && (x.pml4.bits as bv64) << 39 == a.bits & 0x0000_ff80_0000_0000
            && (x.pml3.bits as bv64) << 30 == a.bits & 0x0000_007f_c000_0000
            && (x.pml2.bits as bv64) << 21 == a.bits & 0x0000_0000_3fe0_0000
            && (x.pml1.bits as bv64) << 12 == a.bits & 0x0000_0000_001f_f000
  {
  }

  lemma IndicesRead(a: bv64, b: bv64)
    requires SamePage(a, b)
    ensures Pml1Bits(a) == Pml1Bits(b) && Pml2Bits(a) == Pml2Bits(b)
    ensures Pml3Bits(a) == Pml3Bits(b) && Pml4Bits(a) == Pml4Bits(b)
  {
  }

  lemma IndicesDetermine(a: bv64, b: bv64)
    requires Pml1Bits(a) == Pml1Bits(b) && Pml2Bits(a) == Pml2Bits(b)
    requires Pml3Bits(a) == Pml3Bits(b) && Pml4Bits(a) == Pml4Bits(b)
    ensures SamePage(a, b)
  {
  }

  lemma AssignInjective(a: Word, b: Word)
    ensures Assign(a) == Assign(b) <==> SamePage(a.bits, b.bits)
  {
    hide Pml1Bits, Pml2Bits, Pml3Bits, Pml4Bits, SamePage;
    if SamePage(a.bits, b.bits) {
      IndicesRead(a.bits, b.bits);
    }
    if Assign(a) == Assign(b) {
      IndicesDetermine(a.bits, b.bits);
    }
  }

  /** Bits 47..63 all equal: the addresses the processor accepts. */
  predicate Canonical(a: Word) {
    a.bits & 0xffff_8000_0000_0000 == 0 || a.bits & 0xffff_8000_0000_0000 == 0xffff_8000_0000_0000
  }

  predicate PageAligned(a: Word) {
    a.bits & 0xfff == 0
  }

  lemma CanonicalPagesDistinct(a: Word, b: Word)
    requires Canonical(a) && Canonical(b) && PageAligned(a) && PageAligned(b)
    ensures Assign(a) == Assign(b) <==> a == b
  {
  }

  /** A page frame the kernel can use as an identity-mapped table: page aligned, not NULL, and
      in the lower half of the canonical address space. */
  predicate UsableFrame(f: Word) {
    f.bits != 0 && f.bits & 0x0000_7fff_ffff_f000 == f.bits
  }

  lemma UsableFrameAddress(f: Word)
    requires UsableFrame(f)
    ensures GetAddress(f) == f
  {
  }

  lemma UsableFramesDistinct(f: Word, g: Word)
    requires UsableFrame(f) && UsableFrame(g) && Assign(f) == Assign(g)
    ensures f == g
  {
  }

  lemma UsableFrameIsCanonical(f: Word)
    requires UsableFrame(f)
    ensures Canonical(f) && PageAligned(f)
  {
  }

  /** What the processor grants along a walk: the AND of the entries (section 4.6 of the Intel SDM). */
  function Granted(a: Word, b: Word, c: Word, d: Word): Word {
    Word(a.bits & b.bits & c.bits & d.bits)
  }

  lemma GrantedByLeaf(a: Word, b: Word, c: Word, d: Word)
    requires Within(Low(d), a) && Within(Low(d), b) && Within(Low(d), c)
    ensures Low(Granted(a, b, c, d)) == Low(d)
  {
  }

  // ------------------------------------------------------------ the boot-time map

  /** The address one page further on. */
  function NextPage(t: Word): Word {
    Word(t.bits + 0x1000)
  }

  function Plus(a: Word, b: Word): Word {
    Word(a.bits + b.bits)
  }

  /** 0x1000 further on is a page further on. */
  lemma PlusPage(a: Word)
    ensures Plus(a, Word(0x1000)) == NextPage(a) && Plus(a, Word(0)) == a
  {
  }

  predicate Before(a: Word, b: Word) {
    a.bits < b.bits
  }

  /** PAGING_VIRTUAL_OFFSET added: the second, upper-half address of a page of memory. */
  function HighAlias(t: Word): Word {
    Word(t.bits + 0xffff_8000_0000_0000)
  }

  /** The alias lies 128 TiB below the end of the address space: it is canonical, in the half with the top
      index bit set, and names the same place in its tables. */
  lemma AliasReads(t: Word)
    requires UsableFrame(t)
    ensures Canonical(HighAlias(t)) && HighAlias(t).bits & 0x0000_7fff_ffff_ffff == t.bits
    ensures HighAlias(t).bits & 0x8000_0000_0000_0000 != 0
  {
  }

  /** The frame whose own page has the indices `x`, or whose upper-half alias has. */
  function FrameOf(x: Indexer): Word {
    Word(((x.pml4.bits & 0xff) as bv64 << 39) | (x.pml3.bits as bv64 << 30)
         | (x.pml2.bits as bv64 << 21) | (x.pml1.bits as bv64 << 12))
  }

  lemma FrameOfPage(t: Word)
    requires UsableFrame(t)
    ensures FrameOf(Assign(t)) == t
  {
  }

  lemma FrameOfAlias(t: Word)
    requires UsableFrame(t)
    ensures FrameOf(Assign(HighAlias(t))) == t
  {
  }

  lemma PageIsLow(t: Word)
    requires UsableFrame(t)
    ensures Assign(t).pml4 != Index(511)
  {
  }

  lemma AliasIsHigh(t: Word, f: Word)
    requires UsableFrame(t) && UsableFrame(f)
    ensures Assign(HighAlias(t)) != Assign(f)
  {
  }

  lemma AliasBelowKernel(t: Word)
    requires UsableFrame(t) && Assign(t).pml4 != Index(255)
    ensures Assign(HighAlias(t)).pml4 != Index(511)
  {
  }
}

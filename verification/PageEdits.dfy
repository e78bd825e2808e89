/** `paging_edit_page` for every 16-bit set of flags, which it does not mask. */
module PageEdits {
  import opened Wrappers
  import opened Descriptors
  import opened PageTree
  import opened PageSteps

  /** Memory after the call: two of the tables are looked up in entries that were just changed. */
  function Edited(m: Memory, root: Word, x: Indexer, flags: Word): Memory {
    var pdp := GetAddress(m(root, x.pml4));
    var m1 := Write(m, root, x.pml4, OrFlags(m(root, x.pml4), flags));
    var m2 := Write(m1, pdp, x.pml3, OrFlags(m1(pdp, x.pml3), flags));
    var pd := GetAddress(m2(pdp, x.pml3));
    var m3 := Write(m2, pd, x.pml2, OrFlags(m2(pd, x.pml2), flags));
    var pt := GetAddress(m3(pd, x.pml2));
    Write(m3, pt, x.pml1, SetFlags(m3(pt, x.pml1), flags))
  }

  /** The bits of the flags that reach into an address are already set in all four entries. */
  ghost predicate EditFits(m: Memory, root: Word, x: Indexer, flags: Word) {
    PathHas(m, root, x, High(flags)) && Within(High(flags), LeafAt(m, root, x))
  }

  /** The page keeps its frame, and every table stays where it is. */
  ghost predicate KeepsPage(m: Memory, m': Memory, root: Word, x: Indexer) {
    SameTables(m, m', root) && GetAddress(LeafAt(m', root, x)) == GetAddress(LeafAt(m, root, x))
  }

  /** No descriptor anywhere loses an address bit. */
  ghost predicate AddressesGrow(m: Memory, m': Memory) {
    forall t, i :: Within(GetAddress(m(t, i)), GetAddress(m'(t, i)))
  }

  lemma OneWriteGrows(m: Memory, t: Word, i: Index, w: Word)
    requires Within(GetAddress(m(t, i)), GetAddress(w))
    ensures AddressesGrow(m, Write(m, t, i, w))
  {
    hide GetAddress, Within;
    WithinReflexive();
  }

  lemma GrowOn(m: Memory, m': Memory, m'': Memory)
    requires AddressesGrow(m, m') && AddressesGrow(m', m'')
    ensures AddressesGrow(m, m'')
  {
    hide GetAddress, Within;
    forall t, i ensures Within(GetAddress(m(t, i)), GetAddress(m''(t, i))) {
      WithinTransitive(GetAddress(m(t, i)), GetAddress(m'(t, i)), GetAddress(m''(t, i)));
    }
  }

  /** When a descriptor's address is what it was before the flags came in, they fitted. */
  lemma GrewNothing(d: Word, flags: Word, later: Word)
    requires Sixteen(flags) && GetAddress(later) == GetAddress(d)
    requires Within(GetAddress(OrFlags(d, flags)), GetAddress(later))
    ensures Within(High(flags), d) && GetAddress(OrFlags(d, flags)) == GetAddress(d)
  {
    hide GetAddress, Within, OrFlags, High, Sixteen;
    AddressOnlyGrows(d, flags);
    WithinBothWays(GetAddress(OrFlags(d, flags)), GetAddress(d));
    OrFlagsKeepsFrame(d, flags);
  }

  /** The tables on the way to a page, and the entries that name them. */
  lemma Path(m: Memory, root: Word, x: Indexer)
    requires Tree(m, root) && TableOf(m, root, PtOf(x)).Some?
    ensures var a := m(root, x.pml4); var pdp := GetAddress(a);
            var b := m(pdp, x.pml3); var pd := GetAddress(b);
            var c := m(pd, x.pml2); var pt := GetAddress(c);
            && Present(a) && Present(b) && Present(c)
            && TableOf(m, root, Pdp(x.pml4)) == Some(pdp) && TableOf(m, root, Pd(x.pml4, x.pml3)) == Some(pd)
            && TableOf(m, root, PtOf(x)) == Some(pt)
            && a == Slot(m, root, Pml4, x.pml4) && b == Slot(m, root, Pdp(x.pml4), x.pml3)
            && c == Slot(m, root, Pd(x.pml4, x.pml3), x.pml2) && m(pt, x.pml1) == LeafAt(m, root, x)
            && root != pdp && root != pd && root != pt && pdp != pd && pdp != pt && pd != pt
  {
    hide GetAddress, Present, Clean;
    PathTables(m, root, x);
    RootTable(m, root);
    Unshared(m, root, Pml4, Pdp(x.pml4));
    Unshared(m, root, Pml4, Pd(x.pml4, x.pml3));
    Unshared(m, root, Pml4, PtOf(x));
    Unshared(m, root, Pdp(x.pml4), Pd(x.pml4, x.pml3));
    Unshared(m, root, Pdp(x.pml4), PtOf(x));
    Unshared(m, root, Pd(x.pml4, x.pml3), PtOf(x));
  }

  /** Address bits only come in, from each of the writes on. */
  lemma EditGrows(m: Memory, root: Word, x: Indexer, flags: Word)
    ensures var m' := Edited(m, root, x, flags);
            var pdp := GetAddress(m(root, x.pml4));
            var m1 := Write(m, root, x.pml4, OrFlags(m(root, x.pml4), flags));
            var m2 := Write(m1, pdp, x.pml3, OrFlags(m1(pdp, x.pml3), flags));
            var pd := GetAddress(m2(pdp, x.pml3));
            var m3 := Write(m2, pd, x.pml2, OrFlags(m2(pd, x.pml2), flags));
            AddressesGrow(m1, m') && AddressesGrow(m2, m') && AddressesGrow(m3, m')
  {
    hide GetAddress, Within, OrFlags, SetFlags, AddressesGrow, Write;
    var pdp := GetAddress(m(root, x.pml4));
    var m1 := Write(m, root, x.pml4, OrFlags(m(root, x.pml4), flags));
    var m2 := Write(m1, pdp, x.pml3, OrFlags(m1(pdp, x.pml3), flags));
    var pd := GetAddress(m2(pdp, x.pml3));
    var m3 := Write(m2, pd, x.pml2, OrFlags(m2(pd, x.pml2), flags));
    var pt := GetAddress(m3(pd, x.pml2));
    AddressOnlyGrows(m1(pdp, x.pml3), flags);
    OneWriteGrows(m1, pdp, x.pml3, OrFlags(m1(pdp, x.pml3), flags));
    AddressOnlyGrows(m2(pd, x.pml2), flags);
    OneWriteGrows(m2, pd, x.pml2, OrFlags(m2(pd, x.pml2), flags));
    AddressOnlyGrows(m3(pt, x.pml1), flags);
    OneWriteGrows(m3, pt, x.pml1, SetFlags(m3(pt, x.pml1), flags));
    GrowOn(m2, m3, Edited(m, root, x, flags));
    GrowOn(m1, m2, Edited(m, root, x, flags));
  }

  /** An entry that still names its table after the edit had room for the flags. */
  lemma EntryFits(m': Memory, n: Memory, table: Word, i: Index, d: Word, flags: Word)
    requires Sixteen(flags) && AddressesGrow(n, m') && n(table, i) == OrFlags(d, flags)
    requires GetAddress(m'(table, i)) == GetAddress(d)
    ensures Within(High(flags), d) && GetAddress(OrFlags(d, flags)) == GetAddress(d)
  {
    hide GetAddress, Within, OrFlags, High, Sixteen;
    GrewNothing(d, flags, m'(table, i));
  }

  lemma OnlyWhenItFits(m: Memory, root: Word, x: Indexer, flags: Word)
    requires Tree(m, root) && TableOf(m, root, PtOf(x)).Some? && Sixteen(flags)
    requires KeepsPage(m, Edited(m, root, x, flags), root, x)
    ensures EditFits(m, root, x, flags)
  {
    hide GetAddress, Present, Clean, Within, OrFlags, SetFlags, High, Sixteen, Tree, TableOf, Slot, AddressesGrow;
    Path(m, root, x);
    EditGrows(m, root, x, flags);
    var m' := Edited(m, root, x, flags);
    PathTables(m', root, x);
    var a := m(root, x.pml4);
    var pdp := GetAddress(a);
    var m1 := Write(m, root, x.pml4, OrFlags(a, flags));
    EntryFits(m', m1, root, x.pml4, a, flags);
    var b := m(pdp, x.pml3);
    var pd := GetAddress(b);
    var m2 := Write(m1, pdp, x.pml3, OrFlags(b, flags));
    EntryFits(m', m2, pdp, x.pml3, b, flags);
    var c := m(pd, x.pml2);
    var pt := GetAddress(c);
    var m3 := Write(m2, pd, x.pml2, OrFlags(c, flags));
    EntryFits(m', m3, pd, x.pml2, c, flags);
    SlotOfTable(m', root, PtOf(x), x.pml1);
    SetFlagsKeepsFrame(m(pt, x.pml1), flags);
  }

  /** The three upper-level entries took the flags, and no other entry changed. */
  ghost predicate PathGains(m: Memory, m': Memory, root: Word, x: Indexer, flags: Word) {
    forall p, i :: Upper(p) ==>
      Slot(m', root, p, i) == if OnPath(x, p, i) then OrFlags(Slot(m, root, p, i), flags) else Slot(m, root, p, i)
  }

  /** What a fitting edit does: the page's leaf takes the flags, its path gains them, nothing else
      moves, and the address space stays sound. */
  ghost predicate EditsLeaf(m: Memory, m': Memory, root: Word, x: Indexer, flags: Word) {
    && SameTables(m, m', root) && Grows(m, m', root) && PathHas(m', root, x, Low(flags))
    && PathGains(m, m', root, x, flags)
    && forall y :: LeafAt(m', root, y) == if y == x then SetFlags(LeafAt(m, root, y), flags) else LeafAt(m, root, y)
  }

  /** Memory after the three upper entries took the flags. */
  function Widened(m: Memory, root: Word, x: Indexer, flags: Word): Memory {
    var pdp := GetAddress(m(root, x.pml4));
    var pd := GetAddress(m(pdp, x.pml3));
    var m1 := Write(m, root, x.pml4, OrFlags(m(root, x.pml4), flags));
    var m2 := Write(m1, pdp, x.pml3, OrFlags(m(pdp, x.pml3), flags));
    Write(m2, pd, x.pml2, OrFlags(m(pd, x.pml2), flags))
  }

  lemma WidenedSound(m: Memory, root: Word, x: Indexer, flags: Word, frames: seq<Word>)
    requires Sound(m, root, frames) && TableOf(m, root, PtOf(x)).Some? && Sixteen(flags) && EditFits(m, root, x, flags)
    ensures var m' := Widened(m, root, x, flags);
            && Sound(m', root, frames) && SameTables(m, m', root) && Grows(m, m', root)
            && PathHas(m', root, x, Low(flags)) && PathGains(m, m', root, x, flags)
            && forall y :: LeafAt(m', root, y) == LeafAt(m, root, y)
  {
    hide GetAddress, Present, Clean, Low, Within, OrFlags, High, Sixteen, TableOf, Sound, Grows, Assign,
      UsableFrame, Write, LeafAt, PathGains, GainsOnly;
    SoundParts(m, root, frames);
    Path(m, root, x);
    RootTable(m, root);
    var a := m(root, x.pml4);
    var pdp := GetAddress(a);
    var m1 := Write(m, root, x.pml4, OrFlags(a, flags));
    WidenStep(m, m1, root, Pml4, x.pml4, flags, frames);
    var b := m(pdp, x.pml3);
    var m2 := Write(m1, pdp, x.pml3, OrFlags(b, flags));
    WidenStep(m1, m2, root, Pdp(x.pml4), x.pml3, flags, frames);
    var c := m(GetAddress(b), x.pml2);
    var m3 := Write(m2, GetAddress(b), x.pml2, OrFlags(c, flags));
    WidenStep(m2, m3, root, Pd(x.pml4, x.pml3), x.pml2, flags, frames);
    GrowsTransitive(m, m1, m2, root);
    GrowsTransitive(m, m2, m3, root);
    WithinLow(flags, OrFlags(a, flags));
    WithinLow(flags, OrFlags(b, flags));
    WithinLow(flags, OrFlags(c, flags));
    LeavesStay(m, m1, m2, m3, root, x, flags);
    PathSlots(m, m1, m2, m3, root, x, flags);
  }

  lemma LeavesStay(m: Memory, m1: Memory, m2: Memory, m3: Memory, root: Word, x: Indexer, flags: Word)
    requires OneSlot(m, m1, root, Pml4, x.pml4, OrFlags(Slot(m, root, Pml4, x.pml4), flags))
    requires var p := Pdp(x.pml4); OneSlot(m1, m2, root, p, x.pml3, OrFlags(Slot(m1, root, p, x.pml3), flags))
    requires var p := Pd(x.pml4, x.pml3); OneSlot(m2, m3, root, p, x.pml2, OrFlags(Slot(m2, root, p, x.pml2), flags))
    ensures forall y :: LeafAt(m3, root, y) == LeafAt(m, root, y)
  {
    hide OrFlags, Slot;
  }

  lemma PathSlots(m: Memory, m1: Memory, m2: Memory, m3: Memory, root: Word, x: Indexer, flags: Word)
    requires OneSlot(m, m1, root, Pml4, x.pml4, OrFlags(Slot(m, root, Pml4, x.pml4), flags))
    requires var p := Pdp(x.pml4); OneSlot(m1, m2, root, p, x.pml3, OrFlags(Slot(m1, root, p, x.pml3), flags))
    requires var p := Pd(x.pml4, x.pml3); OneSlot(m2, m3, root, p, x.pml2, OrFlags(Slot(m2, root, p, x.pml2), flags))
    ensures PathGains(m, m3, root, x, flags)
  {
    hide OrFlags, Slot;
  }

  lemma EditedIs(m: Memory, root: Word, x: Indexer, flags: Word)
    requires Tree(m, root) && TableOf(m, root, PtOf(x)).Some? && Sixteen(flags) && EditFits(m, root, x, flags)
    ensures var pt := TableOf(m, root, PtOf(x)).value;
            Edited(m, root, x, flags)
              == Write(Widened(m, root, x, flags), pt, x.pml1, SetFlags(LeafAt(m, root, x), flags))
  {
    hide GetAddress, Present, Clean, Within, OrFlags, SetFlags, High, Sixteen, Tree, TableOf, Slot, Write;
    Path(m, root, x);
    var a := m(root, x.pml4);
    var pdp := GetAddress(a);
    var b := m(pdp, x.pml3);
    var pd := GetAddress(b);
    var c := m(pd, x.pml2);
    var m1 := Write(m, root, x.pml4, OrFlags(a, flags));
    var m2 := Write(m1, pdp, x.pml3, OrFlags(b, flags));
    OrFlagsKeepsFrame(b, flags);
    OrFlagsKeepsFrame(c, flags);
    ReadAfter(m, root, x.pml4, OrFlags(a, flags));
    ReadAfter(m1, pdp, x.pml3, OrFlags(b, flags));
    ReadAfter(m2, pd, x.pml2, OrFlags(c, flags));
  }

  lemma ReadAfter(m: Memory, t: Word, i: Index, w: Word)
    ensures forall t', i' :: Write(m, t, i, w)(t', i') == if t' == t && i' == i then w else m(t', i')
  {
  }

  lemma EditSound(m: Memory, root: Word, x: Indexer, flags: Word, frames: seq<Word>)
    requires Sound(m, root, frames) && TableOf(m, root, PtOf(x)).Some? && Sixteen(flags) && EditFits(m, root, x, flags)
    ensures var m' := Edited(m, root, x, flags);
            Sound(m', root, frames) && EditsLeaf(m, m', root, x, flags) && KeepsPage(m, m', root, x)
  {
    hide GetAddress, Clean, Low, Within, SetFlags, High, Sixteen, TableOf, Slot, Sound, Grows, Assign, UsableFrame,
      Widened, Edited, PathHas, EditFits, LeafAt, EditsLeaf, KeepsPage;
    SoundParts(m, root, frames);
    WidenedSound(m, root, x, flags, frames);
    EditedIs(m, root, x, flags);
    LeafFits(m, root, x, flags);
    var m3, m' := Widened(m, root, x, flags), Edited(m, root, x, flags);
    var d := LeafAt(m, root, x);
    SoundParts(m3, root, frames);
    CleanLeaf(m, root, x);
    FlagsKeepClean(d, flags);
    SetFlagsLowTwelve(d, flags);
    SetFlagsKeepsFrame(d, flags);
    RewriteLeaf(m3, m', root, frames, x, SetFlags(d, flags));
    SameUpperGrows(m, m3, m', root);
    SameUpperPath(m3, m', root, x, Low(flags));
    assert PathGains(m, m', root, x, flags);
    EditsAll(m, m3, m', root, x, flags);
  }

  lemma EditsAll(m: Memory, m3: Memory, m': Memory, root: Word, x: Indexer, flags: Word)
    requires SameTables(m, m3, root) && SameTables(m3, m', root)
    requires Grows(m, m', root) && PathHas(m', root, x, Low(flags)) && PathGains(m, m', root, x, flags)
    requires forall y :: LeafAt(m3, root, y) == LeafAt(m, root, y)
    requires forall y ::
               LeafAt(m', root, y) == if y == x then SetFlags(LeafAt(m, root, x), flags) else LeafAt(m3, root, y)
    requires GetAddress(SetFlags(LeafAt(m, root, x), flags)) == GetAddress(LeafAt(m, root, x))
    ensures EditsLeaf(m, m', root, x, flags) && KeepsPage(m, m', root, x)
  {
    hide GetAddress, SetFlags, Low, TableOf, Grows, PathHas, LeafAt, PathGains;
  }

  lemma LeafFits(m: Memory, root: Word, x: Indexer, flags: Word)
    requires EditFits(m, root, x, flags)
    ensures Within(High(flags), LeafAt(m, root, x))
  {
  }

  lemma SameUpperPath(m: Memory, m': Memory, root: Word, x: Indexer, f: Word)
    requires PathHas(m, root, x, f) && forall p, i :: Upper(p) ==> Slot(m', root, p, i) == Slot(m, root, p, i)
    ensures PathHas(m', root, x, f)
  {
    hide Within, Slot;
  }

  /** `paging_edit_page` leaves every table in its place and the page on its frame exactly when the
      flag bits above the low twelve are already set in all four entries it touches. */
  lemma EditKeeps(m: Memory, root: Word, x: Indexer, flags: Word, frames: seq<Word>)
    requires Sound(m, root, frames) && TableOf(m, root, PtOf(x)).Some? && Sixteen(flags)
    ensures KeepsPage(m, Edited(m, root, x, flags), root, x) <==> EditFits(m, root, x, flags)
  {
    hide KeepsPage, EditFits, Edited, TableOf, Sixteen, EditsLeaf;
    SoundParts(m, root, frames);
    if EditFits(m, root, x, flags) {
      EditSound(m, root, x, flags, frames);
    }
    if KeepsPage(m, Edited(m, root, x, flags), root, x) {
      OnlyWhenItFits(m, root, x, flags);
    }
  }

  /** Three tables and a page in them. */
  function Sample(): Memory {
    (t: Word, i: Index) =>
      if i != Index(0) then Word(0)
      else if t == Word(0x10000) then Word(0x20003)
      else if t == Word(0x20000) then Word(0x30003)
      else if t == Word(0x30000) then Word(0x40003)
      else if t == Word(0x40000) then Word(0x51003)
      else Word(0)
  }

  function ZeroPath(): Indexer {
    Indexer(Index(0), Index(0), Index(0), Index(0))
  }

  /** The two entries looked up after the flags came in lead to the pages at 0x31000 and 0x1000, where the
      flags are left; the page's own leaf and the entry above it stay what they were. */
  ghost predicate StrayWrites(m: Memory) {
    && m(Word(0x31000), Index(0)) == Word(0x1003) && m(Word(0x1000), Index(0)) == Word(0x1003)
    && m(Word(0x30000), Index(0)) == Word(0x40003) && m(Word(0x40000), Index(0)) == Word(0x51003)
  }

  /** The leaf alone does not decide: in this sound address space it has room for the flags, the root's
      entry has not, and the page is lost. */
  lemma EditLosesPage()
    ensures var m, root, flags := Sample(), Word(0x10000), Word(0x1003);
            && Sound(m, root, []) && Sixteen(flags) && WalkOf(m, root, Word(0)) == Word(0x51000)
            && Within(High(flags), LeafAt(m, root, Assign(Word(0))))
            && WalkOf(Edited(m, root, Assign(Word(0)), flags), root, Word(0)) == Word(0)
            && StrayWrites(Edited(m, root, Assign(Word(0)), flags))
  {
    hide GetAddress, Present, OrFlags, SetFlags, Within, High, Assign, Sixteen, Sample, Edited, Sound;
    SampleBits();
    SampleSound();
    SampleWalk();
    SampleEdited();
    var m' := Edited(Sample(), Word(0x10000), ZeroPath(), Word(0x1003));
    PathTables(m', Word(0x10000), ZeroPath());
  }

  function SampleTable(p: Place): Option<Word> {
    match p
    case Pml4 => Some(Word(0x10000))
    case Pdp(i4) => if i4 == Index(0) then Some(Word(0x20000)) else None
    case Pd(i4, i3) => if i4 == i3 == Index(0) then Some(Word(0x30000)) else None
    case Pt(i4, i3, i2) => if i4 == i3 == i2 == Index(0) then Some(Word(0x40000)) else None
  }

  lemma {:induction false} SampleTables(p: Place)
    ensures TableOf(Sample(), Word(0x10000), p) == SampleTable(p)
    decreases Depth(p)
  {
    hide Present, GetAddress;
    SampleBits();
    if p != Pml4 {
      SampleTables(Above(p));
    }
  }

  lemma SampleSlot(p: Place, i: Index)
    ensures Slot(Sample(), Word(0x10000), p, i) ==
              if SampleTable(p).None? || i != Index(0) then Word(0)
              else match p
                case Pml4 => Word(0x20003)
                case Pdp(_) => Word(0x30003)
                case Pd(_, _) => Word(0x40003)
                case Pt(_, _, _) => Word(0x51003)
  {
    hide TableOf;
    SampleTables(p);
  }

  lemma SampleSound()
    ensures Sound(Sample(), Word(0x10000), [])
  {
    hide Present, GetAddress, Clean, Within, Low, Slot, TableOf, Sample, Assign, UsableFrame;
    SampleBits();
    SampleFits();
    forall p ensures TableOf(Sample(), Word(0x10000), p) == SampleTable(p) {
      SampleTables(p);
    }
    forall p, i ensures Clean(Slot(Sample(), Word(0x10000), p, i)) {
      SampleSlot(p, i);
    }
    forall p, i | Upper(p) && !Present(Slot(Sample(), Word(0x10000), p, i))
      ensures Slot(Sample(), Word(0x10000), p, i) == Word(0)
    {
      SampleSlot(p, i);
    }
    forall x ensures PathHas(Sample(), Word(0x10000), x, Low(LeafAt(Sample(), Word(0x10000), x))) {
      SampleSlot(Pml4, x.pml4);
      SampleSlot(Pdp(x.pml4), x.pml3);
      SampleSlot(Pd(x.pml4, x.pml3), x.pml2);
      SampleSlot(PtOf(x), x.pml1);
    }
  }

  lemma SampleFits()
    ensures GetAddress(Word(0x10000)) == Word(0x10000)
    ensures Low(Word(0)) == Word(0) && Low(Word(0x51003)) == Word(3)
    ensures forall w :: w in {Word(0), Word(0x20003), Word(0x30003), Word(0x40003)} ==> Within(Word(0), w)
    ensures forall w :: w in {Word(0x20003), Word(0x30003), Word(0x40003)} ==> Within(Word(3), w)
    ensures forall w :: w in {Word(0), Word(0x20003), Word(0x30003), Word(0x40003), Word(0x51003)} ==> Clean(w)
  {
  }

  lemma SampleWalk()
    ensures LeafAt(Sample(), Word(0x10000), ZeroPath()) == Word(0x51003)
  {
    hide GetAddress, Present;
    SampleBits();
    PathTables(Sample(), Word(0x10000), ZeroPath());
  }

  /** The root's entry now names the page at 0x21000, which is no table. */
  lemma SampleEdited()
    ensures var m' := Edited(Sample(), Word(0x10000), ZeroPath(), Word(0x1003));
            && m'(Word(0x10000), Index(0)) == Word(0x21003) && m'(Word(0x21000), Index(0)) == Word(0)
            && StrayWrites(m')
  {
    hide GetAddress, OrFlags, SetFlags, Write, Sample;
    SampleBits();
    SampleValues();
    var m, root, i := Sample(), Word(0x10000), Index(0);
    var m1 := Write(m, root, i, Word(0x21003));
    ReadAfter(m, root, i, Word(0x21003));
    var m2 := Write(m1, Word(0x20000), i, Word(0x31003));
    ReadAfter(m1, Word(0x20000), i, Word(0x31003));
    var m3 := Write(m2, Word(0x31000), i, Word(0x1003));
    ReadAfter(m2, Word(0x31000), i, Word(0x1003));
    ReadAfter(m3, Word(0x1000), i, Word(0x1003));
  }

  lemma SampleValues()
    ensures var m, i := Sample(), Index(0);
            && m(Word(0x10000), i) == Word(0x20003) && m(Word(0x20000), i) == Word(0x30003)
            && m(Word(0x31000), i) == Word(0) && m(Word(0x1000), i) == Word(0) && m(Word(0x21000), i) == Word(0)
            && m(Word(0x30000), i) == Word(0x40003) && m(Word(0x40000), i) == Word(0x51003)
  {
  }

  lemma SampleBits()
    ensures var f := Word(0x1003);
            && Sixteen(f) && Within(High(f), Word(0x51003))
            && OrFlags(Word(0x20003), f) == Word(0x21003) && OrFlags(Word(0x30003), f) == Word(0x31003)
            && OrFlags(Word(0), f) == f && SetFlags(Word(0), f) == f
            && Present(Word(0x20003)) && Present(Word(0x30003)) && Present(Word(0x40003)) && Present(Word(0x21003))
            && GetAddress(Word(0x20003)) == Word(0x20000) && GetAddress(Word(0x30003)) == Word(0x30000)
            && GetAddress(Word(0x40003)) == Word(0x40000) && GetAddress(Word(0x51003)) == Word(0x51000)
            && GetAddress(Word(0x21003)) == Word(0x21000) && GetAddress(Word(0x31003)) == Word(0x31000)
            && GetAddress(f) == Word(0x1000)
    ensures !Present(Word(0)) && GetAddress(Word(0)) == Word(0)
    ensures Assign(Word(0)) == ZeroPath()
  {
  }
}

/** Mapping, walking, unmapping, editing and remapping pages of one address space. */
module Paging {
  import opened Wrappers
  import opened Descriptors
  import opened PageTree
  import opened PageSteps
  import opened PageEdits

  class AddressSpace {
    var mem: Memory
    var pml4: Word
    /** The frames the page-frame allocator will return, in order. */
    var frames: seq<Word>

    ghost predicate Valid()
      reads this
    {
      Sound(mem, pml4, frames)
    }

    method AllocPage() returns (frame: Word)
      modifies this`frames
      ensures old(frames) == [] ==> frame == Word(0) && frames == []
      ensures old(frames) != [] ==> frame == old(frames)[0] && frames == old(frames)[1..]
    {
      if frames == [] {
        frame := Word(0);
      } else {
        frame := frames[0];
        frames := frames[1..];
      }
    }

    /** The block `paging_map_page` repeats at each upper level: find the next table, or allocate,
        clear, link and identity-map a new one. `ok` is false when the allocator had no page left,
        where the source goes on to clear the page at NULL. */
    method NextTable(table: Word, index: Index, flags: Word, ghost p: Place, ghost places: set<Place>)
      returns (ok: bool, next: Word, ghost pages: seq<Word>)
      requires Valid() && Upper(p) && TableOf(mem, pml4, p) == Some(table) && Low(flags) == flags
      requires Below(p, index) in places && forall f :: f in frames ==> Covers(places, Assign(f))
      modifies this
      ensures pml4 == old(pml4) && old(frames) == pages + frames
      ensures !ok ==> frames == [] && |Absent(old(mem), pml4, places)| > |old(frames)|
      ensures ok ==>
        && Valid() && Extends(old(mem), mem, pml4, pages) && GainsOnly(old(mem), mem, pml4, flags)
        && TableOf(mem, pml4, Below(p, index)) == Some(next)
        && Within(flags, Slot(mem, pml4, p, index))
        && |frames| + |Absent(old(mem), pml4, places)| == |old(frames)| + |Absent(mem, pml4, places)|
      decreases |frames|, 0
    {
      hide GetAddress, GetFlag, SetAddress, SetFlag, OrFlags, Low, Within, Assign, Clean, Leaf, KernelPage,
        NewLeafEntry, UsableFrame, TableOf, Slot, LeafAt, Absent, Grows, Tree, LeavesDecide, Ready, Maps, Extends,
        Sound, GainsOnly;
      ghost var m0, fs := mem, frames;
      SlotOfTable(mem, pml4, p, index);
      var pde := mem(table, index);
      if !GetFlag(pde, 0x001) {
        AbsentChild(m0, pml4, p, index, places);
        next := AllocPage();
        if fs != [] {
          assert fs == [next] + frames;
          FirstFrame(m0, pml4, next, frames);
        }
        if next == Word(0) {
          return false, next, [];
        }
        mem := Zeroed(mem, next);
        pde := SetAddress(pde, next);
        pde := SetFlag(pde, 0x001, true);
        pde := OrFlags(pde, flags);
        mem := Write(mem, table, index, pde);
        ghost var m1 := mem;
        LinkStep(m0, m1, pml4, p, index, flags, next, frames);
        LinkFillsPlace(m0, m1, pml4, Below(p, index), next, places);
        KernelPageIsLow();
        ghost var more, left := [], frames;
        var virt;
        ok, virt, more := MapPage(next, next, KernelPage(), places);
        pages := [next] + more;
        OneThenMore(fs, next, left, more, frames);
        if ok {
          GainsOnlyKernel(m1, mem, pml4, flags);
          GainsOnlyOn(m0, m1, mem, pml4, flags);
          LinkThenMap(m0, m1, mem, pml4, Below(p, index), next, more);
          EntryKept(m1, mem, pml4, p, index, flags, next);
        }
      } else {
        next := GetAddress(pde);
        mem := Write(mem, table, index, OrFlags(mem(table, index), flags));
        LowFlagsFit(flags);
        WidenStep(m0, mem, pml4, p, index, flags, frames);
        SameTablesSameAbsent(m0, mem, pml4, places);
        ok, pages := true, [];
      }
    }

    /** `paging_map_page`: `pages` are the frames that became tables on the way, and `places` any
        set of places that covers the paths of `virt` and of every free frame. */
    method MapPage(virt: Word, phys: Word, flags0: Word, ghost places: set<Place>)
      returns (ok: bool, r: Word, ghost pages: seq<Word>)
      requires Valid() && Covers(places, Assign(virt)) && forall f :: f in frames ==> Covers(places, Assign(f))
      requires forall f :: f in frames && Assign(f) == Assign(virt) ==> GetAddress(phys) == f
      modifies this
      ensures pml4 == old(pml4) && old(frames) == pages + frames && r == virt
      ensures !ok ==> frames == [] && |Absent(old(mem), pml4, places)| > |old(frames)|
      ensures ok ==>
        && Valid() && GainsOnly(old(mem), mem, pml4, Low(flags0))
        && Maps(old(mem), mem, pml4, pages, Assign(virt),
                NewLeafEntry(LeafAt(old(mem), pml4, Assign(virt)), phys, Low(flags0)))
        && |frames| + |Absent(old(mem), pml4, places)| == |old(frames)| + |Absent(mem, pml4, places)|
      decreases |frames|, 1
    {
      hide GetAddress, GetFlag, SetAddress, SetFlag, SetFlags, Low, Within, Assign, Clean, Leaf, KernelPage,
        UsableFrame, TableOf, Slot, Absent, Grows, Tree, LeavesDecide, Ready, Maps, Extends, Sound, GainsOnly;
      ghost var m0, fs := mem, frames;
      r := virt;
      var flags := Low(flags0);
      LowOfLow(flags0);
      var x := Assign(virt);
      ghost var a, b, c := [], [], [];
      RootTable(mem, pml4);

      var pdp;
      ok, pdp, a := NextTable(pml4, x.pml4, flags, Pml4, places);
      pages := a;
      if !ok { return; }
      ghost var m1 := mem;

      var pd;
      ok, pd, b := NextTable(pdp, x.pml3, flags, Pdp(x.pml4), places);
      pages := a + b;
      if !ok { return; }
      ghost var m2 := mem;

      var pt;
      ok, pt, c := NextTable(pd, x.pml2, flags, Pd(x.pml4, x.pml3), places);
      pages := a + b + c;
      if !ok { return; }
      ghost var m3 := mem;
      assert fs == a + b + c + frames;
      SoundParts(m0, pml4, fs);
      SoundParts(m3, pml4, frames);
      ThreeLevels(m0, m1, m2, m3, pml4, a, b, c, frames);
      EntryKept(m1, m3, pml4, Pml4, x.pml4, flags, pdp);
      EntryKept(m2, m3, pml4, Pdp(x.pml4), x.pml3, flags, pd);

      SlotOfTable(m3, pml4, PtOf(x), x.pml1);
      var pde := mem(pt, x.pml1);
      pde := SetAddress(pde, phys);
      pde := SetFlag(pde, 0x001, true);
      pde := SetFlags(pde, flags);
      mem := Write(mem, pt, x.pml1, pde);
      LeafStep(m3, mem, pml4, frames, x, phys, flags);
      LeafUndisturbed(m0, m3, pml4, pages, frames, x, phys, flags);
      ExtendsThenLeaf(m0, m3, mem, pml4, pages, x, LeafAt(mem, pml4, x));
      SameTablesSameAbsent(m3, mem, pml4, places);
      GainsOnlyOn(m0, m1, m2, pml4, flags);
      GainsOnlyOn(m0, m2, m3, pml4, flags);
      GainsOnlyOn(m0, m3, mem, pml4, flags);
    }

    /** `paging_walk_page`: NULL where a table is missing, else the address bits of the last level. */
    method WalkPage(virt: Word) returns (phys: Word)
      ensures phys == WalkOf(mem, pml4, virt)
    {
      hide GetAddress, GetFlag, Assign;
      var x := Assign(virt);
      ZeroWord();
      PathTables(mem, pml4, x);
      var pde := mem(pml4, x.pml4);
      if !GetFlag(pde, 0x001) {
        return Word(0);
      }
      var pdp := GetAddress(pde);
      pde := mem(pdp, x.pml3);
      if !GetFlag(pde, 0x001) {
        return Word(0);
      }
      var pd := GetAddress(pde);
      pde := mem(pd, x.pml2);
      if !GetFlag(pde, 0x001) {
        return Word(0);
      }
      var pt := GetAddress(pde);
      pde := mem(pt, x.pml1);
      return GetAddress(pde);
    }

    method UnmapPage(virt: Word)
      requires Valid()
      modifies this`mem
      ensures Valid() && Clears(old(mem), mem, pml4, Assign(virt))
    {
      hide GetAddress, GetFlag, Low, Within, Assign, Clean, UsableFrame, Sound, Absent;
      var x := Assign(virt);
      ZeroWord();
      PathTables(mem, pml4, x);
      var pde := mem(pml4, x.pml4);
      if !GetFlag(pde, 0x001) {
        return;
      }
      var pdp := GetAddress(pde);
      pde := mem(pdp, x.pml3);
      if !GetFlag(pde, 0x001) {
        return;
      }
      var pd := GetAddress(pde);
      pde := mem(pd, x.pml2);
      if !GetFlag(pde, 0x001) {
        return;
      }
      var pt := GetAddress(pde);
      assert TableOf(mem, pml4, PtOf(x)) == Some(pt);
      EmptyFitsAnywhere(mem, pml4, x);
      mem := Write(mem, pt, x.pml1, Word(0));
      RewriteLeaf(old(mem), mem, pml4, frames, x, Word(0));
    }

    /** `paging_edit_page`, which checks nothing on its way down and does not mask its flags. */
    method EditPage(virt: Word, flags: Word) returns (r: Word)
      requires Sixteen(flags)
      modifies this`mem
      ensures r == virt && mem == Edited(old(mem), pml4, Assign(virt), flags)
      ensures old(Valid()) && TableOf(old(mem), pml4, PtOf(Assign(virt))).Some?
              && EditFits(old(mem), pml4, Assign(virt), flags) ==>
                Valid() && EditsLeaf(old(mem), mem, pml4, Assign(virt), flags)
    {
      hide GetAddress, SetFlags, OrFlags, Assign, Sixteen, Sound, TableOf, EditFits, EditsLeaf, KeepsPage;
      r := virt;
      var x := Assign(virt);
      var pde := mem(pml4, x.pml4);
      mem := Write(mem, pml4, x.pml4, OrFlags(mem(pml4, x.pml4), flags));
      var pdp := GetAddress(pde);
      mem := Write(mem, pdp, x.pml3, OrFlags(mem(pdp, x.pml3), flags));
      pde := mem(pdp, x.pml3);
      var pd := GetAddress(pde);
      mem := Write(mem, pd, x.pml2, OrFlags(mem(pd, x.pml2), flags));
      pde := mem(pd, x.pml2);
      var pt := GetAddress(pde);
      mem := Write(mem, pt, x.pml1, SetFlags(mem(pt, x.pml1), flags));
      if Sound(old(mem), pml4, frames) && TableOf(old(mem), pml4, PtOf(x)).Some? && EditFits(old(mem), pml4, x, flags) {
        EditSound(old(mem), pml4, x, flags, frames);
      }
    }

    /** `paging_remap_page`: the arguments of its `paging_map_page` call are evaluated left to right. */
    method RemapPage(from: Word, to: Word, ghost places: set<Place>)
      returns (ok: bool, r: Word, ghost pages: seq<Word>)
      requires Valid() && Covers(places, Assign(to)) && forall f :: f in frames ==> Covers(places, Assign(f))
      requires forall f :: f in frames && Assign(f) == Assign(to) && TableOf(mem, pml4, PtOf(Assign(from))).Some?
                 ==> WalkOf(mem, pml4, from) == f
      modifies this
      ensures pml4 == old(pml4) && old(frames) == pages + frames
      ensures !ok ==> frames == [] && |Absent(old(mem), pml4, places)| > |old(frames)|
      ensures TableOf(old(mem), pml4, PtOf(Assign(from))).None? ==>
                ok && r == Word(0) && pages == [] && mem == old(mem)
      ensures TableOf(old(mem), pml4, PtOf(Assign(from))).Some? && ok ==>
                && r == to && Moves(old(mem), mem, pml4, pages, Assign(from), Assign(to))
                && GainsOnly(old(mem), mem, pml4, Low(LeafAt(old(mem), pml4, Assign(from))))
      ensures ok ==>
        && Valid()
        && |frames| + |Absent(old(mem), pml4, places)| == |old(frames)| + |Absent(mem, pml4, places)|
    {
      hide GetAddress, GetFlag, Low, Within, Assign, Clean, UsableFrame, Sound, Absent, Grows, Maps, Moves, GainsOnly;
      var x := Assign(from);
      ghost var m0 := mem;
      PathTables(mem, pml4, x);
      var oldPde := mem(pml4, x.pml4);
      if !GetFlag(oldPde, 0x001) {
        return true, Word(0), [];
      }
      var pdp := GetAddress(oldPde);
      oldPde := mem(pdp, x.pml3);
      if !GetFlag(oldPde, 0x001) {
        return true, Word(0), [];
      }
      var pd := GetAddress(oldPde);
      oldPde := mem(pd, x.pml2);
      if !GetFlag(oldPde, 0x001) {
        return true, Word(0), [];
      }
      var pt := GetAddress(oldPde);
      oldPde := mem(pt, x.pml1);
      assert oldPde == LeafAt(m0, pml4, x);

      UnmapPage(from);
      ghost var m1 := mem;
      SameTablesSameAbsent(m0, m1, pml4, places);
      GetAddressTwice(oldPde);
      LowOfLow(oldPde);
      r := to;
      var virt;
      ok, virt, pages := MapPage(to, GetAddress(oldPde), Low(oldPde), places);
      if ok {
        UnmapThenMap(m0, m1, mem, pml4, pages, x, Assign(to));
        NoneGained(m0, m1, pml4, Low(oldPde));
        GainsOnlyOn(m0, m1, mem, pml4, Low(oldPde));
      }
    }
  }
}

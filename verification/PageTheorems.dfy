/** What the operations mean, in terms of addresses and of the processor's walk. */
module PageTheorems {
  import opened Wrappers
  import opened Descriptors
  import opened PageTree
  import opened PageSteps

  /** Every table below the root is pointed at by one present entry of one table, at the level and
      index its place says. */
  lemma OneParent(m: Memory, root: Word, n: Place, p: Place, i: Index)
    requires Tree(m, root) && TableOf(m, root, n).Some? && Upper(p)
    ensures n != Pml4 ==>
              && Upper(Above(n)) && Present(Slot(m, root, Above(n), Last(n)))
              && Some(GetAddress(Slot(m, root, Above(n), Last(n)))) == TableOf(m, root, n)
    ensures Present(Slot(m, root, p, i)) && Some(GetAddress(Slot(m, root, p, i))) == TableOf(m, root, n)
            <==> n == Below(p, i)
  {
    hide GetAddress, Present, Clean;
    ZeroWord();
    BelowIsChild(m, root, p, i);
    if n != Pml4 {
      BelowIsChild(m, root, Above(n), Last(n));
      assert TableOf(m, root, Above(n)).Some?;
    }
    if TableOf(m, root, p).Some? {
      ChildOfSlot(m, root, p, i);
      if Present(Slot(m, root, p, i)) && n != Below(p, i) {
        Unshared(m, root, n, Below(p, i));
      }
    }
  }

  /** A page of the canonical address space that has the indices of an allocated frame is that frame. */
  lemma NamedPage(pages: seq<Word>, w: Word)
    requires Canonical(w) && PageAligned(w) && forall t :: t in pages ==> UsableFrame(t)
    ensures Names(pages, Assign(w)) <==> w in pages
  {
    hide Assign, Canonical, PageAligned, UsableFrame;
    if Names(pages, Assign(w)) {
      var t :| t in pages && Assign(t) == Assign(w);
      UsableFrameIsCanonical(t);
      CanonicalPagesDistinct(t, w);
    }
  }

  /** After `paging_map_page(virt, phys, flags)`: `virt` walks to the frame of `phys` exactly when
      the frame it had before adds no bits of its own; each page that became a table walks to
      itself; every other page of the address space walks where it did. */
  lemma MapTranslates(m: Memory, m': Memory, root: Word, pages: seq<Word>, frames: seq<Word>,
                      virt: Word, phys: Word, flags: Word, w: Word)
    requires Sound(m, root, pages + frames) && Low(flags) == flags
    requires Maps(m, m', root, pages, Assign(virt), NewLeafEntry(LeafAt(m, root, Assign(virt)), phys, flags))
    requires Canonical(virt) && PageAligned(virt) && Canonical(w) && PageAligned(w)
    ensures w == virt ==>
              (WalkOf(m', root, w) == GetAddress(phys) <==> Within(WalkOf(m, root, w), phys))
    ensures w == virt && Within(WalkOf(m, root, w), phys) ==> LeafAt(m', root, Assign(w)) == Leaf(phys, flags)
    ensures w != virt && w in pages ==> WalkOf(m', root, w) == w
    ensures w != virt && w !in pages ==> WalkOf(m', root, w) == WalkOf(m, root, w)
  {
    hide GetAddress, Low, Within, Assign, Clean, Leaf, NewLeafEntry, KernelPage, TableOf, LeafAt, Grows,
      Canonical, PageAligned, UsableFrame;
    forall t | t in pages ensures UsableFrame(t) && GetAddress(t) == t {
      assert t in pages + frames;
      UsableFrameAddress(t);
    }
    if w == virt {
      CleanLeaf(m, root, Assign(w));
      NewLeafEntryPoints(LeafAt(m, root, Assign(w)), phys, flags);
      NewLeafEntryWalk(LeafAt(m, root, Assign(w)), phys, flags);
    } else {
      CanonicalPagesDistinct(w, virt);
      NamedPage(pages, w);
      if w in pages {
        LeafFields(w, KernelPage());
      }
    }
  }

  lemma NewLeafEntryWalk(d: Word, phys: Word, flags: Word)
    requires Low(flags) == flags
    ensures GetAddress(NewLeafEntry(d, phys, flags)) == GetAddress(phys) <==> Within(GetAddress(d), phys)
  {
    if Within(GetAddress(d), phys) {
      assert GetAddress(NewLeafEntry(d, phys, flags)) == GetAddress(phys);
    } else {
      assert GetAddress(NewLeafEntry(d, phys, flags)) != GetAddress(phys);
    }
  }

  /** `paging_remap_page(from, to)` onto an empty page: `to` gets the very descriptor `from` had,
      `from` walks to NULL, and apart from new tables nothing else moves. */
  lemma RemapMoves(m: Memory, m': Memory, root: Word, pages: seq<Word>, frames: seq<Word>, from: Word, to: Word,
                   w: Word)
    requires Sound(m, root, pages + frames) && Moves(m, m', root, pages, Assign(from), Assign(to))
    requires LeafAt(m, root, Assign(to)) == Word(0) || from == to
    requires Canonical(from) && PageAligned(from) && Canonical(to) && PageAligned(to)
    requires Canonical(w) && PageAligned(w)
    ensures LeafAt(m', root, Assign(to)) == LeafAt(m, root, Assign(from))
    ensures from != to && from !in pages ==> WalkOf(m', root, from) == Word(0)
    ensures w != to && w in pages ==> WalkOf(m', root, w) == w
    ensures w != to && w != from && w !in pages ==> WalkOf(m', root, w) == WalkOf(m, root, w)
  {
    hide GetAddress, Low, Within, Assign, Clean, Leaf, NewLeafEntry, KernelPage, TableOf, LeafAt, Grows,
      Canonical, PageAligned, UsableFrame;
    forall t | t in pages ensures UsableFrame(t) && GetAddress(t) == t {
      assert t in pages + frames;
      UsableFrameAddress(t);
    }
    ZeroWord();
    CleanLeaf(m, root, Assign(from));
    CopyDescriptor(LeafAt(m, root, Assign(from)));
    CanonicalPagesDistinct(from, to);
    NamedPage(pages, from);
    CanonicalPagesDistinct(w, to);
    CanonicalPagesDistinct(w, from);
    NamedPage(pages, w);
    LeafFields(w, KernelPage());
  }

  /** Present, write and user rights of a mapped page, as the processor combines them over the four
      levels, are those of the last-level descriptor alone. */
  lemma RightsAreTheLeafs(m: Memory, root: Word, x: Indexer)
    requires LeavesDecide(m, root)
    ensures Low(Granted(Slot(m, root, Pml4, x.pml4), Slot(m, root, Pdp(x.pml4), x.pml3),
                        Slot(m, root, Pd(x.pml4, x.pml3), x.pml2), LeafAt(m, root, x)))
         == Low(LeafAt(m, root, x))
  {
    hide Within, Low, TableOf, LeafAt, Slot, Granted;
    assert PathHas(m, root, x, Low(LeafAt(m, root, x)));
    GrantedByLeaf(Slot(m, root, Pml4, x.pml4), Slot(m, root, Pdp(x.pml4), x.pml3),
                  Slot(m, root, Pd(x.pml4, x.pml3), x.pml2), LeafAt(m, root, x));
  }

  /** The page walks to the frame, and its descriptor is present, writable and closed to user code. */
  ghost predicate KernelMapped(m: Memory, root: Word, virt: Word, frame: Word) {
    WalkOf(m, root, virt) == frame && Supervisor(LeafAt(m, root, Assign(virt)))
  }

  /** So are the rights the processor combines for it. */
  lemma KernelRights(m: Memory, root: Word, virt: Word, frame: Word)
    requires LeavesDecide(m, root) && KernelMapped(m, root, virt, frame)
    ensures var x := Assign(virt);
            Supervisor(Granted(Slot(m, root, Pml4, x.pml4), Slot(m, root, Pdp(x.pml4), x.pml3),
                               Slot(m, root, Pd(x.pml4, x.pml3), x.pml2), LeafAt(m, root, x)))
  {
    hide Assign, LeafAt, Slot, Granted, Supervisor, Low, LeavesDecide, GetAddress;
    var x := Assign(virt);
    RightsAreTheLeafs(m, root, x);
    SupervisorLow(Granted(Slot(m, root, Pml4, x.pml4), Slot(m, root, Pdp(x.pml4), x.pml3),
                          Slot(m, root, Pd(x.pml4, x.pml3), x.pml2), LeafAt(m, root, x)), LeafAt(m, root, x));
  }

  /** Each frame that a map turns into a table is mapped to itself with those rights. */
  lemma TablesAreSupervisor(m: Memory, m': Memory, root: Word, pages: seq<Word>, frames: seq<Word>, x: Indexer, w: Word,
                            t: Word)
    requires Sound(m, root, pages + frames) && Maps(m, m', root, pages, x, w) && t in pages && Assign(t) != x
    ensures KernelMapped(m', root, t, t)
  {
    hide Assign, LeafAt, Supervisor, Leaf, KernelPage, GetAddress, UsableFrame, Tree, LeavesDecide, Grows, TableOf;
    assert t in pages + frames;
    UsableFrameAddress(t);
    LeafFields(t, KernelPage());
    KernelLeafIsSupervisor(t);
  }

  function PathPlaces(x: Indexer): set<Place> {
    {Pdp(x.pml4), Pd(x.pml4, x.pml3), PtOf(x)}
  }

  /** When all free frames lie in one 2 MiB region, six free frames are enough to map any page. */
  lemma SixFramesSuffice(m: Memory, root: Word, frames: seq<Word>, virt: Word, region: Indexer)
    requires forall f :: f in frames ==> PtOf(Assign(f)) == PtOf(region)
    ensures var places := PathPlaces(Assign(virt)) + PathPlaces(region);
            && Covers(places, Assign(virt)) && (forall f :: f in frames ==> Covers(places, Assign(f)))
            && |Absent(m, root, places)| <= 6
  {
    hide Assign, TableOf;
    var x := Assign(virt);
    var places := PathPlaces(x) + PathPlaces(region);
    assert |places| <= |PathPlaces(x)| + |PathPlaces(region)| <= 6;
    assert Absent(m, root, places) <= places;
    SubsetSize(Absent(m, root, places), places);
  }

  lemma SubsetSize(a: set<Place>, b: set<Place>)
    requires a <= b
    ensures |a| <= |b|
  {
    assert b == a + (b - a);
  }
}

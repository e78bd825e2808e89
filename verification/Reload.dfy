/** The address space the kernel builds for itself at boot. */
module Reload {
  import opened Wrappers
  import opened Descriptors
  import opened PageTree
  import opened PageSteps
  import opened PageTheorems
  import opened Paging

  /** MEMORY_MAP_NOUSE. */
  const NOUSE: nat := 3

  /** A region of the memory map, in the machine words the loops count in. */
  datatype Region = Region(base: Word, length: Word, signal: nat)

  /** The values a loop counter takes from `first`, page by page, while it lies before `end`. */
  ghost predicate Steps(first: Word, end: Word, pages: seq<Word>) {
    && (pages == [] ==> !Before(first, end))
    && (pages != [] ==> pages[0] == first && !Before(NextPage(pages[|pages| - 1]), end))
    && (forall k :: 0 <= k < |pages| ==> Before(pages[k], end))
    && (forall k :: 0 < k < |pages| ==> pages[k] == NextPage(pages[k - 1]))
  }

  /** A translation that is wanted: every page is unmapped or mapped for the kernel where `plan` says, and
      a page it has no frame for is not mapped at all. */
  ghost predicate Follows(m: Memory, root: Word, plan: Indexer -> Word) {
    forall x ::
      var d := LeafAt(m, root, x);
      d == Word(0) || (GetAddress(d) == plan(x) != Word(0) && Supervisor(d))
  }

  /** Pages that walk somewhere go on walking there, and a kernel page's rights stay those. */
  ghost predicate Keeps(m: Memory, m': Memory, root: Word) {
    forall x :: GetAddress(LeafAt(m, root, x)) != Word(0) ==>
      && GetAddress(LeafAt(m', root, x)) == GetAddress(LeafAt(m, root, x))
      && (Supervisor(LeafAt(m, root, x)) ==> Supervisor(LeafAt(m', root, x)))
  }

  /** One `paging_map_page` call of the plan. */
  lemma PlannedStep(m: Memory, m': Memory, root: Word, pages: seq<Word>, frames: seq<Word>,
                    virt: Word, phys: Word, plan: Indexer -> Word)
    requires Sound(m, root, pages + frames) && Follows(m, root, plan)
    requires plan(Assign(virt)) == GetAddress(phys) != Word(0) && forall f :: f in pages ==> plan(Assign(f)) == f
    requires Maps(m, m', root, pages, Assign(virt), NewLeafEntry(LeafAt(m, root, Assign(virt)), phys, KernelPage()))
    ensures Follows(m', root, plan) && Keeps(m, m', root) && KernelMapped(m', root, virt, GetAddress(phys))
  {
    hide GetAddress, Low, Within, Assign, Clean, Leaf, NewLeafEntry, KernelPage, TableOf, LeafAt, Grows, UsableFrame,
      Supervisor;
    var x := Assign(virt);
    forall t | t in pages ensures GetAddress(t) == t != Word(0) {
      assert t in pages + frames;
      UsableFrameAddress(t);
      UsableFrameNotNull(t);
    }
    ZeroWord();
    WithinOwnAddress(LeafAt(m, root, x), phys);
    CleanLeaf(m, root, x);
    KernelPageIsLow();
    NewLeafEntryPoints(LeafAt(m, root, x), phys, KernelPage());
    LeafFields(phys, KernelPage());
    KernelLeafIsSupervisor(phys);
    forall y
      ensures var d := LeafAt(m', root, y); d == Word(0) || (GetAddress(d) == plan(y) != Word(0) && Supervisor(d))
      ensures GetAddress(LeafAt(m, root, y)) != Word(0) ==>
                GetAddress(LeafAt(m', root, y)) == GetAddress(LeafAt(m, root, y))
    {
      if y != x && Names(pages, y) {
        var t :| t in pages && Assign(t) == y;
        LeafFields(t, KernelPage());
        KernelLeafIsSupervisor(t);
      }
    }
  }

  /** A zeroed root: no tables below it and no page mapped. */
  lemma EmptyTree(m: Memory, root: Word, frames: seq<Word>)
    requires UsableFrame(root) && root !in frames && forall f :: f in frames ==> UsableFrame(f)
    requires forall i, j :: 0 <= i < j < |frames| ==> frames[i] != frames[j]
    ensures Sound(Zeroed(m, root), root, frames)
    ensures forall x :: LeafAt(Zeroed(m, root), root, x) == Word(0)
  {
    hide GetAddress, Present, Clean, Low, Within, Assign, UsableFrame;
    var m' := Zeroed(m, root);
    ZeroWord();
    UsableFrameAddress(root);
    forall p | p != Pml4 ensures TableOf(m', root, p).None? {
      EmptyBelow(m', root, p);
    }
  }

  lemma {:induction false} EmptyBelow(m: Memory, root: Word, p: Place)
    requires p != Pml4 && forall i :: m(root, i) == Word(0)
    ensures TableOf(m, root, p).None?
    decreases Depth(p)
  {
    hide Present;
    ZeroWord();
    if Above(p) != Pml4 {
      EmptyBelow(m, root, Above(p));
    }
  }

  lemma KeepsItself(m: Memory, root: Word)
    ensures Keeps(m, m, root) && Doubled(m, root, [])
  {
  }

  lemma KeepsTransitive(m: Memory, m': Memory, m'': Memory, root: Word)
    requires Keeps(m, m', root) && Keeps(m', m'', root)
    ensures Keeps(m, m'', root)
  {
  }

  /** Both addresses of each of these pages are mapped to the page. */
  ghost predicate Doubled(m: Memory, root: Word, pages: seq<Word>) {
    forall t :: t in pages ==> KernelMapped(m, root, t, t) && KernelMapped(m, root, HighAlias(t), t)
  }

  /** Each page of the kernel image is mapped to where the image was loaded. */
  ghost predicate Loaded(m: Memory, root: Word, virt: Word, phys: Word, offsets: seq<Word>) {
    forall o :: o in offsets ==> KernelMapped(m, root, Plus(virt, o), Plus(phys, o))
  }

  lemma KeepsDoubled(m: Memory, m': Memory, root: Word, pages: seq<Word>)
    requires Keeps(m, m', root) && Doubled(m, root, pages) && Word(0) !in pages
    ensures Doubled(m', root, pages)
  {
    hide GetAddress, Assign, LeafAt, HighAlias, Supervisor;
  }

  lemma KeepsLoaded(m: Memory, m': Memory, root: Word, virt: Word, phys: Word, offsets: seq<Word>)
    requires Keeps(m, m', root) && Loaded(m, root, virt, phys, offsets)
    requires forall o :: o in offsets ==> Plus(phys, o) != Word(0)
    ensures Loaded(m', root, virt, phys, offsets)
  {
    hide GetAddress, Assign, LeafAt, Plus, Supervisor;
  }

  /** The first `n` regions are done. */
  ghost predicate RegionsDoubled(m: Memory, root: Word, regions: seq<Region>, listing: seq<seq<Word>>, n: nat)
    requires n <= |regions| == |listing|
  {
    forall i :: 0 <= i < n && regions[i].signal != 3 ==> Doubled(m, root, listing[i])
  }

  /** What the boot loader provides: page-aligned regions of ordinary memory, an image in the top
      512 GiB whose pages are all different, and free frames. */
  ghost predicate Bootable(regions: seq<Region>, listing: seq<seq<Word>>, virt: Word, phys: Word, size: Word,
                           offsets: seq<Word>) {
    && |listing| == |regions|
    && (forall i :: 0 <= i < |regions| && regions[i].signal != 3 ==>
          && Steps(regions[i].base, Plus(regions[i].base, regions[i].length), listing[i])
          && forall t :: t in listing[i] ==> UsableFrame(t) && Assign(t).pml4 != Index(255))
    && Steps(Word(0), size, offsets)
    && (forall o :: o in offsets ==>
          && Assign(Plus(virt, o)).pml4 == Index(511)
          && Plus(phys, o) != Word(0) && GetAddress(Plus(phys, o)) == Plus(phys, o))
    && (forall o, o' :: o in offsets && o' in offsets && Assign(Plus(virt, o)) == Assign(Plus(virt, o')) ==> o == o')
  }

  /** A page of a region, or one of those pages' aliases, or the own page of a free frame. */
  ghost predicate Meant(x: Indexer, regions: seq<Region>, listing: seq<seq<Word>>, frames: seq<Word>)
    requires |listing| == |regions|
  {
    || (exists i, t :: 0 <= i < |regions| && regions[i].signal != 3 && t in listing[i]
                       && (Assign(t) == x || Assign(HighAlias(t)) == x))
    || Names(frames, x)
  }

  /** The translation the boot code wants. */
  ghost function Wanted(virt: Word, phys: Word, offsets: seq<Word>, regions: seq<Region>, listing: seq<seq<Word>>,
                        frames: seq<Word>): Indexer -> Word
    requires |listing| == |regions|
  {
    x => if exists o :: o in offsets && Assign(Plus(virt, o)) == x
         then var o :| o in offsets && Assign(Plus(virt, o)) == x; Plus(phys, o)
         else if Meant(x, regions, listing, frames) then FrameOf(x) else Word(0)
  }

  /** No page is mapped that is neither meant to be nor one of the kernel image. */
  ghost predicate NothingElse(m: Memory, root: Word, virt: Word, offsets: seq<Word>, regions: seq<Region>,
                              listing: seq<seq<Word>>, frames: seq<Word>)
    requires |listing| == |regions|
  {
    forall x :: !Meant(x, regions, listing, frames) && (forall o :: o in offsets ==> Assign(Plus(virt, o)) != x) ==>
      LeafAt(m, root, x) == Word(0)
  }

  lemma WantedOfImage(virt: Word, phys: Word, offsets: seq<Word>, o: Word, regions: seq<Region>,
                      listing: seq<seq<Word>>, frames: seq<Word>)
    requires |listing| == |regions|
    requires forall o, o' ::
               o in offsets && o' in offsets && Assign(Plus(virt, o)) == Assign(Plus(virt, o')) ==> o == o'
    requires o in offsets
    ensures Wanted(virt, phys, offsets, regions, listing, frames)(Assign(Plus(virt, o))) == Plus(phys, o)
  {
    hide Assign, Plus, Meant;
  }

  lemma WantedOfFrame(virt: Word, phys: Word, offsets: seq<Word>, t: Word, regions: seq<Region>,
                      listing: seq<seq<Word>>, frames: seq<Word>)
    requires forall o :: o in offsets ==> Assign(Plus(virt, o)).pml4 == Index(511)
    requires UsableFrame(t) && |listing| == |regions|
    ensures Meant(Assign(t), regions, listing, frames) ==>
              Wanted(virt, phys, offsets, regions, listing, frames)(Assign(t)) == t
    ensures Meant(Assign(HighAlias(t)), regions, listing, frames) && Assign(t).pml4 != Index(255) ==>
              Wanted(virt, phys, offsets, regions, listing, frames)(Assign(HighAlias(t))) == t
  {
    hide Assign, Plus, HighAlias, UsableFrame, FrameOf, Meant;
    FrameOfPage(t);
    FrameOfAlias(t);
    PageIsLow(t);
    if Assign(t).pml4 != Index(255) {
      AliasBelowKernel(t);
    }
  }

  /** The state between two `paging_map_page` calls of the boot code. */
  ghost predicate Building(m: Memory, root: Word, frames: seq<Word>, plan: Indexer -> Word, places: set<Place>) {
    Sound(m, root, frames) && Follows(m, root, plan) && StillFree(frames, plan, places)
  }

  ghost predicate StillFree(frames: seq<Word>, plan: Indexer -> Word, places: set<Place>) {
    forall f :: f in frames ==> plan(Assign(f)) == f && Covers(places, Assign(f))
  }

  method MapKernelPage(space: AddressSpace, virt: Word, phys: Word, ghost plan: Indexer -> Word,
                       ghost places: set<Place>)
    returns (ok: bool)
    requires Building(space.mem, space.pml4, space.frames, plan, places)
    requires Covers(places, Assign(virt)) && plan(Assign(virt)) == phys == GetAddress(phys) && phys != Word(0)
    modifies space
    ensures space.pml4 == old(space.pml4)
    ensures !ok ==> |Absent(old(space.mem), space.pml4, places)| > |old(space.frames)|
    ensures ok ==>
      && Building(space.mem, space.pml4, space.frames, plan, places)
      && Keeps(old(space.mem), space.mem, space.pml4) && KernelMapped(space.mem, space.pml4, virt, phys)
      && |space.frames| + |Absent(old(space.mem), space.pml4, places)|
         == |old(space.frames)| + |Absent(space.mem, space.pml4, places)|
  {
    hide GetAddress, Low, Within, Assign, Clean, Leaf, KernelPage, NewLeafEntry, TableOf, LeafAt, UsableFrame,
      Absent, Maps, Sound, Follows, Keeps, Covers, KernelMapped;
    ghost var m0, fs := space.mem, space.frames;
    KernelPageIsLow();
    var r;
    ghost var pages;
    ok, r, pages := space.MapPage(virt, phys, KernelPage(), places);
    if ok {
      PlannedStep(m0, space.mem, space.pml4, pages, space.frames, virt, phys, plan);
    }
  }

  /** `places` covers the paths of every page the boot code maps and of every free frame. */
  ghost predicate CoversBoot(places: set<Place>, regions: seq<Region>, listing: seq<seq<Word>>, virt: Word,
                             offsets: seq<Word>, frames: seq<Word>)
    requires |listing| == |regions|
  {
    && (forall i, t :: 0 <= i < |regions| && regions[i].signal != 3 && t in listing[i] ==>
          Covers(places, Assign(t)) && Covers(places, Assign(HighAlias(t))))
    && (forall o :: o in offsets ==> Covers(places, Assign(Plus(virt, o))))
    && (forall f :: f in frames ==> Covers(places, Assign(f)))
  }

  lemma BootStart(m: Memory, root: Word, frames: seq<Word>, regions: seq<Region>, listing: seq<seq<Word>>,
                  virt: Word, phys: Word, size: Word, offsets: seq<Word>, places: set<Place>)
    requires Bootable(regions, listing, virt, phys, size, offsets)
    requires CoversBoot(places, regions, listing, virt, offsets, frames)
    requires UsableFrame(root) && root !in frames && forall f :: f in frames ==> UsableFrame(f)
    requires forall i, j :: 0 <= i < j < |frames| ==> frames[i] != frames[j]
    ensures Building(Zeroed(m, root), root, frames, Wanted(virt, phys, offsets, regions, listing, frames), places)
    ensures |Absent(Zeroed(m, root), root, places)| <= |places|
    ensures Steps(Word(0), size, offsets)
  {
    hide GetAddress, Assign, UsableFrame, Sound, LeafAt, TableOf, HighAlias, Plus, Wanted, Covers, Before, NextPage;
    EmptyTree(m, root, frames);
    ZeroWord();
    forall f | f in frames ensures Wanted(virt, phys, offsets, regions, listing, frames)(Assign(f)) == f {
      WantedOfFrame(virt, phys, offsets, f, regions, listing, frames);
      assert Names(frames, Assign(f));
    }
    SubsetSize(Absent(Zeroed(m, root), root, places), places);
  }

  /** What the loop over a region needs to know of it. */
  lemma RegionPages(regions: seq<Region>, listing: seq<seq<Word>>, virt: Word, phys: Word, size: Word,
                    offsets: seq<Word>, frames: seq<Word>, places: set<Place>, i: nat)
    requires Bootable(regions, listing, virt, phys, size, offsets) && i < |regions| && regions[i].signal != 3
    requires CoversBoot(places, regions, listing, virt, offsets, frames)
    ensures Steps(regions[i].base, Plus(regions[i].base, regions[i].length), listing[i])
    ensures |listing| == |regions|
    ensures var plan := Wanted(virt, phys, offsets, regions, listing, frames);
            forall t :: t in listing[i] ==>
              && t != Word(0) && GetAddress(t) == t && plan(Assign(t)) == t && plan(Assign(HighAlias(t))) == t
              && Covers(places, Assign(t)) && Covers(places, Assign(HighAlias(t)))
  {
    hide GetAddress, Assign, UsableFrame, HighAlias, Plus, Wanted, Covers, Before, NextPage;
    var plan := Wanted(virt, phys, offsets, regions, listing, frames);
    forall t | t in listing[i]
      ensures t != Word(0) && GetAddress(t) == t && plan(Assign(t)) == t && plan(Assign(HighAlias(t))) == t
    {
      UsableFrameAddress(t);
      UsableFrameNotNull(t);
      WantedOfFrame(virt, phys, offsets, t, regions, listing, frames);
    }
  }

  lemma UsableFrameNotNull(t: Word)
    requires UsableFrame(t)
    ensures t != Word(0)
  {
  }

  /** What the loop over the kernel image needs to know of it. */
  lemma ImagePages(regions: seq<Region>, listing: seq<seq<Word>>, virt: Word, phys: Word, size: Word,
                   offsets: seq<Word>, frames: seq<Word>, places: set<Place>)
    requires Bootable(regions, listing, virt, phys, size, offsets)
    requires CoversBoot(places, regions, listing, virt, offsets, frames)
    ensures Steps(Word(0), size, offsets)
    ensures forall o :: o in offsets ==>
              && Plus(phys, o) != Word(0) && GetAddress(Plus(phys, o)) == Plus(phys, o)
              && Wanted(virt, phys, offsets, regions, listing, frames)(Assign(Plus(virt, o))) == Plus(phys, o)
              && Covers(places, Assign(Plus(virt, o)))
  {
    hide GetAddress, Assign, UsableFrame, HighAlias, Plus, Wanted, Covers, Before, NextPage;
    forall o | o in offsets
      ensures Wanted(virt, phys, offsets, regions, listing, frames)(Assign(Plus(virt, o))) == Plus(phys, o)
    {
      WantedOfImage(virt, phys, offsets, o, regions, listing, frames);
    }
  }

  lemma BootFrames(regions: seq<Region>, listing: seq<seq<Word>>, virt: Word, phys: Word, size: Word,
                   offsets: seq<Word>, frames: seq<Word>, places: set<Place>)
    requires Bootable(regions, listing, virt, phys, size, offsets)
    requires CoversBoot(places, regions, listing, virt, offsets, frames)
    requires forall f :: f in frames ==> UsableFrame(f)
    ensures |regions| == |listing| && Word(0) !in frames
    ensures frames != [] ==> CoversBoot(places, regions, listing, virt, offsets, frames[1..])
  {
    hide Assign, HighAlias, Plus, Covers, Steps;
  }

  /** The value loaded into cr3 when the root is itself a page of some region. */
  lemma RootWalksToItself(m: Memory, root: Word, regions: seq<Region>, listing: seq<seq<Word>>)
    requires |regions| == |listing| && RegionsDoubled(m, root, regions, listing, |regions|)
    ensures (exists i :: 0 <= i < |regions| && regions[i].signal != 3 && root in listing[i]) ==>
              WalkOf(m, root, root) == root
  {
    hide WalkOf, HighAlias;
  }

  lemma BuildingIsSound(m: Memory, root: Word, frames: seq<Word>, plan: Indexer -> Word, places: set<Place>)
    requires Building(m, root, frames, plan, places)
    ensures Sound(m, root, frames) && StillFree(frames, plan, places)
  {
  }

  lemma BuildingNothingElse(m: Memory, root: Word, frames: seq<Word>, places: set<Place>, virt: Word, phys: Word,
                            offsets: seq<Word>, regions: seq<Region>, listing: seq<seq<Word>>, fs: seq<Word>)
    requires |listing| == |regions|
    requires Building(m, root, frames, Wanted(virt, phys, offsets, regions, listing, fs), places)
    ensures NothingElse(m, root, virt, offsets, regions, listing, fs)
  {
    hide Sound, Meant, Assign, Plus, LeafAt, Covers;
  }

  lemma NoRegions(m: Memory, root: Word, regions: seq<Region>, listing: seq<seq<Word>>)
    requires |regions| == |listing|
    ensures RegionsDoubled(m, root, regions, listing, 0) && Doubled(m, root, [])
  {
  }

  lemma OneMoreRegion(m: Memory, root: Word, regions: seq<Region>, listing: seq<seq<Word>>, i: nat)
    requires i < |regions| == |listing| && RegionsDoubled(m, root, regions, listing, i)
    requires regions[i].signal != 3 ==> Doubled(m, root, listing[i])
    ensures RegionsDoubled(m, root, regions, listing, i + 1)
  {
  }

  /** One page of a region mapped at both its addresses. */
  lemma OneMorePage(m1: Memory, m2: Memory, m3: Memory, root: Word, pages: seq<Word>, k: nat)
    requires k < |pages| && Word(0) !in pages && Doubled(m1, root, pages[..k])
    requires Keeps(m1, m2, root) && Keeps(m2, m3, root)
    requires KernelMapped(m2, root, pages[k], pages[k]) && KernelMapped(m3, root, HighAlias(pages[k]), pages[k])
    ensures Doubled(m3, root, pages[..k + 1])
  {
    hide GetAddress, Assign, LeafAt, HighAlias, Supervisor;
    KeepsDoubled(m1, m2, root, pages[..k]);
    KeepsDoubled(m2, m3, root, pages[..k]);
    assert pages[..k + 1] == pages[..k] + [pages[k]];
  }

  lemma OneMoreImagePage(m1: Memory, m2: Memory, root: Word, virt: Word, phys: Word, offsets: seq<Word>, k: nat)
    requires k < |offsets| && Loaded(m1, root, virt, phys, offsets[..k]) && Keeps(m1, m2, root)
    requires forall o :: o in offsets ==> Plus(phys, o) != Word(0)
    requires KernelMapped(m2, root, Plus(virt, offsets[k]), Plus(phys, offsets[k]))
    ensures Loaded(m2, root, virt, phys, offsets[..k + 1])
  {
    hide GetAddress, Assign, LeafAt, Plus, Supervisor;
    KeepsLoaded(m1, m2, root, virt, phys, offsets[..k]);
    assert offsets[..k + 1] == offsets[..k] + [offsets[k]];
  }

  lemma RegionsKept(m: Memory, m': Memory, root: Word, regions: seq<Region>, listing: seq<seq<Word>>, n: nat,
                    virt: Word, phys: Word, size: Word, offsets: seq<Word>)
    requires Bootable(regions, listing, virt, phys, size, offsets) && n <= |regions|
    requires Keeps(m, m', root) && RegionsDoubled(m, root, regions, listing, n)
    ensures RegionsDoubled(m', root, regions, listing, n)
  {
    hide GetAddress, Assign, UsableFrame, Keeps, Doubled, Plus, Steps;
    forall i | 0 <= i < n && regions[i].signal != 3 ensures Doubled(m', root, listing[i]) {
      forall t | t in listing[i] ensures t != Word(0) {
        UsableFrameNotNull(t);
      }
      KeepsDoubled(m, m', root, listing[i]);
    }
  }

  /** The inner loop: each page of a region, at its own address and at its upper-half alias. */
  method MapRegion(space: AddressSpace, region: Region, ghost pages: seq<Word>, ghost plan: Indexer -> Word,
                   ghost places: set<Place>)
    returns (ok: bool)
    requires Building(space.mem, space.pml4, space.frames, plan, places)
    requires Steps(region.base, Plus(region.base, region.length), pages)
    requires forall t :: t in pages ==>
      && t != Word(0) && GetAddress(t) == t
      && plan(Assign(t)) == t && plan(Assign(HighAlias(t))) == t
      && Covers(places, Assign(t)) && Covers(places, Assign(HighAlias(t)))
    modifies space
    ensures space.pml4 == old(space.pml4)
    ensures !ok ==> |Absent(old(space.mem), space.pml4, places)| > |old(space.frames)|
    ensures ok ==>
      && Building(space.mem, space.pml4, space.frames, plan, places)
      && Keeps(old(space.mem), space.mem, space.pml4) && Doubled(space.mem, space.pml4, pages)
      && |space.frames| + |Absent(old(space.mem), space.pml4, places)|
         == |old(space.frames)| + |Absent(space.mem, space.pml4, places)|
  {
    hide GetAddress, Low, Within, Assign, LeafAt, TableOf, Plus, NextPage, HighAlias, Before, Absent, Building,
      Keeps, Covers, KernelMapped, Doubled;
    ghost var m0, fs, root := space.mem, space.frames, space.pml4;
    KeepsItself(m0, root);
    assert pages[..0] == [];
    var t := region.base;
    var end := Plus(region.base, region.length);
    ghost var k := 0;
    ok := true;
    while Before(t, end)
      invariant 0 <= k <= |pages| && (if k < |pages| then t == pages[k] else !Before(t, end))
      invariant space.pml4 == root && Building(space.mem, root, space.frames, plan, places)
      invariant |space.frames| + |Absent(m0, root, places)| == |fs| + |Absent(space.mem, root, places)|
      invariant Keeps(m0, space.mem, root) && Doubled(space.mem, root, pages[..k])
      decreases |pages| - k
    {
      ghost var m1 := space.mem;
      assert t == pages[k] && t in pages;
      ok := MapKernelPage(space, t, t, plan, places);
      if !ok { return; }
      ghost var m2 := space.mem;
      ok := MapKernelPage(space, HighAlias(t), t, plan, places);
      if !ok { return; }
      OneMorePage(m1, m2, space.mem, root, pages, k);
      KeepsTransitive(m1, m2, space.mem, root);
      KeepsTransitive(m0, m1, space.mem, root);
      t := NextPage(t);
      k := k + 1;
    }
    assert pages[..k] == pages;
  }

  /** The loop over the kernel image. */
  method MapImage(space: AddressSpace, virt: Word, phys: Word, size: Word, ghost offsets: seq<Word>,
                  ghost plan: Indexer -> Word, ghost places: set<Place>)
    returns (ok: bool)
    requires Building(space.mem, space.pml4, space.frames, plan, places)
    requires Steps(Word(0), size, offsets)
    requires forall o :: o in offsets ==>
      && Plus(phys, o) != Word(0) && GetAddress(Plus(phys, o)) == Plus(phys, o)
      && plan(Assign(Plus(virt, o))) == Plus(phys, o) && Covers(places, Assign(Plus(virt, o)))
    modifies space
    ensures space.pml4 == old(space.pml4)
    ensures !ok ==> |Absent(old(space.mem), space.pml4, places)| > |old(space.frames)|
    ensures ok ==>
      && Building(space.mem, space.pml4, space.frames, plan, places)
      && Keeps(old(space.mem), space.mem, space.pml4) && Loaded(space.mem, space.pml4, virt, phys, offsets)
      && |space.frames| + |Absent(old(space.mem), space.pml4, places)|
         == |old(space.frames)| + |Absent(space.mem, space.pml4, places)|
  {
    hide GetAddress, Low, Within, Assign, LeafAt, TableOf, Plus, NextPage, Before, Absent, Building, Keeps, Covers,
      KernelMapped, Loaded;
    ghost var m0, fs, root := space.mem, space.frames, space.pml4;
    KeepsItself(m0, root);
    NoneLoaded(m0, root, virt, phys, offsets);
    var o := Word(0);
    ghost var k := 0;
    ok := true;
    while Before(o, size)
      invariant 0 <= k <= |offsets| && (if k < |offsets| then o == offsets[k] else !Before(o, size))
      invariant space.pml4 == root && Building(space.mem, root, space.frames, plan, places)
      invariant |space.frames| + |Absent(m0, root, places)| == |fs| + |Absent(space.mem, root, places)|
      invariant Keeps(m0, space.mem, root) && Loaded(space.mem, root, virt, phys, offsets[..k])
      decreases |offsets| - k
    {
      ghost var m1 := space.mem;
      assert o == offsets[k] && o in offsets;
      ok := MapKernelPage(space, Plus(virt, o), Plus(phys, o), plan, places);
      if !ok { return; }
      OneMoreImagePage(m1, space.mem, root, virt, phys, offsets, k);
      KeepsTransitive(m0, m1, space.mem, root);
      o := NextPage(o);
      k := k + 1;
    }
    assert offsets[..k] == offsets;
  }

  lemma NoneLoaded(m: Memory, root: Word, virt: Word, phys: Word, offsets: seq<Word>)
    ensures Loaded(m, root, virt, phys, offsets[..0])
  {
  }

  /** `paging_reload_kernel_map`. `listing` names the pages of each region and `offsets` those of the
      kernel image; `cr3` is the value loaded at the end. */
  method ReloadKernelMap(space: AddressSpace, regions: seq<Region>, kernelVirt: Word, kernelPhys: Word, size: Word,
                         ghost listing: seq<seq<Word>>, ghost offsets: seq<Word>, ghost places: set<Place>)
    returns (ok: bool, cr3: Word)
    requires Bootable(regions, listing, kernelVirt, kernelPhys, size, offsets)
    requires CoversBoot(places, regions, listing, kernelVirt, offsets, space.frames)
    requires forall f :: f in space.frames ==> UsableFrame(f)
    requires forall i, j :: 0 <= i < j < |space.frames| ==> space.frames[i] != space.frames[j]
    modifies space
    ensures |old(space.frames)| > |places| ==> ok
    ensures ok ==> |space.frames| + 1 + |places| >= |old(space.frames)| + |Absent(space.mem, space.pml4, places)|
    ensures ok ==> space.Valid() && old(space.frames) != [] && space.pml4 == old(space.frames)[0]
    ensures ok ==> RegionsDoubled(space.mem, space.pml4, regions, listing, |regions|)
    ensures ok ==> Loaded(space.mem, space.pml4, kernelVirt, kernelPhys, offsets)
    ensures ok ==> NothingElse(space.mem, space.pml4, kernelVirt, offsets, regions, listing, old(space.frames)[1..])
    ensures ok ==> var plan := Wanted(kernelVirt, kernelPhys, offsets, regions, listing, old(space.frames)[1..]);
                   StillFree(space.frames, plan, places)
    ensures ok && (exists i :: 0 <= i < |regions| && regions[i].signal != 3 && space.pml4 in listing[i]) ==>
              cr3 == space.pml4
  {
    hide GetAddress, Low, Within, Assign, Clean, Leaf, KernelPage, TableOf, LeafAt, Grows, UsableFrame, Plus,
      NextPage, HighAlias, Before, Absent, Sound, Building, Bootable, CoversBoot, Keeps, Covers,
      WalkOf, KernelMapped, Wanted,
      Doubled, RegionsDoubled, Loaded, NothingElse, StillFree;
    cr3 := Word(0);
    BootFrames(regions, listing, kernelVirt, kernelPhys, size, offsets, space.frames, places);
    assert space.frames != [] ==> space.frames[0] in space.frames;
    var root := space.AllocPage();
    if root == Word(0) {
      return false, cr3;
    }
    space.pml4 := root;
    space.mem := Zeroed(space.mem, root);
    ghost var m0, fs := space.mem, space.frames;
    ghost var plan := Wanted(kernelVirt, kernelPhys, offsets, regions, listing, fs);
    assert root == old(space.frames)[0] && forall f :: f in fs ==> f in old(space.frames);
    BootStart(old(space.mem), root, fs, regions, listing, kernelVirt, kernelPhys, size, offsets, places);
    NoRegions(m0, root, regions, listing);
    ok := true;

    for i := 0 to |regions|
      invariant space.pml4 == root && Building(space.mem, root, space.frames, plan, places)
      invariant |space.frames| + |Absent(m0, root, places)| == |fs| + |Absent(space.mem, root, places)|
      invariant RegionsDoubled(space.mem, root, regions, listing, i)
    {
      if regions[i].signal != NOUSE {
        RegionPages(regions, listing, kernelVirt, kernelPhys, size, offsets, old(space.frames)[1..], places, i);
        ghost var m1 := space.mem;
        ok := MapRegion(space, regions[i], listing[i], plan, places);
        if !ok { return; }
        RegionsKept(m1, space.mem, root, regions, listing, i, kernelVirt, kernelPhys, size, offsets);
      }
      OneMoreRegion(space.mem, root, regions, listing, i);
    }

    ImagePages(regions, listing, kernelVirt, kernelPhys, size, offsets, old(space.frames)[1..], places);
    ghost var m2 := space.mem;
    ok := MapImage(space, kernelVirt, kernelPhys, size, offsets, plan, places);
    if !ok { return; }
    RegionsKept(m2, space.mem, root, regions, listing, |regions|, kernelVirt, kernelPhys, size, offsets);
    BuildingIsSound(space.mem, root, space.frames, plan, places);
    BuildingNothingElse(space.mem, root, space.frames, places, kernelVirt, kernelPhys, offsets, regions, listing, fs);
    RootWalksToItself(space.mem, root, regions, listing);
    cr3 := space.WalkPage(space.pml4);
  }
}

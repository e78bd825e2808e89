/** The kernel heap in the address space built at boot: the map leaves its addresses alone, so it can be
    initialized there and grow. */
module HeapBoot {
  import opened Wrappers
  import opened Descriptors
  import opened Addresses
  import opened Sections
  import opened PageTree
  import opened PageSteps
  import opened Paging
  import opened Reload
  import opened KernelBoot
  import opened BackedHeap
  import PageRuns
  import HeapRuns
  import BackedRuns
  import Segments
  import Heap
  import SectionList
  import Boot
  import B = BootMap

  /** All of memory lies below `start`. */
  ghost predicate MemoryBelow(entries: seq<B.Entry>, start: nat) {
    start <= 0x8000_0000_0000 && forall i :: 0 <= i < |entries| ==> B.EntryEnd(entries[i]) <= start
  }

  /** The pages the manager hands out lie there too. */
  lemma HandoutsBelow(secs: seq<Sec>, entries: seq<B.Entry>, own: nat, pages: nat, n: nat, start: nat)
    requires B.MapOk(entries) && Formed(secs) && Boot.Booted(secs, entries, own, pages)
    requires MemoryBelow(entries, start)
    ensures FramesBelow(FramesOf(PageRuns.Handouts(secs, n)), start)
    ensures forall f :: f in FramesOf(PageRuns.Handouts(secs, n)) ==> UsableFrame(f)
  {
    hide KindAt, Formed, WordOf, Boot.Booted, UsableFrame, FramesBelow;
    var handed := PageRuns.Handouts(secs, n);
    var frames := FramesOf(handed);
    PageRuns.HandoutsRise(secs, n);
    forall i | 0 <= i < |handed| ensures handed[i] < start && UsableFrame(frames[i]) {
      FreeIsInRegion(secs, entries, own, pages, handed[i]);
      PageIsUsable(handed[i]);
    }
    PagesAreBelow(handed, frames, start);
  }

  lemma FewerBelow(frames: seq<Word>, start: nat)
    requires FramesBelow(frames, start) && frames != [] && forall f :: f in frames ==> UsableFrame(f)
    ensures FramesBelow(frames[1..], start) && forall f :: f in frames[1..] ==> UsableFrame(f)
  {
    hide WordOf, UsableFrame;
    assert forall f :: f in frames[1..] ==> f in frames;
  }

  /** A page of memory and its alias are not a page of the lower half above memory. */
  lemma MemoryIsElsewhere(end: nat, limit: Word, t: Word, p: nat)
    requires limit == WordOf(end) && Before(t, limit) && UsableFrame(t) && end <= p < 0x8000_0000_0000
    requires UsableFrame(WordOf(p))
    ensures Assign(t) != Assign(WordOf(p)) && Assign(HighAlias(t)) != Assign(WordOf(p))
  {
    hide WordOf, Before, UsableFrame, Assign, HighAlias;
    AliasIsHigh(t, WordOf(p));
    if Assign(t) == Assign(WordOf(p)) {
      UsableFramesDistinct(t, WordOf(p));
      if end < p {
        WordsInOrder(end, p);
      }
      NotBothWays(WordOf(end), WordOf(p));
    }
  }

  lemma NotBothWays(v: Word, w: Word)
    requires v == w || Before(v, w)
    ensures !Before(w, v)
  {
  }

  /** So the boot code means to map nothing at the heap's addresses. */
  lemma HeapIsNotMeant(entries: seq<B.Entry>, regions: seq<Region>, listing: seq<seq<Word>>, virt: Word, phys: Word,
                       size: Word, offsets: seq<Word>, fs: seq<Word>, start: nat, p: nat)
    requires SameMap(entries, regions) && Bootable(regions, listing, virt, phys, size, offsets)
    requires MemoryBelow(entries, start) && FramesBelow(fs, start) && forall f :: f in fs ==> UsableFrame(f)
    requires start <= p < 0x8000_0000_0000 && UsableFrame(WordOf(p))
    ensures !Meant(Assign(WordOf(p)), regions, listing, fs)
    ensures forall o :: o in offsets ==> Assign(Plus(virt, o)) != Assign(WordOf(p))
  {
    hide WordOf, Before, UsableFrame, Assign, HighAlias, Plus, NextPage;
    var x := Assign(WordOf(p));
    PageIsLow(WordOf(p));
    forall i, t | 0 <= i < |regions| && regions[i].signal != 3 && t in listing[i]
      ensures Assign(t) != x && Assign(HighAlias(t)) != x
    {
      MemoryIsElsewhere(B.EntryEnd(entries[i]), Plus(regions[i].base, regions[i].length), t, p);
    }
    forall f | f in fs ensures Assign(f) != x {
      if Assign(f) == x {
        UsableFramesDistinct(f, WordOf(p));
      }
    }
  }

  /** The heap can be initialized in the address space built at boot and grow up to `limit`. */
  lemma HeapHasRoom(m: Memory, root: Word, frames: seq<Word>, entries: seq<B.Entry>, regions: seq<Region>,
                    listing: seq<seq<Word>>, virt: Word, phys: Word, size: Word, offsets: seq<Word>, fs: seq<Word>,
                    places: set<Place>, start: nat, limit: nat)
    requires SameMap(entries, regions) && Bootable(regions, listing, virt, phys, size, offsets)
    requires MemoryBelow(entries, start) && FramesBelow(fs, start) && forall f :: f in fs ==> UsableFrame(f)
    requires NothingElse(m, root, virt, offsets, regions, listing, fs) && Sound(m, root, frames)
    requires StillFree(frames, Wanted(virt, phys, offsets, regions, listing, fs), places)
    requires 0 < start <= limit <= 0x8000_0000_0000 && start % 0x1000 == 0
    requires forall p: nat :: start <= p < limit && p % 0x1000 == 0 ==> Covers(places, Assign(WordOf(p)))
    ensures Room(m, root, frames, start, start, limit, places)
  {
    hide WordOf, Assign, LeafAt, Covers, Tree, LeavesDecide, Bootable, SameMap, Meant, UsableFrame, Plus;
    forall p: nat | start <= p < limit && p % 0x1000 == 0 ensures LeafAt(m, root, Assign(WordOf(p))) == Word(0) {
      PageIsUsable(p);
      HeapIsNotMeant(entries, regions, listing, virt, phys, size, offsets, fs, start, p);
    }
    forall p: nat | p < 0x8000_0000_0000 && WordOf(p) in frames ensures p < start {
      if start <= p {
        HeapIsNotMeant(entries, regions, listing, virt, phys, size, offsets, fs, start, p);
        UsableFrameNotNull(WordOf(p));
      }
    }
  }

  /** From the memory map to a running heap: the address space is built with the frames of the booted
      manager, the heap in it serves any lawful run of `malloc` and `free`, and every page of the heap
      walks to a frame of its own. All of it succeeds when the manager has as many pages as there are
      places for tables and pages for the heap to grow into. */
  method BootAndRun(manager: SectionList.Manager, space: AddressSpace, heap: Heap.KernelHeap, calls: seq<HeapRuns.Call>,
                    ghost entries: seq<B.Entry>, regions: seq<Region>, kernelVirt: Word, kernelPhys: Word, size: Word,
                    ghost own: nat, ghost pages: nat, ghost n: nat, ghost listing: seq<seq<Word>>,
                    ghost offsets: seq<Word>, ghost limit: nat, ghost places: set<Place>)
    returns (ok: bool, handed: seq<nat>, ghost given: seq<Word>)
    requires manager.Valid() && Formed(manager.Contents())
    requires B.MapOk(entries) && Boot.Booted(manager.Contents(), entries, own, pages) && SameMap(entries, regions)
    requires MemoryBelow(entries, 0x7f00_0000_0000) && 0x7f00_0000_0000 + 256 * 0x1000 <= limit <= 0x8000_0000_0000
    requires space.frames == FramesOf(PageRuns.Handouts(manager.Contents(), n)) && !heap.initialized
    requires Bootable(regions, listing, kernelVirt, kernelPhys, size, offsets)
    requires CoversBoot(places, regions, listing, kernelVirt, offsets, space.frames)
    requires forall p: nat :: 0x7f00_0000_0000 <= p < limit && p % 0x1000 == 0 ==> Covers(places, Assign(WordOf(p)))
    requires var st := HeapRuns.State(Segments.FirstHeap(), map[]);
             HeapRuns.Consistent(st) && HeapRuns.Lawful(st, calls) && EndsBelow(HeapRuns.Run(st, calls).segs, limit)
    modifies space, heap
    ensures |old(space.frames)| > |places| + PagesLeft(0x7f00_0000_0000, limit, []) ==> ok
    ensures ok ==> Kept(heap, space, given, limit, places)
    ensures var st := HeapRuns.State(Segments.FirstHeap(), map[]);
            ok ==> Row(heap) == HeapRuns.Run(st, calls).segs && handed == BackedRuns.Answers(st, calls)
  {
    hide Formed, Chain, KindAt, WordOf, Boot.Booted, UsableFrame, CoversBoot, PageRuns.Handouts, SameMap, B.MapOk,
      Bootable, NothingElse, StillFree, Wanted, Absent, FramesBelow, Room, RegionsDoubled, Loaded, MemoryBelow,
      HeapRuns.Consistent, HeapRuns.Lawful, HeapRuns.Run, BackedRuns.Answers, EndsBelow, Sound, Covers;
    handed, given := [], [];
    ghost var fs := space.frames;
    HandoutsBelow(manager.Contents(), entries, own, pages, n, 0x7f00_0000_0000);
    var cr3;
    ok, cr3 := ReloadAfterStart(manager, space, entries, regions, kernelVirt, kernelPhys, size, own, pages, n, listing,
                                offsets, places);
    if !ok {
      return;
    }
    FewerBelow(fs, 0x7f00_0000_0000);
    HeapHasRoom(space.mem, space.pml4, space.frames, entries, regions, listing, kernelVirt, kernelPhys, size, offsets,
                fs[1..], places, 0x7f00_0000_0000, limit);
    ok, handed, given := BackedRuns.Serve(heap, space, calls, map[], [], limit, places);
  }
}

/** From the boot loader's memory map to the kernel's own address space: the page-frame manager that
    `pmm_start` leaves behind hands out the frames `paging_reload_kernel_map` builds its tables from. */
module KernelBoot {
  import opened Wrappers
  import opened Descriptors
  import opened Addresses
  import opened Sections
  import opened PageTree
  import opened PageRuns
  import opened Reload
  import opened Paging
  import SectionList
  import Boot
  import B = BootMap

  /** The regions of the memory map as the words the loops of `paging_reload_kernel_map` count in; the
      map lies below 128 TiB. */
  ghost predicate SameMap(entries: seq<B.Entry>, regions: seq<Region>) {
    && |regions| == |entries|
    && forall i :: 0 <= i < |entries| ==>
         && regions[i].signal == entries[i].signal && B.EntryEnd(entries[i]) <= 0x8000_0000_0000
         && regions[i].base == WordOf(entries[i].base)
         && Plus(regions[i].base, regions[i].length) == WordOf(B.EntryEnd(entries[i]))
  }

  function FramesOf(pages: seq<nat>): (frames: seq<Word>)
    ensures |frames| == |pages| && forall i :: 0 <= i < |pages| ==> frames[i] == WordOf(pages[i])
  {
    seq(|pages|, i requires 0 <= i < |pages| => WordOf(pages[i]))
  }

  /** A page of a region is among the values its loop counter takes. */
  lemma {:induction false} CounterReaches(first: nat, end: nat, pages: seq<Word>, p: nat)
    requires Steps(WordOf(first), WordOf(end), pages) && first <= p < end < 0x1_0000_0000_0000
    requires first % 0x1000 == 0 && p % 0x1000 == 0
    ensures WordOf(p) in pages
    decreases |pages|
  {
    hide Before, NextPage, WordOf;
    WordsInOrder(first, end);
    if first < p {
      WordOfNextPage(first);
      WordsInOrder(first + 0x1000, end);
      assert |pages| > 1;
      var rest := pages[1..];
      assert pages[1] == NextPage(pages[0]);
      assert forall k :: 0 < k < |rest| ==> rest[k] == pages[k + 1] && rest[k - 1] == pages[k];
      CounterReaches(first + 0x1000, end, rest, p);
    }
  }

  /** A FREE page of the booted manager lies in a free region of the map. */
  lemma FreeIsInRegion(secs: seq<Sec>, entries: seq<B.Entry>, own: nat, pages: nat, p: nat)
    requires entries != [] && Boot.Booted(secs, entries, own, pages) && KindAt(secs, p) == Some(Free)
    ensures exists i :: 0 <= i < |entries| && entries[i].signal == 0 && B.Holds(entries[i], p)
  {
    hide KindAt;
  }

  /** The frames handed out after `pmm_start`: usable as tables, all different, and each one of the pages
      the boot code maps. */
  ghost predicate GoodFrames(frames: seq<Word>, regions: seq<Region>, listing: seq<seq<Word>>) {
    && |listing| == |regions|
    && (forall f :: f in frames ==>
          UsableFrame(f) && exists i :: 0 <= i < |regions| && regions[i].signal != 3 && f in listing[i])
    && (forall i, j :: 0 <= i < j < |frames| ==> frames[i] != frames[j])
  }

  lemma HandoutsAreGood(secs: seq<Sec>, entries: seq<B.Entry>, own: nat, pages: nat, n: nat,
                        regions: seq<Region>, listing: seq<seq<Word>>)
    requires B.MapOk(entries) && Formed(secs) && Boot.Booted(secs, entries, own, pages)
    requires SameMap(entries, regions) && |listing| == |regions|
    requires forall i :: 0 <= i < |regions| && regions[i].signal != 3 ==>
               Steps(regions[i].base, Plus(regions[i].base, regions[i].length), listing[i])
    ensures GoodFrames(FramesOf(Handouts(secs, n)), regions, listing)
  {
    hide KindAt, Formed, WordOf, Boot.Booted, Steps, Plus, UsableFrame, Before;
    var handed := Handouts(secs, n);
    var frames := FramesOf(handed);
    HandoutsRise(secs, n);
    forall f | f in frames
      ensures UsableFrame(f) && exists i :: 0 <= i < |regions| && regions[i].signal != 3 && f in listing[i]
    {
      var k :| 0 <= k < |frames| && frames[k] == f;
      HandoutIsGood(secs, entries, own, pages, regions, listing, handed[k]);
    }
    forall i, j | 0 <= i < j < |frames| ensures frames[i] != frames[j] {
      HandoutIsLow(secs, entries, own, pages, handed[j]);
      WordsInOrder(handed[i], handed[j]);
      BeforeIsOther(frames[i], frames[j]);
    }
  }

  lemma BeforeIsOther(v: Word, w: Word)
    requires Before(v, w)
    ensures v != w
  {
  }

  lemma HandoutIsLow(secs: seq<Sec>, entries: seq<B.Entry>, own: nat, pages: nat, p: nat)
    requires B.MapOk(entries) && Boot.Booted(secs, entries, own, pages) && KindAt(secs, p) == Some(Free)
    requires forall i :: 0 <= i < |entries| ==> B.EntryEnd(entries[i]) <= 0x8000_0000_0000
    ensures p < 0x8000_0000_0000
  {
    hide KindAt;
    FreeIsInRegion(secs, entries, own, pages, p);
  }

  lemma HandoutIsGood(secs: seq<Sec>, entries: seq<B.Entry>, own: nat, pages: nat, regions: seq<Region>,
                      listing: seq<seq<Word>>, p: nat)
    requires B.MapOk(entries) && Boot.Booted(secs, entries, own, pages) && KindAt(secs, p) == Some(Free)
    requires p != 0 && p % 0x1000 == 0 && SameMap(entries, regions) && |listing| == |regions|
    requires forall i :: 0 <= i < |regions| && regions[i].signal != 3 ==>
               Steps(regions[i].base, Plus(regions[i].base, regions[i].length), listing[i])
    ensures UsableFrame(WordOf(p))
    ensures exists i :: 0 <= i < |regions| && regions[i].signal != 3 && WordOf(p) in listing[i]
  {
    hide KindAt, WordOf, Steps, Plus, UsableFrame;
    FreeIsInRegion(secs, entries, own, pages, p);
    var i :| 0 <= i < |entries| && entries[i].signal == 0 && B.Holds(entries[i], p);
    PageIsUsable(p);
    CounterReaches(entries[i].base, B.EntryEnd(entries[i]), listing[i], p);
  }

  /** `paging_reload_kernel_map` with the frames of the manager `pmm_start` left: whatever it needs of
      them holds, and the value it loads into cr3 is its root. */
  method ReloadAfterStart(manager: SectionList.Manager, space: AddressSpace, ghost entries: seq<B.Entry>,
                          regions: seq<Region>, kernelVirt: Word, kernelPhys: Word, size: Word,
                          ghost own: nat, ghost pages: nat, ghost n: nat,
                          ghost listing: seq<seq<Word>>, ghost offsets: seq<Word>, ghost places: set<Place>)
    returns (ok: bool, cr3: Word)
    requires manager.Valid() && Formed(manager.Contents())
    requires B.MapOk(entries) && Boot.Booted(manager.Contents(), entries, own, pages) && SameMap(entries, regions)
    requires space.frames == FramesOf(Handouts(manager.Contents(), n))
    requires Bootable(regions, listing, kernelVirt, kernelPhys, size, offsets)
    requires CoversBoot(places, regions, listing, kernelVirt, offsets, space.frames)
    modifies space
    ensures |old(space.frames)| > |places| ==> ok
    ensures ok ==> old(space.frames) != [] && space.Valid() && cr3 == space.pml4
    ensures ok ==> RegionsDoubled(space.mem, space.pml4, regions, listing, |regions|)
    ensures ok ==> Loaded(space.mem, space.pml4, kernelVirt, kernelPhys, offsets)
    ensures ok ==> NothingElse(space.mem, space.pml4, kernelVirt, offsets, regions, listing, old(space.frames)[1..])
    ensures ok ==> var plan := Wanted(kernelVirt, kernelPhys, offsets, regions, listing, old(space.frames)[1..]);
                   StillFree(space.frames, plan, places)
    ensures ok ==> |space.frames| + 1 + |places| >= |old(space.frames)| + |Absent(space.mem, space.pml4, places)|
  {
    hide Formed, Chain, KindAt, WordOf, Boot.Booted, Steps, Plus, UsableFrame, CoversBoot, Handouts,
      RegionsDoubled, Loaded, SameMap, B.MapOk, NothingElse, StillFree, Wanted, Absent;
    HandoutsAreGood(manager.Contents(), entries, own, pages, n, regions, listing);
    assert space.frames != [] ==> space.frames[0] in space.frames;
    ok, cr3 := ReloadKernelMap(space, regions, kernelVirt, kernelPhys, size, listing, offsets, places);
  }
}

/** The heap with the pages it lies on: `heap_initialize` and `heap_expand` map pages and then write
    headers, so over every run of `malloc` and `free` each page of the heap has a frame of its own. */
module BackedHeap {
  import opened Descriptors
  import opened Addresses
  import opened PageTree
  import opened PageSteps
  import opened PageTheorems
  import opened Paging
  import opened HeapPages
  import opened Heap
  import Reload
  import Segments

  /** `count` pages from the address `at` on. */
  function PagesAt(at: nat, count: nat): (pages: seq<Word>)
    ensures |pages| == count && forall k :: 0 <= k < count ==> pages[k] == WordOf(at + k * 0x1000)
  {
    seq(count, k requires 0 <= k < count => WordOf(at + k * 0x1000))
  }

  /** No free frame lies in the lower half at the heap's addresses or above. */
  ghost predicate FramesBelow(frames: seq<Word>, start: nat) {
    forall p: nat :: p < 0x8000_0000_0000 && WordOf(p) in frames ==> p < start
  }

  /** Frames of pages below the heap are such frames. */
  lemma PagesAreBelow(pages: seq<nat>, frames: seq<Word>, start: nat)
    requires |frames| == |pages| && start <= 0x8000_0000_0000
    requires forall i :: 0 <= i < |pages| ==> frames[i] == WordOf(pages[i]) && pages[i] < start
    ensures FramesBelow(frames, start)
  {
    hide WordOf, Before;
    forall p: nat | p < 0x8000_0000_0000 && WordOf(p) in frames ensures p < start {
      var i :| 0 <= i < |frames| && frames[i] == WordOf(p);
      if pages[i] < p {
        WordsInOrder(pages[i], p);
        OtherWord(WordOf(pages[i]), WordOf(p));
      }
    }
  }

  lemma OtherWord(v: Word, w: Word)
    requires Before(v, w)
    ensures v != w
  {
  }

  /** Every page from `at` on walks to a frame of its own, which is no longer free. */
  ghost predicate OwnFrames(m: Memory, root: Word, frames: seq<Word>, at: nat, given: seq<Word>) {
    && (forall k :: 0 <= k < |given| ==> KernelMapped(m, root, WordOf(at + k * 0x1000), given[k]))
    && (forall j, k :: 0 <= j < k < |given| ==> given[j] != given[k])
    && (forall f :: f in given ==> f !in frames)
  }

  predicate LowerHalf(at: nat, count: nat) {
    at % 0x1000 == 0 && 0 < at && at + count * 0x1000 <= 0x8000_0000_0000
  }

  /** The room a heap can still grow into, from `from` up to `limit`: unmapped pages whose paths `places`
      covers, as it does those of the free frames, which lie below the heap. */
  ghost predicate Room(m: Memory, root: Word, frames: seq<Word>, start: nat, from: nat, limit: nat,
                       places: set<Place>) {
    && 0 < start <= from <= limit <= 0x8000_0000_0000 && start % 0x1000 == 0 && from % 0x1000 == 0
    && FramesBelow(frames, start) && (forall f :: f in frames ==> Covers(places, Assign(f)))
    && forall p: nat :: from <= p < limit && p % 0x1000 == 0 ==>
         LeafAt(m, root, Assign(WordOf(p))) == Word(0) && Covers(places, Assign(WordOf(p)))
  }

  /** The heap is ready, each of its pages has a frame of its own, and it can grow up to `limit`. */
  ghost predicate Backed(heap: KernelHeap, space: AddressSpace, given: seq<Word>, limit: nat, places: set<Place>)
    reads heap, space
  {
    && heap.initialized && heap.Ready() && space.Valid()
    && heap.end == heap.start + |given| * 0x1000
    && Room(space.mem, space.pml4, space.frames, heap.start, heap.end, limit, places)
    && OwnFrames(space.mem, space.pml4, space.frames, heap.start, given)
  }

  lemma PageAt(at: nat, count: nat, k: nat)
    requires LowerHalf(at, count) && k < count
    ensures k + 1 < count ==> PagesAt(at, count)[k + 1] == NextPage(PagesAt(at, count)[k])
  {
    hide WordOf, NextPage, PagesAt;
    WordOfNextPage(at + k * 0x1000);
  }

  /** Different pages of the lower half have different indices. */
  lemma PagesApart(p: nat, q: nat)
    requires 0 < p < q < 0x8000_0000_0000 && p % 0x1000 == 0 && q % 0x1000 == 0
    ensures Assign(WordOf(p)) != Assign(WordOf(q))
  {
    hide Assign, UsableFrame, WordOf;
    PageIsUsable(p);
    PageIsUsable(q);
    WordsInOrder(p, q);
    if Assign(WordOf(p)) == Assign(WordOf(q)) {
      UsableFramesDistinct(WordOf(p), WordOf(q));
    }
  }

  /** No free frame's own page is a page of the heap. */
  lemma FramesApart(m: Memory, root: Word, frames: seq<Word>, start: nat, p: nat, f: Word)
    requires Ready(m, root, frames) && FramesBelow(frames, start) && f in frames
    requires 0 < start <= p < 0x8000_0000_0000 && p % 0x1000 == 0
    ensures Assign(f) != Assign(WordOf(p))
  {
    hide Assign, UsableFrame, WordOf;
    PageIsUsable(p);
    if Assign(f) == Assign(WordOf(p)) {
      UsableFramesDistinct(f, WordOf(p));
    }
  }

  lemma CanMap(m: Memory, root: Word, frames: seq<Word>, start: nat, at: nat, limit: nat, count: nat,
               places: set<Place>)
    requires Sound(m, root, frames) && Room(m, root, frames, start, at, limit, places) && at + count * 0x1000 <= limit
    ensures Mappable(m, root, frames, WordOf(at), PagesAt(at, count), places)
  {
    hide Assign, WordOf, NextPage, LeafAt, Covers, Sound, FramesBelow, UsableFrame, PagesAt;
    PagesInOrder(at, count);
    PagesFree(m, root, frames, start, at, count);
  }

  lemma PagesInOrder(at: nat, count: nat)
    requires LowerHalf(at, count)
    ensures var virts := PagesAt(at, count);
            && (virts != [] ==> virts[0] == WordOf(at))
            && (forall j, k :: 0 <= j < k < |virts| && k == j + 1 ==> virts[k] == NextPage(virts[j]))
            && (forall j, k :: 0 <= j < k < |virts| ==> Assign(virts[j]) != Assign(virts[k]))
  {
    hide Assign, WordOf, NextPage, UsableFrame, PagesAt;
    var virts := PagesAt(at, count);
    forall j, k | 0 <= j < k < count && k == j + 1 ensures virts[k] == NextPage(virts[j]) {
      PageAt(at, count, j);
    }
    forall j, k | 0 <= j < k < count ensures Assign(virts[j]) != Assign(virts[k]) {
      PagesApart(at + j * 0x1000, at + k * 0x1000);
    }
  }

  lemma PagesFree(m: Memory, root: Word, frames: seq<Word>, start: nat, at: nat, count: nat)
    requires Sound(m, root, frames) && FramesBelow(frames, start) && 0 < start <= at && LowerHalf(at, count)
    ensures forall f, k :: f in frames && 0 <= k < count ==> Assign(f) != Assign(PagesAt(at, count)[k])
  {
    hide Assign, WordOf, Tree, LeavesDecide, Ready, FramesBelow, PagesAt;
    forall f, k | f in frames && 0 <= k < count ensures Assign(f) != Assign(PagesAt(at, count)[k]) {
      FramesApart(m, root, frames, start, at + k * 0x1000, f);
    }
  }

  /** The pages that were mapped before the new ones still walk to their frames. */
  lemma OldPagesStay(m: Memory, m': Memory, root: Word, fs: seq<Word>, frames': seq<Word>, start: nat,
                     was: seq<Word>, count: nat, more: seq<Word>)
    requires Sound(m, root, fs) && FramesBelow(fs, start) && OwnFrames(m, root, fs, start, was)
    requires LowerHalf(start, |was| + count) && |more| == count
    requires Mapping(m, m', root, fs, frames', PagesAt(start + |was| * 0x1000, count), more)
    ensures OwnFrames(m', root, frames', start, was + more) && FramesBelow(frames', start)
  {
    hide Assign, WordOf, LeafAt, GetAddress, Supervisor, FramesBelow, Ready, PagesAt, Mapping, Tree, LeavesDecide;
    var at := start + |was| * 0x1000;
    NewPagesOwn(m, m', root, fs, frames', at, count, more);
    FramesStayBelow(fs, frames', start);
    forall k | 0 <= k < |was| ensures KernelMapped(m', root, WordOf(start + k * 0x1000), was[k]) {
      OldPageStays(m, m', root, fs, frames', start, |was|, count, more, k);
    }
    assert forall f :: f in frames' ==> f in fs;
    OwnTogether(m', root, frames', start, was, more);
  }

  lemma NewPagesOwn(m: Memory, m': Memory, root: Word, fs: seq<Word>, frames': seq<Word>, at: nat, count: nat,
                    more: seq<Word>)
    requires Mapping(m, m', root, fs, frames', PagesAt(at, count), more) && |more| == count
    ensures OwnFrames(m', root, frames', at, more) && forall f :: f in more ==> f in fs
    ensures |frames'| <= |fs| && frames' == fs[|fs| - |frames'|..]
  {
    hide Assign, WordOf, KernelMapped, PagesAt, Names, LeafAt;
  }

  lemma OwnTogether(m: Memory, root: Word, frames: seq<Word>, start: nat, was: seq<Word>, more: seq<Word>)
    requires OwnFrames(m, root, frames, start, was) && OwnFrames(m, root, frames, start + |was| * 0x1000, more)
    requires forall f :: f in was ==> f !in more
    ensures OwnFrames(m, root, frames, start, was + more)
  {
    hide WordOf, KernelMapped;
    var given := was + more;
    forall k | 0 <= k < |given| ensures KernelMapped(m, root, WordOf(start + k * 0x1000), given[k]) {
      if k >= |was| {
        assert start + |was| * 0x1000 + (k - |was|) * 0x1000 == start + k * 0x1000;
      }
    }
    forall j, k | 0 <= j < k < |given| ensures given[j] != given[k] {
      if j < |was| <= k {
        assert given[j] in was && given[k] in more;
      }
    }
  }

  lemma OldPageStays(m: Memory, m': Memory, root: Word, fs: seq<Word>, frames': seq<Word>, start: nat,
                     mapped: nat, count: nat, more: seq<Word>, k: nat)
    requires Sound(m, root, fs) && FramesBelow(fs, start) && LowerHalf(start, mapped + count) && k < mapped
    requires Mapping(m, m', root, fs, frames', PagesAt(start + mapped * 0x1000, count), more)
    ensures var x := Assign(WordOf(start + k * 0x1000)); LeafAt(m', root, x) == LeafAt(m, root, x)
  {
    hide Assign, WordOf, LeafAt, FramesBelow, Sound, PagesAt, Mapping, Names, LowerHalf;
    var p, at := start + k * 0x1000, start + mapped * 0x1000;
    Below(start, mapped, count, k);
    NotAmong(m, root, fs, start, at, count, p);
    OthersUntouched(m, m', root, fs, frames', PagesAt(at, count), more, Assign(WordOf(p)));
  }

  lemma Below(start: nat, mapped: nat, count: nat, k: nat)
    requires LowerHalf(start, mapped + count) && k < mapped
    ensures var at := start + mapped * 0x1000;
            && LowerHalf(at, count) && 0 < start <= start + k * 0x1000 < at <= 0x8000_0000_0000
            && (start + k * 0x1000) % 0x1000 == 0
  {
  }

  /** A page that is not among the new ones, nor a free frame's. */
  lemma NotAmong(m: Memory, root: Word, fs: seq<Word>, start: nat, at: nat, count: nat, p: nat)
    requires Sound(m, root, fs) && FramesBelow(fs, start) && LowerHalf(at, count) && 0 < start <= p
    requires p % 0x1000 == 0 && (p < at || at + count * 0x1000 <= p) && p < 0x8000_0000_0000
    ensures !Names(PagesAt(at, count), Assign(WordOf(p))) && !Names(fs, Assign(WordOf(p)))
  {
    hide Assign, WordOf, FramesBelow, Tree, LeavesDecide, Ready, PagesAt;
    var y, virts := Assign(WordOf(p)), PagesAt(at, count);
    forall f | f in fs ensures Assign(f) != y {
      FramesApart(m, root, fs, start, p, f);
    }
    forall w | w in virts ensures Assign(w) != y {
      var i :| 0 <= i < count && virts[i] == w;
      if p < at {
        PagesApart(p, at + i * 0x1000);
      } else {
        PagesApart(at + i * 0x1000, p);
      }
    }
  }

  lemma OthersUntouched(m: Memory, m': Memory, root: Word, fs: seq<Word>, frames': seq<Word>, virts: seq<Word>,
                        more: seq<Word>, y: Indexer)
    requires Mapping(m, m', root, fs, frames', virts, more) && !Names(virts, y) && !Names(fs, y)
    ensures LeafAt(m', root, y) == LeafAt(m, root, y)
  {
    hide LeafAt, Names, KernelMapped;
  }

  lemma FramesStayBelow(fs: seq<Word>, frames': seq<Word>, start: nat)
    requires FramesBelow(fs, start) && |frames'| <= |fs| && frames' == fs[|fs| - |frames'|..]
    ensures FramesBelow(frames', start)
  {
    hide WordOf;
    assert forall f :: f in frames' ==> f in fs;
  }

  /** What is left of the room once its first pages are mapped. */
  lemma RoomLeft(m: Memory, m': Memory, root: Word, fs: seq<Word>, frames': seq<Word>, start: nat, at: nat, limit: nat,
                 count: nat, more: seq<Word>, places: set<Place>)
    requires Sound(m, root, fs) && Room(m, root, fs, start, at, limit, places) && at + count * 0x1000 <= limit
    requires Mapping(m, m', root, fs, frames', PagesAt(at, count), more) && FramesBelow(frames', start)
    ensures Room(m', root, frames', start, at + count * 0x1000, limit, places)
  {
    hide Assign, WordOf, LeafAt, Sound, FramesBelow, PagesAt, Covers, Mapping;
    MappingFrames(m, m', root, fs, frames', PagesAt(at, count), more);
    var from := at + count * 0x1000;
    assert from % 0x1000 == 0;
    forall p: nat | from <= p < limit && p % 0x1000 == 0
      ensures LeafAt(m', root, Assign(WordOf(p))) == Word(0)
    {
      NewPageUntouched(m, m', root, fs, frames', start, at, count, more, p);
    }
  }

  lemma NewPageUntouched(m: Memory, m': Memory, root: Word, fs: seq<Word>, frames': seq<Word>, start: nat, at: nat,
                         count: nat, more: seq<Word>, p: nat)
    requires Sound(m, root, fs) && FramesBelow(fs, start) && 0 < start <= at && LowerHalf(at, count)
    requires at + count * 0x1000 <= p < 0x8000_0000_0000 && p % 0x1000 == 0
    requires Mapping(m, m', root, fs, frames', PagesAt(at, count), more)
    ensures LeafAt(m', root, Assign(WordOf(p))) == LeafAt(m, root, Assign(WordOf(p)))
  {
    hide Assign, WordOf, LeafAt, FramesBelow, Sound, PagesAt, Mapping, Names, LowerHalf;
    NotAmong(m, root, fs, start, at, count, p);
    OthersUntouched(m, m', root, fs, frames', PagesAt(at, count), more, Assign(WordOf(p)));
  }

  /** The places on the paths of some pages. */
  function PathsOf(ws: seq<Word>): set<Place> {
    (set w | w in ws :: Pdp(Assign(w).pml4))
    + (set w | w in ws :: Pd(Assign(w).pml4, Assign(w).pml3)) + (set w | w in ws :: PtOf(Assign(w)))
  }

  /** There is room in every fresh address space whose free frames lie below the heap. */
  lemma FreshRoom(m: Memory, root: Word, pages: seq<nat>, start: nat, count: nat)
    requires UsableFrame(root) && LowerHalf(start, count)
    requires forall i :: 0 <= i < |pages| ==> 0 < pages[i] < start && pages[i] % 0x1000 == 0 && WordOf(pages[i]) != root
    requires forall i, j :: 0 <= i < j < |pages| ==> pages[i] < pages[j]
    ensures var frames := seq(|pages|, i requires 0 <= i < |pages| => WordOf(pages[i]));
            && Sound(Zeroed(m, root), root, frames)
            && Room(Zeroed(m, root), root, frames, start, start, start + count * 0x1000,
                    PathsOf(frames + PagesAt(start, count)))
  {
    hide WordOf, Assign, UsableFrame, LeafAt, Sound, FramesBelow, PagesAt, PathsOf, Before;
    var frames := seq(|pages|, i requires 0 <= i < |pages| => WordOf(pages[i]));
    forall i | 0 <= i < |pages| ensures UsableFrame(frames[i]) {
      PageIsUsable(pages[i]);
    }
    forall i, j | 0 <= i < j < |pages| ensures frames[i] != frames[j] {
      WordsInOrder(pages[i], pages[j]);
      OtherWord(frames[i], frames[j]);
    }
    Reload.EmptyTree(m, root, frames);
    PagesAreBelow(pages, frames, start);
    var ws := frames + PagesAt(start, count);
    forall f | f in frames ensures Covers(PathsOf(ws), Assign(f)) {
      PathCovered(ws, f);
    }
    forall p: nat | start <= p < start + count * 0x1000 && p % 0x1000 == 0
      ensures Covers(PathsOf(ws), Assign(WordOf(p)))
    {
      var k := (p - start) / 0x1000;
      assert PagesAt(start, count)[k] == WordOf(p) && PagesAt(start, count)[k] in ws;
      PathCovered(ws, WordOf(p));
    }
  }

  lemma PathCovered(ws: seq<Word>, w: Word)
    requires w in ws
    ensures Covers(PathsOf(ws), Assign(w))
  {
    hide Assign;
  }

  /** The mapping loop of `heap_initialize` and `heap_expand`: `count` pages more behind those the heap has. */
  method MapMore(space: AddressSpace, start: nat, count: nat, ghost was: seq<Word>, at: nat, ghost limit: nat,
                 ghost places: set<Place>)
    returns (ok: bool, ghost given: seq<Word>)
    requires space.Valid() && at == start + |was| * 0x1000 && at + count * 0x1000 <= limit
    requires Room(space.mem, space.pml4, space.frames, start, at, limit, places)
    requires OwnFrames(space.mem, space.pml4, space.frames, start, was)
    modifies space
    ensures space.pml4 == old(space.pml4)
    ensures !ok ==> |old(space.frames)| < count + |Absent(old(space.mem), space.pml4, places)|
    ensures ok ==>
      && space.Valid() && was <= given && |given| == |was| + count
      && Room(space.mem, space.pml4, space.frames, start, at + count * 0x1000, limit, places)
      && OwnFrames(space.mem, space.pml4, space.frames, start, given)
      && |space.frames| + count + |Absent(old(space.mem), space.pml4, places)|
         == |old(space.frames)| + |Absent(space.mem, space.pml4, places)|
  {
    hide Sound, Mapping, Mappable, Absent, Covers, Assign, WordOf, FramesBelow, LeafAt, OwnFrames, PagesAt;
    ghost var m, fs := space.mem, space.frames;
    CanMap(m, space.pml4, fs, start, at, limit, count, places);
    ghost var more;
    ok, more := MapPages(space, WordOf(at), count, PagesAt(at, count), places);
    given := was + more;
    if ok {
      OldPagesStay(m, space.mem, space.pml4, fs, space.frames, start, was, count, more);
      RoomLeft(m, space.mem, space.pml4, fs, space.frames, start, at, limit, count, more, places);
    }
  }

  lemma NoneYet(m: Memory, root: Word, frames: seq<Word>, at: nat)
    ensures OwnFrames(m, root, frames, at, [])
  {
  }

  /** Every frame taken became one of `pages` new pages of the heap or a table that was missing. */
  ghost predicate Spends(m: Memory, frames: seq<Word>, m': Memory, frames': seq<Word>, root: Word, pages: int,
                         places: set<Place>) {
    |frames'| + pages + |Absent(m, root, places)| == |frames| + |Absent(m', root, places)|
  }

  /** `heap_initialize`: not `ok` when the page-frame manager runs out of pages. */
  method Initialize(heap: KernelHeap, space: AddressSpace, address: nat, pages: nat, ghost limit: nat,
                    ghost places: set<Place>)
    returns (ok: bool, ghost given: seq<Word>)
    requires space.Valid() && pages > 0 && address + pages * 0x1000 <= limit
    requires Room(space.mem, space.pml4, space.frames, address, address, limit, places)
    modifies heap, space
    ensures space.pml4 == old(space.pml4)
    ensures !ok ==> |old(space.frames)| < pages + |Absent(old(space.mem), space.pml4, places)|
    ensures ok ==> Backed(heap, space, given, limit, places) && |given| == pages && heap.start == address
    ensures ok ==> heap.Contents() == [Segments.Seg(address, pages * 0x1000 - 32, true)]
    ensures ok ==> Spends(old(space.mem), old(space.frames), space.mem, space.frames, space.pml4, pages, places)
  {
    hide Sound, Absent, OwnFrames, Room, Linked, View, Segments.HeapOk, Segments.HeapEnd;
    NoneYet(space.mem, space.pml4, space.frames, address);
    RoomBounds(space.mem, space.pml4, space.frames, address, address, limit, places);
    ok, given := MapMore(space, address, pages, [], address, limit, places);
    if ok {
      heap.Initialize(address, pages);
    }
  }

  lemma RoomBounds(m: Memory, root: Word, frames: seq<Word>, start: nat, from: nat, limit: nat, places: set<Place>)
    requires Room(m, root, frames, start, from, limit, places)
    ensures 0 < start <= from <= limit && start % 16 == 0
  {
    hide FramesBelow, LeafAt, Assign, Covers, WordOf;
    PageIsAlignedEnough(start);
  }

  lemma PageIsAlignedEnough(start: nat)
    requires start % 0x1000 == 0
    ensures start % 16 == 0
  {
    Segments.PagesAreAligned(start / 0x1000);
    assert start == 0x1000 * (start / 0x1000);
  }

  /** `heap_expand`: the new pages get frames, the old ones keep theirs. */
  method Expand(heap: KernelHeap, space: AddressSpace, length: nat, ghost was: seq<Word>, ghost limit: nat,
                ghost places: set<Place>)
    returns (ok: bool, ghost given: seq<Word>)
    requires Backed(heap, space, was, limit, places) && length > 0 && heap.end + Segments.ToPages(length) <= limit
    modifies heap, space
    ensures space.pml4 == old(space.pml4)
    ensures !ok ==> |old(space.frames)| < (length + 0xfff) / 0x1000 + |Absent(old(space.mem), space.pml4, places)|
    ensures ok ==> Backed(heap, space, given, limit, places) && was <= given && heap.start == old(heap.start)
    ensures ok ==> heap.Contents() == Segments.Expand(old(heap.Contents()), length)
    ensures ok ==> length <= (|given| - |was|) * 0x1000 == heap.end - old(heap.end) < length + 0x1000
    ensures ok ==>
      Spends(old(space.mem), old(space.frames), space.mem, space.frames, space.pml4, |given| - |was|, places)
  {
    hide Sound, Absent, OwnFrames, Room, Linked, View, Segments.HeapOk, Segments.HeapEnd, Segments.Expand;
    var pages := Segments.ToPages(length) / 0x1000;
    Segments.WholePages(length);
    ok, given := MapMore(space, heap.start, pages, was, heap.end, limit, places);
    if ok {
      heap.Expand(length);
    }
  }

  // ---------------------------------------------------------------- malloc

  /** The heap between two calls, the first of which initializes it. */
  ghost predicate Kept(heap: KernelHeap, space: AddressSpace, given: seq<Word>, limit: nat, places: set<Place>)
    reads heap, space
  {
    if heap.initialized then Backed(heap, space, given, limit, places)
    else
      && given == [] && space.Valid() && 0x7f00_0000_0000 + 256 * 0x1000 <= limit
      && Room(space.mem, space.pml4, space.frames, 0x7f00_0000_0000, 0x7f00_0000_0000, limit, places)
  }

  ghost function Start(heap: KernelHeap): nat
    reads heap
  {
    if heap.initialized then heap.start else 0x7f00_0000_0000
  }

  /** The segments of the heap, or those it will have once initialized. */
  ghost function Row(heap: KernelHeap): (segs: seq<Segments.Seg>)
    requires heap.initialized ==> heap.Valid()
    reads heap
    ensures segs != []
  {
    if heap.initialized then heap.Contents() else [Segments.Seg(0x7f00_0000_0000, 0x10_0000 - 32, true)]
  }

  ghost predicate EndsBelow(segs: seq<Segments.Seg>, limit: nat) {
    segs != [] && Segments.HeapEnd(segs) <= limit
  }

  /** How many more pages the heap can take. */
  ghost function PagesLeft(start: nat, limit: nat, given: seq<Word>): int {
    (limit - start) / 0x1000 - |given|
  }

  /** The heap only grows, and stays in order. */
  lemma MallocGrows(segs: seq<Segments.Seg>, size: nat)
    requires Segments.HeapOk(segs)
    ensures segs != [] && Segments.Mallocs(segs, size).0 != []
    ensures Segments.HeapOk(Segments.Mallocs(segs, size).0)
    ensures Segments.HeapEnd(Segments.Mallocs(segs, size).0) >= Segments.HeapEnd(segs)
  {
    hide Segments.Taken, Segments.HeapEnd, Segments.Live, Segments.Expand, Segments.Allocate, Segments.FirstFit,
      Segments.Expanded, Segments.Expansions, Segments.Tiled, Segments.Aligned, Segments.Coalesced;
    Segments.BlockOnce(size);
    if Segments.ToBlock(size) > 0 {
      Segments.MallocRefines(segs, Segments.ToBlock(size));
    }
  }

  /** When there is no fit yet, the call that starts over ends in a heap longer by at least the new pages. */
  lemma MallocNeeds(segs: seq<Segments.Seg>, size: nat)
    requires Segments.HeapOk(segs) && Segments.ToBlock(size) > 0
    requires Segments.FirstFit(segs, 0, Segments.ToBlock(size)) == |segs|
    ensures var wanted := Segments.ToBlock(size); var longer := Segments.Expand(segs, wanted);
            && longer != [] && Segments.Mallocs(longer, wanted) == Segments.Mallocs(segs, size)
            && Segments.Mallocs(segs, size).0 != []
            && Segments.HeapEnd(Segments.Mallocs(segs, size).0) >= Segments.HeapEnd(segs) + Segments.ToPages(wanted)
            && Segments.Expansions(longer, wanted) < Segments.Expansions(segs, wanted) <= 2
            && Segments.ToPages(wanted) == (wanted + 0xfff) / 0x1000 * 0x1000
  {
    hide Segments.Mallocs, Segments.HeapOk, Segments.HeapEnd, Segments.Expand, Segments.FirstFit, Segments.Expansions;
    var wanted := Segments.ToBlock(size);
    NotEmptyRow(segs);
    MallocsLater(segs, size);
    Segments.ExpandOk(segs, wanted);
    Segments.ExpandIs(segs, wanted);
    MallocGrows(Segments.Expand(segs, wanted), wanted);
    Segments.WholePages(wanted);
  }

  lemma NotEmptyRow(segs: seq<Segments.Seg>)
    requires Segments.HeapOk(segs)
    ensures segs != []
  {
  }

  /** The start of `malloc`, which initializes the heap at the first call. */
  method Begin(heap: KernelHeap, space: AddressSpace, ghost was: seq<Word>, ghost limit: nat, ghost places: set<Place>)
    returns (ok: bool, ghost given: seq<Word>)
    requires Kept(heap, space, was, limit, places)
    modifies heap, space
    ensures space.pml4 == old(space.pml4)
    ensures !ok ==> |old(space.frames)| < PagesLeft(old(Start(heap)), limit, was)
                                          + |Absent(old(space.mem), space.pml4, places)|
    ensures ok ==> Backed(heap, space, given, limit, places) && was <= given && heap.start == old(Start(heap))
    ensures ok ==> heap.Contents() == old(Row(heap)) && (old(heap.initialized) ==> given == was)
    ensures ok ==>
      Spends(old(space.mem), old(space.frames), space.mem, space.frames, space.pml4, |given| - |was|, places)
  {
    hide Sound, Absent, OwnFrames, Room, Linked, View, Segments.HeapOk, Segments.HeapEnd;
    ok, given := true, was;
    if !heap.initialized {
      ok, given := Initialize(heap, space, 0x7f00_0000_0000, 256, limit, places);
    }
  }

  /** `malloc`, with the pages its expansions map: every page of the heap still walks to the frame it had,
      and the new ones to frames of their own. It is not `ok` when the page-frame manager runs out. */
  method Malloc(heap: KernelHeap, space: AddressSpace, size: nat, ghost was: seq<Word>, ghost limit: nat,
                ghost places: set<Place>)
    returns (ok: bool, address: nat, ghost given: seq<Word>)
    requires Kept(heap, space, was, limit, places) && EndsBelow(Segments.Mallocs(Row(heap), size).0, limit)
    modifies heap, space
    ensures space.pml4 == old(space.pml4)
    ensures !ok ==> |old(space.frames)| < PagesLeft(old(Start(heap)), limit, was)
                                          + |Absent(old(space.mem), space.pml4, places)|
    ensures ok ==> Backed(heap, space, given, limit, places) && was <= given && heap.start == old(Start(heap))
    ensures ok ==> (heap.Contents(), address) == Segments.Mallocs(old(Row(heap)), size)
    ensures ok ==> Segments.Serves(old(Row(heap)), size, heap.Contents(), address)
    ensures ok ==>
      Spends(old(space.mem), old(space.frames), space.mem, space.frames, space.pml4, |given| - |was|, places)
    decreases if heap.initialized && Segments.ToBlock(size) > 0
              then Segments.Expansions(heap.Contents(), Segments.ToBlock(size)) else 3
  {
    hide Sound, Absent, OwnFrames, Room, Linked, View, Segments.Mallocs, Segments.HeapOk, Segments.HeapEnd,
      Segments.Expand,
      Segments.Take, Segments.FirstFit, Segments.Expansions, Segments.Serves, Segments.ToBlock, Segments.ToPages;
    address := 0;
    ok, given := Begin(heap, space, was, limit, places);
    if !ok {
      return;
    }
    var wanted := Rounded(size);
    ghost var segs := heap.Contents();
    NotEmptyRow(segs);
    Segments.MallocServes(segs, size);
    MallocsNothing(segs, size);
    if wanted == 0 {
      return;
    }
    address := heap.Search(wanted);
    if address != 0 {
      MallocsFound(segs, size);
      return;
    }
    MallocNeeds(segs, size);
    ghost var mine := given;
    ok, given := Expand(heap, space, wanted, mine, limit, places);
    if ok {
      Segments.ExpandOk(segs, wanted);
      ok, address, given := Malloc(heap, space, wanted, given, limit, places);
    }
  }
}

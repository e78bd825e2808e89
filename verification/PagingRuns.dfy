/** Runs of map, unmap, edit and remap calls from a zeroed root. */
module PagingRuns {
  import opened Wrappers
  import opened Descriptors
  import opened PageTree
  import opened PageSteps
  import opened PageEdits
  import opened PageTheorems
  import opened Paging
  import Reload

  datatype Request =
    | Map(virt: Word, phys: Word, flags: Word)
    | Unmap(virt: Word)
    | Edit(virt: Word, flags: Word)
    | Remap(from: Word, to: Word)

  /** Memory, and the frames that are still free. */
  datatype Stage = Stage(mem: Memory, frames: seq<Word>)

  /** What a caller may ask for at a stage: a page that a free frame will be identity-mapped at is mapped to
      that frame only, and a page that is edited has its tables and room for the flags. */
  ghost predicate Allowed(request: Request, s: Stage, root: Word, places: set<Place>) {
    match request
    case Map(virt, phys, _) =>
      Covers(places, Assign(virt)) && forall f :: f in s.frames && Assign(f) == Assign(virt) ==> GetAddress(phys) == f
    case Unmap(_) => true
    case Edit(virt, flags) =>
      Sixteen(flags) && TableOf(s.mem, root, PtOf(Assign(virt))).Some? && EditFits(s.mem, root, Assign(virt), flags)
    case Remap(from, to) =>
      && Covers(places, Assign(to))
      && forall f :: f in s.frames && Assign(f) == Assign(to) && TableOf(s.mem, root, PtOf(Assign(from))).Some? ==>
           WalkOf(s.mem, root, from) == f
  }

  /** What a request has to do to memory; `pages` are the frames that became tables. */
  ghost predicate Effect(request: Request, m: Memory, m': Memory, root: Word, pages: seq<Word>) {
    match request
    case Map(virt, phys, flags) =>
      var x := Assign(virt);
      && Maps(m, m', root, pages, x, NewLeafEntry(LeafAt(m, root, x), phys, Low(flags)))
      && GainsOnly(m, m', root, Low(flags))
    case Unmap(virt) => pages == [] && Clears(m, m', root, Assign(virt))
    case Edit(virt, flags) => pages == [] && EditsLeaf(m, m', root, Assign(virt), flags)
    case Remap(from, to) =>
      if TableOf(m, root, PtOf(Assign(from))).None? then pages == [] && m' == m
      else
        && Moves(m, m', root, pages, Assign(from), Assign(to))
        && GainsOnly(m, m', root, Low(LeafAt(m, root, Assign(from))))
  }

  /** One stage follows another when the frames taken became tables and the request took effect. */
  ghost predicate Follows(request: Request, s: Stage, s': Stage, root: Word) {
    exists pages :: s.frames == pages + s'.frames && Effect(request, s.mem, s'.mem, root, pages)
  }

  ghost predicate GoodStage(s: Stage, root: Word) {
    Tree(s.mem, root) && OneParentEach(s.mem, root) && LeavesDecide(s.mem, root) && Ready(s.mem, root, s.frames)
  }

  /** A run of requests each of which is allowed at the stage it meets. */
  ghost predicate Lawful(requests: seq<Request>, s: Stage, root: Word, places: set<Place>)
    decreases |requests|
  {
    requests == [] ||
    (Allowed(requests[0], s, root, places) &&
      forall s' :: Follows(requests[0], s, s', root) && GoodStage(s', root) ==>
        Lawful(requests[1..], s', root, places))
  }

  /** The stages the first requests led through, each of them good. */
  ghost predicate Traced(trace: seq<Stage>, requests: seq<Request>, root: Word) {
    && 0 < |trace| <= |requests| + 1
    && (forall i, j :: 0 <= i < j < |trace| && j == i + 1 ==> Follows(requests[i], trace[i], trace[j], root))
    && (forall s :: s in trace ==> GoodStage(s, root))
  }

  /** Each table is named by the one entry its place says, and by no other. */
  ghost predicate OneParentEach(m: Memory, root: Word) {
    forall n, p, i :: TableOf(m, root, n).Some? && Upper(p) ==>
      (Present(Slot(m, root, p, i)) && Some(GetAddress(Slot(m, root, p, i))) == TableOf(m, root, n)
       <==> n == Below(p, i))
  }

  lemma TreeHasOneParentEach(m: Memory, root: Word)
    requires Tree(m, root)
    ensures OneParentEach(m, root)
  {
    hide Tree, TableOf, Slot, Present, GetAddress;
    forall n, p, i | TableOf(m, root, n).Some? && Upper(p)
      ensures Present(Slot(m, root, p, i)) && Some(GetAddress(Slot(m, root, p, i))) == TableOf(m, root, n)
              <==> n == Below(p, i)
    {
      OneParent(m, root, n, p, i);
    }
  }

  /** The state between two requests. */
  ghost predicate Serving(space: AddressSpace, m0: Memory, fs: seq<Word>, places: set<Place>)
    reads space
  {
    && space.Valid() && |space.frames| <= |fs| && space.frames == fs[|fs| - |space.frames|..]
    && |space.frames| + |Absent(m0, space.pml4, places)| == |fs| + |Absent(space.mem, space.pml4, places)|
  }

  /** One request. */
  method ServeOne(space: AddressSpace, request: Request, ghost places: set<Place>) returns (ok: bool)
    requires space.Valid() && Allowed(request, Stage(space.mem, space.frames), space.pml4, places)
    requires forall f :: f in space.frames ==> Covers(places, Assign(f))
    modifies space
    ensures space.pml4 == old(space.pml4)
    ensures !ok ==> |Absent(old(space.mem), space.pml4, places)| > |old(space.frames)|
    ensures ok ==>
      && space.Valid()
      && Follows(request, Stage(old(space.mem), old(space.frames)), Stage(space.mem, space.frames), space.pml4)
      && |space.frames| + |Absent(old(space.mem), space.pml4, places)|
         == |old(space.frames)| + |Absent(space.mem, space.pml4, places)|
  {
    hide GetAddress, Low, Within, Assign, Clean, Leaf, TableOf, LeafAt, UsableFrame, Absent, Maps, Moves, Sound,
      Covers, Sixteen, EditFits, EditsLeaf, Edited, GainsOnly;
    ok := true;
    assert space.frames == [] + space.frames;
    match request
    case Map(virt, phys, flags) =>
      var r;
      ghost var pages;
      ok, r, pages := space.MapPage(virt, phys, flags, places);
    case Unmap(virt) =>
      space.UnmapPage(virt);
      SameTablesSameAbsent(old(space.mem), space.mem, space.pml4, places);
    case Edit(virt, flags) =>
      var r := space.EditPage(virt, flags);
      EditsSame(old(space.mem), space.mem, space.pml4, Assign(virt), flags, places);
    case Remap(from, to) =>
      var r;
      ghost var pages;
      ok, r, pages := space.RemapPage(from, to, places);
  }

  lemma EditsSame(m: Memory, m': Memory, root: Word, x: Indexer, flags: Word, places: set<Place>)
    requires EditsLeaf(m, m', root, x, flags)
    ensures Absent(m', root, places) == Absent(m, root, places)
  {
    hide Low, SetFlags, Grows, PathHas, LeafAt;
    SameTablesSameAbsent(m, m', root, places);
  }

  /** Every lawful sequence of requests from a zeroed root is served one by one: each stage follows the one
      before, and in each the tables form a tree, every table has one parent entry, none is a free
      frame, and the rights of every page are its leaf's. All requests are served when there are as
      many frames as places for tables. */
  method Serve(space: AddressSpace, requests: seq<Request>, ghost places: set<Place>)
    returns (ok: bool, ghost trace: seq<Stage>)
    requires UsableFrame(space.pml4) && space.pml4 !in space.frames
    requires forall f :: f in space.frames ==> UsableFrame(f) && Covers(places, Assign(f))
    requires forall i, j :: 0 <= i < j < |space.frames| ==> space.frames[i] != space.frames[j]
    requires Lawful(requests, Stage(Zeroed(space.mem, space.pml4), space.frames), space.pml4, places)
    modifies space
    ensures space.pml4 == old(space.pml4)
    ensures |old(space.frames)| >= |places| ==> ok
    ensures Traced(trace, requests, space.pml4)
    ensures trace[0] == Stage(Zeroed(old(space.mem), space.pml4), old(space.frames))
    ensures ok ==> |trace| == |requests| + 1 && trace[|requests|] == Stage(space.mem, space.frames)
  {
    hide GetAddress, Low, Within, Assign, Clean, Leaf, TableOf, LeafAt, UsableFrame, Absent, Sound, Covers, Tree,
      LeavesDecide, Ready, Allowed, OneParentEach, Effect, Follows, GoodStage, Served;
    ghost var fs := space.frames;
    space.mem := Zeroed(space.mem, space.pml4);
    ghost var m0 := space.mem;
    Reload.EmptyTree(old(space.mem), space.pml4, fs);
    AbsentAtMost(m0, space.pml4, places);
    TraceStarts(m0, space.pml4, fs, requests, places);
    ok, trace := true, [Stage(m0, fs)];
    for i := 0 to |requests|
      invariant space.pml4 == old(space.pml4) && Serving(space, m0, fs, places)
      invariant |trace| == i + 1 && trace[0] == Stage(m0, fs) && trace[i] == Stage(space.mem, space.frames)
      invariant Served(trace, requests, i, space.pml4, places)
    {
      TraceSoFar(trace, requests, i, space.pml4, places);
      FewerFrames(fs, space.frames, places);
      ok := ServeOne(space, requests[i], places);
      if !ok {
        return;
      }
      FramesLeft(requests[i], fs, trace[i], Stage(space.mem, space.frames), space.pml4);
      TraceGrows(trace, requests, i, space.pml4, space.mem, space.frames, places);
      trace := trace + [Stage(space.mem, space.frames)];
    }
    TraceDone(trace, requests, space.pml4, places);
  }

  /** The first `i` requests led through the stages of `trace`, and the others are lawful from there. */
  ghost predicate Served(trace: seq<Stage>, requests: seq<Request>, i: nat, root: Word, places: set<Place>) {
    && |trace| == i + 1 && i <= |requests| && Traced(trace, requests, root)
    && Lawful(requests[i..], trace[i], root, places)
  }

  lemma TraceDone(trace: seq<Stage>, requests: seq<Request>, root: Word, places: set<Place>)
    requires Served(trace, requests, |requests|, root, places)
    ensures Traced(trace, requests, root)
  {
  }

  lemma FewerFrames(fs: seq<Word>, frames: seq<Word>, places: set<Place>)
    requires |frames| <= |fs| && frames == fs[|fs| - |frames|..] && forall f :: f in fs ==> Covers(places, Assign(f))
    ensures forall f :: f in frames ==> Covers(places, Assign(f))
  {
    hide Covers, Assign;
    assert forall f :: f in frames ==> f in fs;
  }

  lemma SoundIsGood(m: Memory, root: Word, frames: seq<Word>)
    requires Sound(m, root, frames)
    ensures GoodStage(Stage(m, frames), root)
  {
    hide Tree, OneParentEach, LeavesDecide, Ready;
    SoundParts(m, root, frames);
    TreeHasOneParentEach(m, root);
  }

  lemma FramesLeft(request: Request, fs: seq<Word>, s: Stage, s': Stage, root: Word)
    requires Follows(request, s, s', root) && |s.frames| <= |fs| && s.frames == fs[|fs| - |s.frames|..]
    ensures |s'.frames| <= |fs| && s'.frames == fs[|fs| - |s'.frames|..]
  {
    hide Effect;
    var pages :| s.frames == pages + s'.frames && Effect(request, s.mem, s'.mem, root, pages);
  }

  lemma TraceStarts(m: Memory, root: Word, frames: seq<Word>, requests: seq<Request>, places: set<Place>)
    requires Sound(m, root, frames) && Lawful(requests, Stage(m, frames), root, places)
    ensures Served([Stage(m, frames)], requests, 0, root, places)
  {
    hide Sound, Follows, GoodStage, Lawful;
    SoundIsGood(m, root, frames);
    assert requests[0..] == requests;
  }

  lemma TraceSoFar(trace: seq<Stage>, requests: seq<Request>, i: nat, root: Word, places: set<Place>)
    requires Served(trace, requests, i, root, places) && i < |requests|
    ensures Traced(trace, requests, root) && Allowed(requests[i], trace[i], root, places)
  {
    hide Allowed, Traced, Follows, GoodStage;
    LawfulStep(requests, i, trace[i], root, places);
  }

  lemma TraceGrows(trace: seq<Stage>, requests: seq<Request>, i: nat, root: Word, m: Memory, frames: seq<Word>,
                   places: set<Place>)
    requires Served(trace, requests, i, root, places) && i < |requests| && Sound(m, root, frames)
    requires Follows(requests[i], trace[i], Stage(m, frames), root)
    ensures Served(trace + [Stage(m, frames)], requests, i + 1, root, places)
  {
    hide Sound, Follows, GoodStage, Lawful, Allowed;
    SoundIsGood(m, root, frames);
    LawfulStep(requests, i, trace[i], root, places);
  }

  /** The request names the page with the indices `y`. */
  ghost predicate Touches(request: Request, y: Indexer) {
    match request
    case Map(virt, _, _) => Assign(virt) == y
    case Unmap(virt) => Assign(virt) == y
    case Edit(virt, _) => Assign(virt) == y
    case Remap(from, to) => Assign(from) == y || Assign(to) == y
  }

  /** A request leaves every page alone that it does not name and that is no free frame's own. */
  lemma OthersStay(request: Request, s: Stage, s': Stage, root: Word, y: Indexer)
    requires Follows(request, s, s', root) && !Touches(request, y) && !Names(s.frames, y)
    ensures LeafAt(s'.mem, root, y) == LeafAt(s.mem, root, y) && !Names(s'.frames, y)
  {
    hide GetAddress, Low, Assign, LeafAt, TableOf, Grows, PathHas, SetFlags, NewLeafEntry, Leaf, KernelPage, Slot;
    var pages :| s.frames == pages + s'.frames && Effect(request, s.mem, s'.mem, root, pages);
    NamesConcat(pages, s'.frames, y);
  }

  /** Over any part of a run, a page that no request names keeps its descriptor. */
  lemma {:induction false} UntouchedStays(trace: seq<Stage>, requests: seq<Request>, root: Word, i: nat, j: nat,
                                         y: Indexer)
    requires Traced(trace, requests, root) && i <= j < |trace| && !Names(trace[i].frames, y)
    requires forall k :: i <= k < j ==> !Touches(requests[k], y)
    ensures LeafAt(trace[j].mem, root, y) == LeafAt(trace[i].mem, root, y) && !Names(trace[j].frames, y)
    decreases j - i
  {
    hide GoodStage, Follows, Touches, LeafAt, Names;
    if i < j {
      OthersStay(requests[i], trace[i], trace[i + 1], root, y);
      UntouchedStays(trace, requests, root, i + 1, j, y);
    }
  }

  /** A page that was unmapped before it was mapped, and that no later request names, walks to the frame
      it was mapped to for the rest of the run. */
  lemma MappedStays(trace: seq<Stage>, requests: seq<Request>, root: Word, i: nat, j: nat, virt: Word, phys: Word,
                    flags: Word)
    requires Traced(trace, requests, root) && i < j < |trace| && requests[i] == Map(virt, phys, flags)
    requires LeafAt(trace[i].mem, root, Assign(virt)) == Word(0) && !Names(trace[i].frames, Assign(virt))
    requires forall k :: i < k < j ==> !Touches(requests[k], Assign(virt))
    ensures WalkOf(trace[j].mem, root, virt) == GetAddress(phys)
  {
    hide GoodStage, Touches, GetAddress, Assign, LeafAt, Low, NewLeafEntry, Grows, TableOf, Leaf, KernelPage;
    var x, s, s' := Assign(virt), trace[i], trace[i + 1];
    assert Follows(requests[i], s, s', root);
    var pages :| s.frames == pages + s'.frames && Effect(requests[i], s.mem, s'.mem, root, pages);
    NamesConcat(pages, s'.frames, x);
    UntouchedStays(trace, requests, root, i + 1, j, x);
    MappedWalk(phys, flags);
  }

  lemma MappedWalk(phys: Word, flags: Word)
    ensures GetAddress(NewLeafEntry(Word(0), phys, Low(flags))) == GetAddress(phys)
  {
    hide GetAddress, NewLeafEntry, Low;
    LowOfLow(flags);
    ZeroWord();
    NewLeafEntryWalk(Word(0), phys, Low(flags));
  }

  lemma AbsentAtMost(m: Memory, root: Word, places: set<Place>)
    ensures |Absent(m, root, places)| <= |places|
  {
    hide TableOf;
    SubsetSize(Absent(m, root, places), places);
  }

  lemma LawfulStep(requests: seq<Request>, i: nat, s: Stage, root: Word, places: set<Place>)
    requires i < |requests| && Lawful(requests[i..], s, root, places)
    ensures Allowed(requests[i], s, root, places)
    ensures forall s' :: Follows(requests[i], s, s', root) && GoodStage(s', root) ==>
              Lawful(requests[i + 1..], s', root, places)
  {
    hide Allowed, Follows, GoodStage;
    assert requests[i..][0] == requests[i] && requests[i..][1..] == requests[i + 1..];
  }

  // ---------------------------------------------------------------- runs planned ahead

  /** A run that can be seen to be lawful beforehand: no page of a frame free at the outset is mapped to
      anything else, and only pages with known tables, `tables` or mapped earlier, are edited, with flags
      below 0x1000. */
  ghost predicate Planned(requests: seq<Request>, frames: seq<Word>, tables: set<Indexer>, places: set<Place>)
    decreases |requests|
  {
    requests == [] ||
    match requests[0]
    case Map(virt, phys, _) =>
      && Covers(places, Assign(virt))
      && (forall f :: f in frames && Assign(f) == Assign(virt) ==> GetAddress(phys) == f)
      && Planned(requests[1..], frames, tables + {Assign(virt)}, places)
    case Unmap(_) => Planned(requests[1..], frames, tables, places)
    case Edit(virt, flags) =>
      Assign(virt) in tables && Low(flags) == flags && Planned(requests[1..], frames, tables, places)
    case Remap(_, to) =>
      && Covers(places, Assign(to)) && (forall f :: f in frames ==> Assign(f) != Assign(to))
      && Planned(requests[1..], frames, tables, places)
  }

  ghost predicate HaveTables(tables: set<Indexer>, m: Memory, root: Word) {
    forall x :: x in tables ==> TableOf(m, root, PtOf(x)).Some?
  }

  /** What is left of such a plan at the next stage. */
  ghost function TablesAfter(request: Request, tables: set<Indexer>): set<Indexer> {
    if request.Map? then tables + {Assign(request.virt)} else tables
  }

  /** Tables stay where they are, and a page that was mapped has its own. */
  lemma TablesStay(request: Request, s: Stage, s': Stage, root: Word, tables: set<Indexer>)
    requires Follows(request, s, s', root) && HaveTables(tables, s.mem, root)
    ensures HaveTables(TablesAfter(request, tables), s'.mem, root) && forall f :: f in s'.frames ==> f in s.frames
  {
    hide GetAddress, Low, Assign, LeafAt, TableOf, PathHas, SetFlags, NewLeafEntry, Leaf, KernelPage, Slot, Names,
      Within;
    var pages :| s.frames == pages + s'.frames && Effect(request, s.mem, s'.mem, root, pages);
  }

  lemma PlannedAllowed(requests: seq<Request>, s: Stage, root: Word, frames: seq<Word>, tables: set<Indexer>,
                       places: set<Place>)
    requires Planned(requests, frames, tables, places) && requests != []
    requires HaveTables(tables, s.mem, root) && forall f :: f in s.frames ==> f in frames
    ensures Allowed(requests[0], s, root, places)
    ensures Planned(requests[1..], frames, TablesAfter(requests[0], tables), places)
  {
    hide GetAddress, Low, Assign, Covers, TableOf, EditFits, Sixteen;
    if requests[0].Edit? {
      LowFlagsFitAll(s.mem, root, Assign(requests[0].virt), requests[0].flags);
    }
  }

  lemma LowFlagsFitAll(m: Memory, root: Word, x: Indexer, flags: Word)
    requires Low(flags) == flags
    ensures Sixteen(flags) && EditFits(m, root, x, flags)
  {
    hide Low, Sixteen, High, Within, TableOf;
    LowFlagsFit(flags);
  }

  /** Every planned run is lawful. */
  lemma {:induction false} PlannedIsLawful(requests: seq<Request>, s: Stage, root: Word, frames: seq<Word>,
                                           tables: set<Indexer>, places: set<Place>)
    requires Planned(requests, frames, tables, places)
    requires HaveTables(tables, s.mem, root) && forall f :: f in s.frames ==> f in frames
    ensures Lawful(requests, s, root, places)
    decreases |requests|
  {
    hide Planned, HaveTables, Follows, GoodStage, Allowed, TablesAfter;
    if requests != [] {
      PlannedAllowed(requests, s, root, frames, tables, places);
      forall s' | Follows(requests[0], s, s', root) && GoodStage(s', root)
        ensures Lawful(requests[1..], s', root, places)
      {
        TablesStay(requests[0], s, s', root, tables);
        PlannedIsLawful(requests[1..], s', root, frames, TablesAfter(requests[0], tables), places);
      }
    }
  }
}

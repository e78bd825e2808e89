/** The pages under the heap: the loop of `heap_initialize` and `heap_expand` that maps them. */
module HeapPages {
  import opened Descriptors
  import opened PageTree
  import opened PageSteps
  import opened PageTheorems
  import opened Paging

  /** The pages the loop goes through: unmapped ones, all different, at none of which a free frame will
      be identity-mapped. */
  ghost predicate Mappable(m: Memory, root: Word, frames: seq<Word>, first: Word, virts: seq<Word>,
                           places: set<Place>) {
    && (virts != [] ==> virts[0] == first)
    && (forall j, k :: 0 <= j < k < |virts| && k == j + 1 ==> virts[k] == NextPage(virts[j]))
    && (forall j, k :: 0 <= j < k < |virts| ==> Assign(virts[j]) != Assign(virts[k]))
    && (forall k :: 0 <= k < |virts| ==>
          LeafAt(m, root, Assign(virts[k])) == Word(0) && Covers(places, Assign(virts[k])))
    && (forall f :: f in frames ==> Covers(places, Assign(f)))
    && (forall f, k :: f in frames && 0 <= k < |virts| ==> Assign(f) != Assign(virts[k]))
  }

  /** The first pages are mapped to the frames given so far, all different and no longer free; the others
      are still unmapped; no page moved but those and the new tables'. */
  ghost predicate Mapping(m0: Memory, m: Memory, root: Word, fs: seq<Word>, frames: seq<Word>, virts: seq<Word>,
                          given: seq<Word>) {
    && |given| <= |virts| && |frames| <= |fs| && frames == fs[|fs| - |frames|..]
    && (forall k :: 0 <= k < |given| ==> KernelMapped(m, root, virts[k], given[k]))
    && (forall k :: 0 <= k < |given| ==> given[k] in fs && given[k] !in frames)
    && (forall j, k :: 0 <= j < k < |given| ==> given[j] != given[k])
    && (forall k :: |given| <= k < |virts| ==> LeafAt(m, root, Assign(virts[k])) == Word(0))
    && (forall y :: !Names(virts, y) && !Names(fs, y) ==> LeafAt(m, root, y) == LeafAt(m0, root, y))
  }

  /** One frame fewer to hand out. */
  lemma TakeFrame(m: Memory, root: Word, frames: seq<Word>)
    requires Sound(m, root, frames) && frames != []
    ensures Sound(m, root, frames[1..]) && UsableFrame(frames[0]) && GetAddress(frames[0]) == frames[0]
    ensures frames[0] !in frames[1..]
  {
    hide GetAddress, UsableFrame, Assign, Within, Low, Tree, TableOf, LeafAt, LeavesDecide;
    assert frames == [frames[0]] + frames[1..];
    assert frames[0] in frames;
    UsableFrameAddress(frames[0]);
    forall f | f in frames[1..] ensures f in frames && f != frames[0] {
    }
    assert forall i :: 0 <= i < |frames| - 1 ==> frames[1..][i] == frames[i + 1];
  }

  lemma MapOne(m0: Memory, m: Memory, m': Memory, root: Word, fs: seq<Word>, frame: Word, frames: seq<Word>,
               frames': seq<Word>, tables: seq<Word>, virts: seq<Word>, given: seq<Word>)
    requires Mapping(m0, m, root, fs, [frame] + frames, virts, given) && |given| < |virts|
    requires frames == tables + frames' && frame !in frames && GetAddress(frame) == frame
    requires forall j, k :: 0 <= j < k < |virts| ==> Assign(virts[j]) != Assign(virts[k])
    requires forall f, k :: f in fs && 0 <= k < |virts| ==> Assign(f) != Assign(virts[k])
    requires var x := Assign(virts[|given|]);
             Maps(m, m', root, tables, x, NewLeafEntry(LeafAt(m, root, x), frame, KernelPage()))
    ensures Mapping(m0, m', root, fs, frames', virts, given + [frame])
  {
    hide GetAddress, Assign, LeafAt, TableOf, Leaf, KernelPage, NewLeafEntry, Grows, Low, Supervisor;
    var n := |given|;
    var x := Assign(virts[n]);
    EmptyLeafTakes(frame);
    var all := [frame] + frames;
    assert all[0] == frame && forall t :: t in all ==> t in fs;
    forall t | t in tables ensures t in fs {
      assert t in frames && t in all;
    }
    forall k | 0 <= k < |virts| ensures !Names(tables, Assign(virts[k])) {
    }
    forall y | !Names(virts, y) && !Names(fs, y) ensures LeafAt(m', root, y) == LeafAt(m0, root, y) {
      assert virts[n] in virts;
    }
  }

  lemma EmptyLeafTakes(frame: Word)
    requires GetAddress(frame) == frame
    ensures GetAddress(NewLeafEntry(Word(0), frame, KernelPage())) == frame
    ensures Supervisor(NewLeafEntry(Word(0), frame, KernelPage()))
  {
    hide GetAddress, NewLeafEntry, Supervisor, KernelPage, Within, Leaf, Clean;
    KernelPageIsLow();
    ZeroWord();
    NewLeafEntryPoints(Word(0), frame, KernelPage());
    LeafFields(frame, KernelPage());
    KernelLeafIsSupervisor(frame);
  }

  /** `count` pages from `first` on, each mapped to a page of its own from the page-frame manager. It
      stops when there is none left, where the source goes on to map page zero. */
  method MapPages(space: AddressSpace, first: Word, count: nat, ghost virts: seq<Word>, ghost places: set<Place>)
    returns (ok: bool, ghost given: seq<Word>)
    requires space.Valid() && |virts| == count
    requires Mappable(space.mem, space.pml4, space.frames, first, virts, places)
    modifies space
    ensures space.pml4 == old(space.pml4)
    ensures !ok ==> |old(space.frames)| < count + |Absent(old(space.mem), space.pml4, places)|
    ensures ok ==> |space.frames| + count + |Absent(old(space.mem), space.pml4, places)|
                   == |old(space.frames)| + |Absent(space.mem, space.pml4, places)|
    ensures ok ==>
      && space.Valid() && |given| == count
      && Mapping(old(space.mem), space.mem, space.pml4, old(space.frames), space.frames, virts, given)
  {
    hide GetAddress, Low, Within, Assign, Clean, Leaf, KernelPage, NewLeafEntry, TableOf, LeafAt, UsableFrame,
      Absent, Maps, Sound, Covers, Mapping, NextPage;
    ghost var m0, fs, root := space.mem, space.frames, space.pml4;
    given := [];
    ok := true;
    var pos := first;
    MappingStarts(m0, root, fs, virts);
    for i := 0 to count
      invariant space.pml4 == root && space.Valid() && |given| == i && (i < count ==> pos == virts[i])
      invariant Mapping(m0, space.mem, root, fs, space.frames, virts, given)
      invariant |space.frames| + i + |Absent(m0, root, places)| == |fs| + |Absent(space.mem, root, places)|
    {
      ghost var m, free := space.mem, space.frames;
      MappingFrames(m0, m, root, fs, free, virts, given);
      if free != [] {
        TakeFrame(m, root, free);
      }
      var frame := space.AllocPage();
      if frame == Word(0) {
        NotNullFrame(free);
        return false, given;
      }
      assert free == [frame] + space.frames;
      var virt;
      ghost var tables;
      KernelPageIsLow();
      ghost var rest := space.frames;
      ok, virt, tables := space.MapPage(pos, frame, KernelPage(), places);
      if !ok {
        return;
      }
      MapOne(m0, m, space.mem, root, fs, frame, rest, space.frames, tables, virts, given);
      given := given + [frame];
      pos := NextPage(pos);
    }
  }

  lemma MappingStarts(m0: Memory, root: Word, fs: seq<Word>, virts: seq<Word>)
    requires forall k :: 0 <= k < |virts| ==> LeafAt(m0, root, Assign(virts[k])) == Word(0)
    ensures Mapping(m0, m0, root, fs, fs, virts, [])
  {
  }

  lemma MappingFrames(m0: Memory, m: Memory, root: Word, fs: seq<Word>, frames: seq<Word>, virts: seq<Word>,
                      given: seq<Word>)
    requires Mapping(m0, m, root, fs, frames, virts, given)
    ensures forall f :: f in frames ==> f in fs
  {
  }

  lemma NotNullFrame(frames: seq<Word>)
    requires frames != [] ==> UsableFrame(frames[0]) && frames[0] == Word(0)
    ensures frames == []
  {
  }
}

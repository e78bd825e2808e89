/** `pmm_start`: the page-frame manager set up from the boot loader's memory map. */
module Boot {
  import opened Sequences
  import opened Wrappers
  import opened Sections
  import opened SectionList
  import B = BootMap

  /** What the manager must say of memory once it runs: its own pages are USED, every other page of a
      region is in the state of the region, and what lies between regions is BAD. */
  ghost predicate Booted(secs: seq<Sec>, entries: seq<B.Entry>, own: nat, pages: nat)
    requires entries != []
  {
    var to := own + pages * 0x1000;
    && (forall a: nat :: own <= a < to ==> KindAt(secs, a) == Some(Used))
    && (forall i, a: nat :: 0 <= i < |entries| && B.Holds(entries[i], a) && !(own <= a < to) ==>
          && (entries[i].signal == 0 ==> KindAt(secs, a) == Some(Free))
          && (entries[i].signal == 1 ==> KindAt(secs, a) == Some(Used))
          && (entries[i].signal > 1 ==> KindAt(secs, a) == Some(Bad)))
    && (forall a: nat ::
          a < B.EntryEnd(entries[|entries| - 1]) && (forall i :: 0 <= i < |entries| ==> !B.Holds(entries[i], a)) ==>
            KindAt(secs, a) == Some(Bad))
    && (forall a: nat :: a >= B.EntryEnd(entries[|entries| - 1]) ==> KindAt(secs, a) == None)
  }

  /** Where the manager's data may lie when the map ends with free memory: before the run of regions that
      ends it, or at the start of that run with a page of it left. */
  predicate RoomBehind(entries: seq<B.Entry>, f: nat, size: nat)
    requires f < |entries|
  {
    var last, tail := entries[|entries| - 1], B.TailStart(entries, |entries|);
    || last.signal != 0
    || B.EntryEnd(entries[f]) <= tail
    || (entries[f].base == tail && tail + B.PagesOf(size) * 0x1000 < B.EntryEnd(last))
  }

  /** The map has a region for the manager's data, and the data has room for the list. */
  predicate Startable(entries: seq<B.Entry>) {
    var size := B.DataSize(B.FreeBytes(entries));
    && B.MapOk(entries)
    && B.FirstHolding(entries, 0, size) < |entries|
    && B.Capacity(size) > 2 * |entries|
  }

  /** The list `pmm_start` has built when it locks its own pages. */
  function Fused(entries: seq<B.Entry>): seq<Sec> {
    Merged(B.Build(entries, |entries|))
  }

  /** Locking the manager's own pages follows the NULL link behind the last section exactly when the data
      does not lie where `RoomBehind` says. */
  lemma {:induction false} StartReadsNull(entries: seq<B.Entry>, f: nat, size: nat)
    requires B.MapOk(entries) && f < |entries| && B.CanHold(entries[f], size) && size > 0
    ensures ManyReadNull(Fused(entries), entries[f].base, B.PagesOf(size)) <==> !RoomBehind(entries, f, size)
  {
    hide KindAt, Formed, Stretch, ManyReadNull, Fused, RoomBehind;
    Placed(entries, f, size);
    LockManyReadsNull(Fused(entries), entries[f].base, B.PagesOf(size));
  }

  /** A page of memory between two free regions, the second of which ends the map. */
  function TwoFreeRegions(): seq<B.Entry> {
    [B.Entry(0, 0x10_0000, 3), B.Entry(0x10_0000, 0x1000, 0), B.Entry(0x10_1000, 0x400_0000, 0)]
  }

  /** It does happen: the first free region is too small for the data, so it goes to the second, in the
      middle of the run of free memory that ends the map. */
  lemma StartFails()
    ensures var entries := TwoFreeRegions();
            var size := B.DataSize(B.FreeBytes(entries));
            && Startable(entries) && size == 0x20_0000 && B.FirstHolding(entries, 0, size) == 2
            && ManyReadNull(Fused(entries), entries[2].base, B.PagesOf(size))
  {
    hide ManyReadNull, Fused;
    var entries := TwoFreeRegions();
    var a, b, c := entries[0], entries[1], entries[2];
    assert entries[..2] == [a, b] && [a, b][..1] == [a] && [a][..0] == [];
    assert B.FreeBytes([a]) == 0;
    assert B.FreeBytes([a, b]) == 0x1000;
    assert B.FreeBytes(entries) == 0x400_1000;
    assert B.FirstHolding(entries, 2, 0x20_0000) == 2;
    assert B.FirstHolding(entries, 1, 0x20_0000) == 2;
    assert B.TailStart(entries, 2) == 0x10_0000;
    StartReadsNull(entries, 2, 0x20_0000);
  }

  method FreeBytes(entries: seq<B.Entry>) returns (free: nat)
    ensures free == B.FreeBytes(entries)
  {
    free := 0;
    for i := 0 to |entries|
      invariant free == B.FreeBytes(entries[..i])
    {
      assert entries[..i + 1][..i] == entries[..i];
      if entries[i].signal == 0 {
        free := free + entries[i].length;
      }
    }
    assert entries[..|entries|] == entries;
  }

  /** The region the manager's data goes to. */
  method PlaceFor(entries: seq<B.Entry>, size: nat) returns (f: nat)
    ensures f == B.FirstHolding(entries, 0, size)
  {
    for i := 0 to |entries|
      invariant B.FirstHolding(entries, 0, size) == B.FirstHolding(entries, i, size)
    {
      if entries[i].signal == 0 {
        if entries[i].length >= size {
          return i;
        }
      }
    }
    return |entries|;
  }

  /** Where the manager's data goes: to the first free region that can hold it. Its size is a 64th of the
      free memory, rounded up to 64 MiB. */
  ghost predicate DataPlace(entries: seq<B.Entry>, f: nat, size: nat) {
    && f < |entries| && entries[f].signal == 0 && entries[f].length >= size
    && (forall i :: 0 <= i < f ==> !(entries[i].signal == 0 && entries[i].length >= size))
    && 64 * size % 0x400_0000 == 0 && B.FreeBytes(entries) <= 64 * size < B.FreeBytes(entries) + 0x400_0000
  }

  lemma DataPlaceIs(entries: seq<B.Entry>)
    requires B.FirstHolding(entries, 0, B.DataSize(B.FreeBytes(entries))) < |entries|
    ensures var size := B.DataSize(B.FreeBytes(entries)); DataPlace(entries, B.FirstHolding(entries, 0, size), size)
  {
    hide B.FreeBytes, B.DataSize;
    var size := B.DataSize(B.FreeBytes(entries));
    B.DataSizeIs(B.FreeBytes(entries));
    forall i | 0 <= i < B.FirstHolding(entries, 0, size)
      ensures !(entries[i].signal == 0 && entries[i].length >= size)
    {
      assert !B.CanHold(entries[i], size);
    }
  }

  lemma SlotsAreInside(capacity: nat, size: nat)
    requires capacity == B.Capacity(size)
    ensures 40 * (capacity - 1) < size <= 40 * capacity
    ensures B.PagesOf(size) == (size + 0xfff) / 0x1000
  {
    hide B.Capacity;
    B.CapacityIs(size, 0);
    B.CapacityIs(size, capacity);
    if capacity > 0 {
      B.CapacityIs(size, capacity - 1);
    }
    B.PagesOfIs(size);
  }

  /** `pmm_start`; not `ok` for exactly the maps for which it follows the NULL link behind the last
      section. */
  method Start(entries: seq<B.Entry>) returns (ok: bool, manager: Manager)
    requires Startable(entries)
    ensures var size := B.DataSize(B.FreeBytes(entries));
            ok <==> RoomBehind(entries, B.FirstHolding(entries, 0, size), size)
    ensures fresh(manager) && fresh(manager.slots) && manager.Valid()
    ensures var size := B.DataSize(B.FreeBytes(entries));
            && DataPlace(entries, B.FirstHolding(entries, 0, size), size)
            && 40 * (manager.slots.Length - 1) < size <= 40 * manager.slots.Length
    ensures ok ==> Formed(manager.Contents())
    ensures ok ==> (WellFormed(manager.Contents()) <==> entries[|entries| - 1].signal != 0)
    ensures var size := B.DataSize(B.FreeBytes(entries));
            ok ==> Booted(manager.Contents(), entries, entries[B.FirstHolding(entries, 0, size)].base,
                          (size + 0xfff) / 0x1000)
  {
    hide Linked, View, KindAt, Formed, WellFormed, Building, Booted, Merged, LockMany, LockSecs, CanPick,
      Stretch, AllOf, RoomBehind, Extra, ReadsNull, ManyReadNull, B.FirstHolding, B.CanHold, B.FreeBytes, B.Build,
      B.MapOk, B.PagesOf, B.DataSize, B.Capacity, DataPlace;
    var free := FreeBytes(entries);
    var size := B.DataSize(free);
    var f := PlaceFor(entries, size);
    manager := new Manager(B.Capacity(size));
    DataPlaceIs(entries);
    SlotsAreInside(manager.slots.Length, size);
    Document(manager, entries);
    ghost var was := manager.order;
    RoomFor(manager.slots[..], was, manager.next);
    manager.Recombine();
    SomeData(entries, f);
    Placed(entries, f, size);
    ghost var secs := manager.Contents();
    RoomToLock(manager.slots[..], was, manager.order, manager.next, secs, entries[f].base);
    ok := manager.LockPages(entries[f].base, B.PagesOf(size));
    StartReadsNull(entries, f, size);
    if ok {
      LockedAll(entries, f, size);
    }
  }

  /** A map with a free region has memory to manage, so there is data about it. */
  lemma SomeData(entries: seq<B.Entry>, f: nat)
    requires B.MapOk(entries) && f < |entries| && B.CanHold(entries[f], B.DataSize(B.FreeBytes(entries)))
    ensures B.DataSize(B.FreeBytes(entries)) > 0
  {
    B.FreeBytesAtLeast(entries, f);
  }

  /** The loop of `pmm_start` over the memory map. */
  method Document(manager: Manager, entries: seq<B.Entry>)
    requires B.MapOk(entries) && manager.Valid() && manager.Contents() == [Sec(0, 0x100, Bad)]
    requires Building(manager.slots[..], manager.order, manager.next) && manager.slots.Length > 2 * |entries|
    modifies manager`next, manager`order, manager.slots
    ensures manager.Valid() && Building(manager.slots[..], manager.order, manager.next)
    ensures manager.next < 2 * |entries| && manager.Contents() == B.Build(entries, |entries|)
  {
    hide Linked, View, Building, B.AddEntry, B.MapOk, B.Build;
    var current := 0;
    ghost var k := 0;
    Begun(manager.slots[..], manager.order, entries);
    for i := 0 to |entries|
      invariant manager.Valid() && Building(manager.slots[..], manager.order, manager.next)
      invariant manager.Contents() == B.Build(entries, i)
      invariant k + 1 == |manager.order| && manager.order[k] == current
      invariant k <= 2 * (if i == 0 then 0 else i - 1)
    {
      RoomFor(manager.slots[..], manager.order, manager.next);
      Round(entries, i);
      current, k := AddRegion(manager, entries[i], current, k);
    }
    RoomFor(manager.slots[..], manager.order, manager.next);
  }

  /** One round: the entry's section goes in first, then the one for a gap before it. */
  method AddRegion(manager: Manager, e: B.Entry, current: nat, ghost k: nat) returns (last: nat, ghost j: nat)
    requires manager.Valid() && Building(manager.slots[..], manager.order, manager.next)
    requires k + 1 == |manager.order| && manager.order[k] == current && k + 2 < manager.slots.Length
    modifies manager`next, manager`order, manager.slots
    ensures manager.Valid() && Building(manager.slots[..], manager.order, manager.next)
    ensures old(manager.Contents()) != [] && manager.Contents() == B.AddEntry(old(manager.Contents()), e)
    ensures j + 1 == |manager.order| && manager.order[j] == last
    ensures j <= k + 2 && (e.base == old(manager.Contents())[k].start ==> j == k)
  {
    hide Linked, View, Building, Replace, B.GapBefore, B.SectionOf, B.PagesOf, Minus;
    ghost var secs := manager.Contents();
    NodeData(manager.slots[..], manager.order, k);
    last, j := current, k;
    if e.base == manager.slots[current].start {
      return;
    }
    RoomFor(manager.slots[..], manager.order, manager.next);
    last := manager.Append(current, B.SectionOf(e), k);
    j := k + 1;
    ghost var longer := manager.Contents();
    assert longer == secs + [B.SectionOf(e)];
    DistinctNodes(manager.slots[..], manager.order, j);
    NodeData(manager.slots[..], manager.order, j);
    var p := manager.slots[manager.slots[last].prev.index];
    SectionBase(e);
    if p.start + p.pages * 0x1000 != manager.slots[last].start {
      RoomFor(manager.slots[..], manager.order, manager.next);
      var start := p.start + p.pages * 0x1000;
      manager.InsertGap(last, Sec(start, B.PagesOf(Minus(manager.slots[last].start, start)), Bad), k);
      j := j + 1;
      GapPlaced(secs, e);
    }
  }

  lemma SectionBase(e: B.Entry)
    ensures B.SectionOf(e).start == e.base
  {
  }

  lemma Begun(m: seq<Section>, order: seq<nat>, entries: seq<B.Entry>)
    requires Linked(m, order) && View(m, order) == [Sec(0, 0x100, Bad)] && B.MapOk(entries)
    ensures order == [0] && |m| > 0 && B.Build(entries, 0) == View(m, order) && entries != []
  {
  }

  lemma RoomFor(m: seq<Section>, order: seq<nat>, next: nat)
    requires Building(m, order, next)
    ensures next == |order| && forall i :: i in order ==> i < next
  {
  }

  lemma {:induction false} Round(entries: seq<B.Entry>, i: nat)
    requires B.MapOk(entries) && i < |entries|
    ensures B.Build(entries, i + 1) == B.AddEntry(B.Build(entries, i), entries[i])
    ensures i == 0 ==> B.Build(entries, 0) == [Sec(0, 0x100, Bad)] && entries[0].base == 0
  {
  }

  lemma GapPlaced(secs: seq<Sec>, e: B.Entry)
    requires secs != []
    ensures var current := secs[|secs| - 1]; var gap := B.GapBefore(current, e);
            && gap == Sec(End(current), B.PagesOf(Minus(e.base, End(current))), Bad)
            && Replace(secs + [B.SectionOf(e)], |secs| - 1, |secs|, [current, gap]) == secs + [gap, B.SectionOf(e)]
  {
  }

  /** The pages for the manager's data are free before they are locked, and when they can be. */
  lemma {:induction false} Placed(entries: seq<B.Entry>, f: nat, size: nat)
    requires B.MapOk(entries) && f < |entries| && B.CanHold(entries[f], size) && size > 0
    ensures var secs := Fused(entries);
            && Formed(secs) && (WellFormed(secs) <==> entries[|entries| - 1].signal != 0)
            && entries[f].base % 0x1000 == 0 && B.PagesOf(size) > 0
            && (Stretch(secs, entries[f].base, B.PagesOf(size)) <==> RoomBehind(entries, f, size))
            && SameKinds(B.Build(entries, |entries|), secs)
            && AllOf(secs, entries[f].base, entries[f].base + B.PagesOf(size) * 0x1000, Free)
  {
    hide KindAt, B.Build, Merged;
    var secs := Fused(entries);
    B.BuiltIsWellFormed(entries, f);
    B.BuildDescribes(entries, |entries|);
    PagesFit(entries[f], size);
    if entries[|entries| - 1].signal == 0 {
      B.TailIsLast(entries);
      B.TailSplits(entries, |entries|, f);
    }
    forall a: nat | entries[f].base <= a < entries[f].base + B.PagesOf(size) * 0x1000
      ensures KindAt(secs, a) == Some(Free)
    {
      B.MetadataInRegion(entries[f], size, a);
    }
  }

  lemma PagesFit(e: B.Entry, size: nat)
    requires B.CanHold(e, size) && e.length % 0x1000 == 0
    ensures e.base + B.PagesOf(size) * 0x1000 <= B.EntryEnd(e)
  {
  }

  /** The list when the manager's own pages are locked too. */
  lemma {:induction false} LockedAll(entries: seq<B.Entry>, f: nat, size: nat)
    requires B.MapOk(entries) && f < |entries| && B.CanHold(entries[f], size) && size > 0
    requires RoomBehind(entries, f, size)
    ensures var secs := LockMany(Fused(entries), entries[f].base, B.PagesOf(size));
            && Formed(secs) && (WellFormed(secs) <==> entries[|entries| - 1].signal != 0)
            && Booted(secs, entries, entries[f].base, B.PagesOf(size))
  {
    hide KindAt, Formed, Stretch, Booted, LockMany, Fused, B.Build, B.MapOk, B.PagesOf, RoomBehind;
    var secs := Fused(entries);
    Placed(entries, f, size);
    LockManySets(secs, entries[f].base, B.PagesOf(size));
    AlwaysTwo(secs);
    AlwaysTwo(LockMany(secs, entries[f].base, B.PagesOf(size)));
    BootedAll(entries, f, size, secs, LockMany(secs, entries[f].base, B.PagesOf(size)));
  }

  lemma AlwaysTwo(secs: seq<Sec>)
    requires Formed(secs)
    ensures |secs| >= 2
  {
  }

  /** There are slots for the first page to be locked. */
  lemma RoomToLock(m: seq<Section>, was: seq<nat>, order: seq<nat>, next: nat, secs: seq<Sec>, page: nat)
    requires Linked(m, order) && (forall i :: i in order ==> i in was) && (forall i :: i in was ==> i < next)
    requires next + 2 <= |m|
    ensures CanPick(m, next, Extra(secs, LockSecs(secs, page)))
  {
    LockGrows(secs, page);
    CanPickUnlinked(m, next, Extra(secs, LockSecs(secs, page)));
  }

  lemma LockGrows(secs: seq<Sec>, page: nat)
    ensures |LockSecs(secs, page)| <= |secs| + 2
  {
  }

  lemma {:induction false} BootedAll(entries: seq<B.Entry>, f: nat, size: nat, secs: seq<Sec>, secs': seq<Sec>)
    requires B.MapOk(entries) && f < |entries| && B.CanHold(entries[f], size)
    requires SameKinds(B.Build(entries, |entries|), secs)
    requires var own := entries[f].base;
             forall a: nat :: KindAt(secs', a) ==
               if own <= a < own + B.PagesOf(size) * 0x1000 then Some(Used) else KindAt(secs, a)
    ensures Booted(secs', entries, entries[f].base, B.PagesOf(size))
  {
    hide KindAt, B.Build;
    var built := B.Build(entries, |entries|);
    B.BuildDescribes(entries, |entries|);
    PagesFit(entries[f], size);
    forall a: nat ensures a < B.EntryEnd(entries[|entries| - 1]) <==> KindAt(built, a).Some? {
      Covered(built, a);
    }
  }
}

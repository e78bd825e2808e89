/** The section list `pmm_start` builds from the boot loader's memory map. */
module BootMap {
  import opened Wrappers
  import opened Sections

  /** One region of the memory map; `signal` is 0 FREE, 1 BUSY, 2 MMIO, 3 NOUSE. */
  datatype Entry = Entry(base: nat, length: nat, signal: nat)

  function InterpretSignal(signal: nat): Kind {
    if signal == 1 then Used
    else if signal == 0 then Free
    else Bad
  }

  function PagesOf(length: nat): nat {
    if length % 0x1000 != 0 then length / 0x1000 + 1 else length / 0x1000
  }

  function EntryEnd(e: Entry): nat {
    e.base + e.length
  }

  predicate Holds(e: Entry, a: nat) {
    e.base <= a < EntryEnd(e)
  }

  /** A map the boot loader may hand over: page-aligned, non-empty, sorted, disjoint regions; the
      first is the first megabyte, not to be used. */
  predicate MapOk(entries: seq<Entry>) {
    && entries != [] && entries[0] == Entry(0, 0x100000, 3)
    && (forall i :: 0 <= i < |entries| ==>
          entries[i].base % 0x1000 == 0 && entries[i].length % 0x1000 == 0 && entries[i].length > 0)
    && (forall i, j :: 0 <= i < j < |entries| ==> entries[i].base + entries[i].length <= entries[j].base)
  }

  function SectionOf(e: Entry): Sec {
    Sec(e.base, PagesOf(e.length), InterpretSignal(e.signal))
  }

  /** One round of the loop over the map: a section for the entry, and one before it for a gap. */
  function AddEntry(secs: seq<Sec>, e: Entry): seq<Sec>
    requires secs != []
  {
    var current := secs[|secs| - 1];
    if e.base == current.start then secs
    else if End(current) != e.base then secs + [GapBefore(current, e), SectionOf(e)]
    else secs + [SectionOf(e)]
  }

  function GapBefore(current: Sec, e: Entry): Sec {
    Sec(End(current), PagesOf(Minus(e.base, End(current))), Bad)
  }

  /** The list after the first `n` entries. */
  function Build(entries: seq<Entry>, n: nat): (secs: seq<Sec>)
    requires n <= |entries|
    ensures secs != []
  {
    if n == 0 then [Sec(0, 0x100, Bad)] else AddEntry(Build(entries, n - 1), entries[n - 1])
  }

  /** The state memory of a region is in: USED for 1, BUSY; FREE for 0; BAD for every other signal. */
  predicate Tells(signal: nat, state: Option<Kind>) {
    && (signal == 0 ==> state == Some(Free)) && (signal == 1 ==> state == Some(Used))
    && (signal > 1 ==> state == Some(Bad))
  }

  /** What the list of the first `n` entries says of every address. */
  ghost predicate Describes(secs: seq<Sec>, entries: seq<Entry>, n: nat)
    requires 0 < n <= |entries|
  {
    && Touching(secs) && secs != [] && secs[0] == Sec(0, 0x100, Bad)
    && (forall k :: 0 <= k < |secs| ==> secs[k].start % 0x1000 == 0 && secs[k].pages > 0)
    && secs[|secs| - 1] == SectionOf(entries[n - 1])
    && (forall i, a: nat :: 0 <= i < n && Holds(entries[i], a) ==> Tells(entries[i].signal, KindAt(secs, a)))
    && (forall a: nat :: a < End(secs[|secs| - 1]) && (forall i :: 0 <= i < n ==> !Holds(entries[i], a)) ==>
          KindAt(secs, a) == Some(Bad))
  }

  lemma {:induction false} BuildDescribes(entries: seq<Entry>, n: nat)
    requires MapOk(entries) && 0 < n <= |entries|
    ensures Describes(Build(entries, n), entries, n)
  {
    if n == 1 {
      var secs := Build(entries, 0);
      assert secs == [Sec(0, 0x100, Bad)] && Build(entries, 1) == secs;
      assert SectionOf(entries[0]) == secs[0];
      assert forall a: nat :: KindAt(secs, a) == if a < 0x100000 then Some(Bad) else None;
    } else {
      BuildDescribes(entries, n - 1);
      AddDescribes(Build(entries, n - 1), entries, n - 1);
    }
  }

  /** What one round adds to the states of memory. */
  lemma AddKinds(secs: seq<Sec>, e: Entry, a: nat)
    requires Touching(secs) && secs != [] && secs[0].start == 0
    requires var current := secs[|secs| - 1];
             && e.base % 0x1000 == 0 && e.length % 0x1000 == 0 && current.start < e.base
             && current.start % 0x1000 == 0 && End(current) <= e.base
    ensures KindAt(AddEntry(secs, e), a) == if a < End(secs[|secs| - 1]) then KindAt(secs, a)
                                            else if Holds(e, a) then Some(InterpretSignal(e.signal))
                                            else if a < e.base then Some(Bad) else None
  {
    hide KindAt, PagesOf, Minus;
    var current := secs[|secs| - 1];
    KindAtConcat(secs, Added(current, e), a);
    Covered(secs, a);
    AddedKinds(current, e, a);
  }

  /** The sections a round puts behind the last one. */
  function Added(current: Sec, e: Entry): seq<Sec> {
    if End(current) != e.base then [GapBefore(current, e), SectionOf(e)] else [SectionOf(e)]
  }

  lemma AddedKinds(current: Sec, e: Entry, a: nat)
    requires e.base % 0x1000 == 0 && e.length % 0x1000 == 0 && current.start % 0x1000 == 0 && End(current) <= e.base
    ensures KindAt(Added(current, e), a) == if Holds(e, a) then Some(InterpretSignal(e.signal))
                                            else if End(current) <= a < e.base then Some(Bad) else None
  {
    hide KindAt, InterpretSignal;
    FewSections(Added(current, e), a);
  }

  lemma AddTouches(secs: seq<Sec>, e: Entry)
    requires Touching(secs) && secs != []
    requires forall k :: 0 <= k < |secs| ==> secs[k].start % 0x1000 == 0 && secs[k].pages > 0
    requires var current := secs[|secs| - 1];
             && e.base % 0x1000 == 0 && e.length % 0x1000 == 0 && e.length > 0
             && current.start < e.base && End(current) <= e.base
    ensures var r := AddEntry(secs, e);
            && Touching(r) && r != [] && r[0] == secs[0] && r[|r| - 1] == SectionOf(e)
            && End(SectionOf(e)) == e.base + e.length
            && forall k :: 0 <= k < |r| ==> r[k].start % 0x1000 == 0 && r[k].pages > 0
  {
  }

  lemma {:induction false} AddDescribes(secs: seq<Sec>, entries: seq<Entry>, n: nat)
    requires MapOk(entries) && 0 < n < |entries| && Describes(secs, entries, n)
    ensures Describes(AddEntry(secs, entries[n]), entries, n + 1)
  {
    var e := entries[n];
    LastBefore(secs, entries, n);
    AddTouches(secs, e);
    hide KindAt, Touching, AddEntry, MapOk;
    forall i, a: nat | 0 <= i < n + 1 && Holds(entries[i], a)
      ensures Tells(entries[i].signal, KindAt(AddEntry(secs, e), a))
    {
      AddKinds(secs, e, a);
      Covered(secs, a);
    }
    forall a: nat | a < e.base + e.length && forall i :: 0 <= i < n + 1 ==> !Holds(entries[i], a)
      ensures KindAt(AddEntry(secs, e), a) == Some(Bad)
    {
      AddKinds(secs, e, a);
      assert !Holds(entries[n], a);
    }
  }

  lemma {:induction false} LastBefore(secs: seq<Sec>, entries: seq<Entry>, n: nat)
    requires MapOk(entries) && 0 < n < |entries| && Describes(secs, entries, n)
    ensures var current := secs[|secs| - 1];
            && End(current) == entries[n - 1].base + entries[n - 1].length <= entries[n].base
            && current.start < entries[n].base && current.start % 0x1000 == 0
            && entries[n].base % 0x1000 == 0 && entries[n].length % 0x1000 == 0 && entries[n].length > 0
  {
    hide KindAt, Touching;
  }

  // ---------------------------------------------------------------- where the manager lives

  function FreeBytes(entries: seq<Entry>): nat {
    if entries == [] then 0
    else FreeBytes(entries[..|entries| - 1])
         + (if entries[|entries| - 1].signal == 0 then entries[|entries| - 1].length else 0)
  }

  /** It is the sum over the free regions. */
  lemma {:induction false} FreeBytesAdds(a: seq<Entry>, b: seq<Entry>)
    ensures FreeBytes(a + b) == FreeBytes(a) + FreeBytes(b)
    ensures |b| == 1 ==> FreeBytes(b) == if b[0].signal == 0 then b[0].length else 0
    decreases |b|
  {
    if b == [] {
      assert a + b == a;
    } else {
      var front := b[..|b| - 1];
      assert (a + b)[..|a + b| - 1] == a + front;
      FreeBytesAdds(a, front);
    }
  }

  lemma {:induction false} FreeBytesAtLeast(entries: seq<Entry>, f: nat)
    requires f < |entries| && entries[f].signal == 0
    ensures FreeBytes(entries) >= entries[f].length
  {
    if f < |entries| - 1 {
      FreeBytesAtLeast(entries[..|entries| - 1], f);
    }
  }

  /** A 64th of the free memory, rounded up to 64 MiB. */
  function DataSize(free: nat): nat {
    var units := free / 0x400_0000 + (if free % 0x400_0000 != 0 then 1 else 0);
    units * 0x400_0000 / 64
  }

  /** How many 40-byte slots start inside the manager's data. */
  function Capacity(size: nat): nat {
    (size + 39) / 40
  }

  /** 64 times the size is the least multiple of 64 MiB not below the free bytes. */
  lemma DataSizeIs(free: nat)
    ensures 64 * DataSize(free) % 0x400_0000 == 0 && free <= 64 * DataSize(free) < free + 0x400_0000
  {
    var units := free / 0x400_0000 + (if free % 0x400_0000 != 0 then 1 else 0);
    assert DataSize(free) == units * 0x10_0000;
  }

  /** A slot is there exactly when it starts inside the data. */
  lemma CapacityIs(size: nat, i: nat)
    ensures i < Capacity(size) <==> 40 * i < size
  {
  }

  /** Whole pages that hold the length, and no page more. */
  lemma PagesOfIs(length: nat)
    ensures length <= PagesOf(length) * 0x1000 < length + 0x1000 && PagesOf(length) == (length + 0xfff) / 0x1000
  {
  }

  predicate CanHold(e: Entry, size: nat) {
    e.signal == 0 && e.length >= size
  }

  function FirstHolding(entries: seq<Entry>, k: nat, size: nat): (r: nat)
    requires k <= |entries|
    ensures k <= r <= |entries| && (r < |entries| ==> CanHold(entries[r], size))
    ensures forall i :: k <= i < r ==> !CanHold(entries[i], size)
    decreases |entries| - k
  {
    if k == |entries| || CanHold(entries[k], size) then k else FirstHolding(entries, k + 1, size)
  }

  /** The stretch of the metadata lies in the free region it was placed in. */
  lemma MetadataInRegion(e: Entry, size: nat, a: nat)
    requires CanHold(e, size) && e.length % 0x1000 == 0 && e.base <= a < e.base + PagesOf(size) * 0x1000
    ensures Holds(e, a)
  {
  }

  /** Fused, the list is in form, and it ends with FREE memory exactly when the map does. */
  lemma {:induction false} BuiltIsWellFormed(entries: seq<Entry>, f: nat)
    requires MapOk(entries) && f < |entries| && entries[f].signal == 0
    ensures Formed(Merged(Build(entries, |entries|)))
    ensures WellFormed(Merged(Build(entries, |entries|))) <==> entries[|entries| - 1].signal != 0
    ensures SameKinds(Build(entries, |entries|), Merged(Build(entries, |entries|)))
  {
    hide KindAt, Build, MapOk, Merged, Formed, SameKinds;
    BuiltHasFree(entries, f);
    MergedIsWellFormed(Build(entries, |entries|));
  }

  lemma {:induction false} BuiltHasFree(entries: seq<Entry>, f: nat)
    requires MapOk(entries) && f < |entries| && entries[f].signal == 0
    ensures var secs := Build(entries, |entries|);
            && Describes(secs, entries, |entries|)
            && (secs[|secs| - 1].kind != Free <==> entries[|entries| - 1].signal != 0)
            && exists k :: 0 <= k < |secs| && secs[k].kind == Free
  {
    BuildDescribes(entries, |entries|);
    assert Holds(entries[f], entries[f].base);
    KindAtWitness(Build(entries, |entries|), entries[f].base);
  }

  lemma MergedIsWellFormed(secs: seq<Sec>)
    requires Touching(secs) && secs != [] && secs[0] == Sec(0, 0x100, Bad)
    requires forall k :: 0 <= k < |secs| ==> secs[k].start % 0x1000 == 0 && secs[k].pages > 0
    requires exists k :: 0 <= k < |secs| && secs[k].kind == Free
    ensures Formed(Merged(secs)) && SameKinds(secs, Merged(secs))
    ensures WellFormed(Merged(secs)) <==> secs[|secs| - 1].kind != Free
  {
    hide KindAt, Merged;
    MergedAlternates(secs);
    MergedSound(secs);
    MergedSingle(secs);
    forall a: nat ensures KindAt(Merged(secs), a) == KindAt(secs, a) {
      MergedKinds(secs, a);
    }
    MergedKinds(secs, 0);
  }

  // ---------------------------------------------------------------- a map that ends with free memory

  /** Where the run of touching free regions that ends the first `n` begins. */
  function TailStart(entries: seq<Entry>, n: nat): nat
    requires 0 < n <= |entries|
  {
    if n > 1 && entries[n - 2].signal == 0 && EntryEnd(entries[n - 2]) == entries[n - 1].base
      then TailStart(entries, n - 1) else entries[n - 1].base
  }

  lemma {:induction false} TailIsFree(entries: seq<Entry>, n: nat, a: nat)
    requires MapOk(entries) && 0 < n <= |entries| && entries[n - 1].signal == 0
    requires TailStart(entries, n) <= a < EntryEnd(entries[n - 1])
    ensures exists i :: 0 <= i < n && entries[i].signal == 0 && Holds(entries[i], a)
  {
    if a >= entries[n - 1].base {
      assert Holds(entries[n - 1], a);
    } else {
      TailIsFree(entries, n - 1, a);
    }
  }

  /** What lies just before the run is no free region. */
  lemma {:induction false} BeforeTail(entries: seq<Entry>, n: nat)
    requires MapOk(entries) && 0 < n <= |entries| && entries[n - 1].signal == 0
    ensures 0 < TailStart(entries, n) <= entries[n - 1].base && TailStart(entries, n) % 0x1000 == 0
    ensures forall i :: 0 <= i < |entries| && Holds(entries[i], TailStart(entries, n) - 1) ==> entries[i].signal != 0
  {
    assert n > 1;
    var p, e := entries[n - 2], entries[n - 1];
    assert EntryEnd(p) <= e.base;
    if p.signal == 0 && EntryEnd(p) == e.base {
      BeforeTail(entries, n - 1);
    } else {
      forall i | 0 <= i < |entries| && Holds(entries[i], e.base - 1) ensures i == n - 2 {
      }
    }
  }

  /** The run begins with a region, so every region lies before it or in it. */
  lemma {:induction false} TailSplits(entries: seq<Entry>, n: nat, f: nat)
    requires MapOk(entries) && 0 < n <= |entries| && entries[n - 1].signal == 0 && f < |entries|
    ensures EntryEnd(entries[f]) <= TailStart(entries, n) || TailStart(entries, n) <= entries[f].base
  {
    if n > 1 && entries[n - 2].signal == 0 && EntryEnd(entries[n - 2]) == entries[n - 1].base {
      TailSplits(entries, n - 1, f);
    }
  }

  /** In the fused list that run is the last section. */
  lemma {:induction false} TailIsLast(entries: seq<Entry>)
    requires MapOk(entries) && entries != [] && entries[|entries| - 1].signal == 0
    ensures var r := Merged(Build(entries, |entries|));
            && r != [] && r[|r| - 1].start == TailStart(entries, |entries|)
            && End(r[|r| - 1]) == EntryEnd(entries[|entries| - 1]) && r[|r| - 1].kind == Free
  {
    hide KindAt, Merged, Build, MapOk, TailStart;
    LastFused(entries);
    KindsThere(entries);
    var r, tail := Merged(Build(entries, |entries|)), TailStart(entries, |entries|);
    var last := r[|r| - 1];
    if last.start < tail {
      SectionKind(r, |r| - 1, tail - 1);
    } else if tail < last.start {
      SectionKind(r, |r| - 2, last.start - 1);
    }
  }

  lemma {:induction false} LastFused(entries: seq<Entry>)
    requires MapOk(entries) && entries != [] && entries[|entries| - 1].signal == 0
    ensures var r := Merged(Build(entries, |entries|));
            && |r| >= 2 && Touching(r) && r[|r| - 1].kind == Free && r[|r| - 2].kind != Free
            && End(r[|r| - 1]) == EntryEnd(entries[|entries| - 1])
            && r[|r| - 1].pages > 0 && r[|r| - 2].pages > 0
  {
    hide KindAt, Merged, Build;
    var secs := Build(entries, |entries|);
    BuildDescribes(entries, |entries|);
    BuiltHasFree(entries, |entries| - 1);
    MergedAlternates(secs);
    MergedSound(secs);
    MergedKinds(secs, 0);
    MergedIsWellFormed(secs);
  }

  lemma {:induction false} KindsThere(entries: seq<Entry>)
    requires MapOk(entries) && entries != [] && entries[|entries| - 1].signal == 0
    ensures var r, tail := Merged(Build(entries, |entries|)), TailStart(entries, |entries|);
            && 0 < tail < EntryEnd(entries[|entries| - 1])
            && KindAt(r, tail - 1) != Some(Free)
            && forall a: nat :: tail <= a < EntryEnd(entries[|entries| - 1]) ==> KindAt(r, a) == Some(Free)
  {
    hide KindAt, Merged, Build, TailStart;
    var n := |entries|;
    var secs := Build(entries, n);
    var r, tail, end := Merged(secs), TailStart(entries, n), EntryEnd(entries[n - 1]);
    BuildDescribes(entries, n);
    BeforeTail(entries, n);
    MergedKinds(secs, tail - 1);
    if exists i :: 0 <= i < n && Holds(entries[i], tail - 1) {
      var i :| 0 <= i < n && Holds(entries[i], tail - 1);
      assert Tells(entries[i].signal, KindAt(secs, tail - 1));
    }
    forall a: nat | tail <= a < end ensures KindAt(r, a) == Some(Free) {
      TailIsFree(entries, n, a);
      MergedKinds(secs, a);
    }
  }

  lemma {:induction false} MergedSound(secs: seq<Sec>)
    requires forall k :: 0 <= k < |secs| ==> secs[k].start % 0x1000 == 0 && secs[k].pages > 0
    ensures forall k :: 0 <= k < |Merged(secs)| ==> Merged(secs)[k].start % 0x1000 == 0 && Merged(secs)[k].pages > 0
    ensures secs != [] ==> Merged(secs) != [] && Merged(secs)[|Merged(secs)| - 1].kind == secs[|secs| - 1].kind
    decreases |secs|
  {
    if |secs| >= 2 {
      MergedSound(if secs[0].kind == secs[1].kind then [Fuse(secs[0], secs[1])] + secs[2..] else secs[1..]);
    }
  }
}

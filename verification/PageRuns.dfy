/** Runs of the page-frame manager's operations: what every one of them keeps. */
module PageRuns {
  import opened Wrappers
  import opened Sections

  datatype Call = Alloc | FreePage(page: nat) | LockPage(page: nat) | Pool(count: nat) | Recombine

  /** The section list, and the pages that were handed out and not given back. */
  datatype State = State(secs: seq<Sec>, held: set<nat>)

  function PagesFrom(base: nat, count: nat): set<nat> {
    set i | 0 <= i < count :: base + i * 0x1000
  }

  /** The pages a call hands out. */
  function Given(secs: seq<Sec>, call: Call): set<nat> {
    match call
    case Alloc =>
      var page := AllocSecs(secs).1;
      if page == 0 then {} else {page}
    case Pool(count) =>
      (match PoolSecs(secs, count).1
       case None => {}
       case Some(base) => PagesFrom(base, count))
    case _ => {}
  }

  function After(secs: seq<Sec>, call: Call): seq<Sec> {
    match call
    case Alloc => AllocSecs(secs).0
    case FreePage(page) => FreeSecs(secs, page)
    case LockPage(page) => LockSecs(secs, page)
    case Pool(count) => PoolSecs(secs, count).0
    case Recombine => Merged(secs)
  }

  function Step(st: State, call: Call): State {
    State(After(st.secs, call),
          (if call.FreePage? then st.held - {call.page} else st.held) + Given(st.secs, call))
  }

  predicate Page(page: nat) {
    page % 0x1000 == 0 && 0 < page
  }

  /** What the manager relies on: no call follows the NULL link behind the last section, no page is locked
      where an empty section starts, and not all of memory is BAD when sections are fused. Nobody has to
      hold a page that is freed. */
  ghost predicate Allowed(st: State, call: Call) {
    match call
    case Alloc => !ScanReadsNull(st.secs)
    case FreePage(page) => Page(page) && !FreeReadsNull(st.secs, page)
    case LockPage(page) => Lockable(st.secs, page) && forall s :: s in st.secs && s.pages == 0 ==> s.start != page
    case Pool(count) => !PoolReadsNull(st.secs, count) && exists s :: s in st.secs && s.kind != Bad
    case Recombine => exists s :: s in st.secs && s.kind != Bad
  }

  ghost predicate IsUsed(secs: seq<Sec>, page: nat) {
    page % 0x1000 == 0 && AllOf(secs, page, page + 0x1000, Used)
  }

  ghost predicate Consistent(st: State) {
    Formed(st.secs) && forall p :: p in st.held ==> IsUsed(st.secs, p)
  }

  ghost predicate SameExtent(secs: seq<Sec>, secs': seq<Sec>) {
    forall a: nat :: KindAt(secs', a).Some? <==> KindAt(secs, a).Some?
  }

  /** Setting one page leaves every other page as it is. */
  lemma OthersStay(secs: seq<Sec>, secs': seq<Sec>, page: nat, kind: Kind, p: nat)
    requires SetsPage(secs, secs', page, kind) && page % 0x1000 == 0 && p != page && IsUsed(secs, p)
    ensures IsUsed(secs', p)
  {
    hide KindAt;
    Apart(page, p);
  }

  lemma Apart(p: nat, q: nat)
    requires p % 0x1000 == 0 && q % 0x1000 == 0 && p != q
    ensures p + 0x1000 <= q || q + 0x1000 <= p
  {
  }

  lemma AllocStep(st: State)
    requires Consistent(st) && Allowed(st, Alloc)
    ensures Consistent(Step(st, Alloc)) && Given(st.secs, Alloc) !! st.held
    ensures forall p :: p in Given(st.secs, Alloc) ==> AllOf(st.secs, p, p + 1, Free)
  {
    hide KindAt, Formed, AllocSecs, ScanReadsNull;
    AllocRefines(st.secs);
    var (secs', page) := AllocSecs(st.secs);
    forall p | p in st.held ensures (page != 0 ==> p != page) && IsUsed(secs', p) {
      if page != 0 {
        assert KindAt(st.secs, p) == Some(Used);
        OthersStay(st.secs, secs', page, Used, p);
      }
    }
  }

  lemma FreeStep(st: State, page: nat)
    requires Consistent(st) && Allowed(st, FreePage(page))
    ensures Consistent(Step(st, FreePage(page)))
  {
    hide KindAt, Formed, FreeSecs, Freeable, FreeReadsNull;
    FreeSets(st.secs, page);
    if Freeable(st.secs, page) {
      forall p | p in st.held && p != page ensures IsUsed(FreeSecs(st.secs, page), p) {
        OthersStay(st.secs, FreeSecs(st.secs, page), page, Free, p);
      }
    }
  }

  lemma LockStep(st: State, page: nat)
    requires Consistent(st) && Allowed(st, LockPage(page))
    ensures Consistent(Step(st, LockPage(page)))
  {
    hide KindAt, Formed, LockSecs;
    LockSets(st.secs, page);
    forall p | p in st.held ensures IsUsed(LockSecs(st.secs, page), p) {
      if p != page {
        OthersStay(st.secs, LockSecs(st.secs, page), page, Used, p);
      }
    }
  }

  lemma RecombineStep(st: State)
    requires Consistent(st) && Allowed(st, Recombine)
    ensures Consistent(State(Merged(st.secs), st.held)) && SameKinds(st.secs, Merged(st.secs))
    ensures Step(st, Recombine) == State(Merged(st.secs), st.held)
  {
    hide KindAt, Formed, Merged;
    RecombineRefines(st.secs);
    MergedAny(st.secs);
    assert st.held + {} == st.held;
  }

  lemma MergedAny(secs: seq<Sec>)
    requires Formed(secs)
    ensures Merged(secs) != []
  {
    MergedAlternates(secs);
  }

  lemma PoolStep(st: State, count: nat)
    requires Consistent(st) && Allowed(st, Pool(count))
    ensures Consistent(Step(st, Pool(count))) && Given(st.secs, Pool(count)) !! st.held
    ensures forall p :: p in Given(st.secs, Pool(count)) ==> AllOf(st.secs, p, p + 1, Free)
  {
    hide KindAt, Formed, PoolSecs, Merged, PoolReadsNull;
    PoolRefines(st.secs, count);
    var (secs', base) := PoolSecs(st.secs, count);
    if base.None? {
      RecombineStep(st);
      PoolFails(st.secs, count);
    } else {
      PoolTakes(st, secs', base.value, count);
    }
  }

  lemma PoolFails(secs: seq<Sec>, count: nat)
    requires PoolSecs(secs, count).1.None?
    ensures PoolSecs(secs, count).0 == Merged(secs)
  {
  }

  lemma PoolTakes(st: State, secs': seq<Sec>, base: nat, count: nat)
    requires Consistent(st) && Formed(secs') && base % 0x1000 == 0
    requires AllOf(st.secs, base, base + count * 0x1000, Free)
    requires forall a: nat :: KindAt(secs', a) ==
               if base <= a < base + count * 0x1000 then Some(Used) else KindAt(st.secs, a)
    ensures Consistent(State(secs', st.held + PagesFrom(base, count))) && PagesFrom(base, count) !! st.held
    ensures forall p :: p in PagesFrom(base, count) ==> AllOf(st.secs, p, p + 1, Free)
  {
    hide KindAt, Formed;
    forall p | p in st.held ensures IsUsed(secs', p) {
    }
    forall p | p in PagesFrom(base, count) ensures IsUsed(secs', p) && p !in st.held && AllOf(st.secs, p, p + 1, Free) {
      var i :| 0 <= i < count && p == base + i * 0x1000;
      assert KindAt(st.secs, p) == Some(Free);
    }
  }

  /** Every operation keeps the list well formed, hands out only pages that were FREE and that nobody
      holds, and leaves every held page USED. */
  lemma StepKeeps(st: State, call: Call)
    requires Consistent(st) && Allowed(st, call)
    ensures Consistent(Step(st, call)) && Given(st.secs, call) !! st.held
    ensures forall p :: p in Given(st.secs, call) ==> KindAt(st.secs, p) == Some(Free)
  {
    hide Consistent, KindAt;
    match call
    case Alloc =>
      AllocStep(st);
    case FreePage(page) =>
      FreeStep(st, page);
    case LockPage(page) =>
      LockStep(st, page);
    case Pool(count) =>
      PoolStep(st, count);
    case Recombine =>
      RecombineStep(st);
  }

  lemma LockedCovered(secs: seq<Sec>, secs': seq<Sec>, page: nat)
    requires Formed(secs) && Lockable(secs, page) && SetsPage(secs, secs', page, Used)
    ensures SameExtent(secs, secs')
  {
    hide KindAt, SameExtent;
    AlignedLast(secs, page);
    PageCovered(secs, secs', page, Used);
  }

  lemma FreedCovered(secs: seq<Sec>, secs': seq<Sec>, page: nat)
    requires Formed(secs) && Page(page) && !FreeReadsNull(secs, page) && Freeable(secs, page)
    requires SetsPage(secs, secs', page, Free)
    ensures SameExtent(secs, secs')
  {
    hide KindAt, SameExtent, FreeReadsNull, SetsPage, Chain;
    FindFreeable(secs, page);
    ChainOf(secs);
    var k := Find(secs, 0, page);
    Around(secs, k);
    if k < |secs| - 1 {
      StartsBefore(secs, k, |secs| - 1);
      StartsBefore(secs, k + 1, |secs| - 1);
    }
    PageCovered(secs, secs', page, Free);
  }

  lemma PageCovered(secs: seq<Sec>, secs': seq<Sec>, page: nat, kind: Kind)
    requires Formed(secs) && page + 0x1000 <= End(secs[|secs| - 1]) && SetsPage(secs, secs', page, kind)
    ensures SameExtent(secs, secs')
  {
    ChainOf(secs);
    ChainTouches(secs);
    hide KindAt, Chain, Touching;
    forall a: nat | page <= a < page + 0x1000 ensures KindAt(secs, a).Some? {
      Covered(secs, a);
    }
  }

  lemma FreePageCovered(secs: seq<Sec>, secs': seq<Sec>, page: nat)
    requires Formed(secs) && page % 0x1000 == 0 && KindAt(secs, page) == Some(Free) && SetsPage(secs, secs', page, Used)
    ensures SameExtent(secs, secs')
  {
    ChainOf(secs);
    ChainTouches(secs);
    Covered(secs, page);
    hide KindAt, Touching;
    PageCovered(secs, secs', page, Used);
  }

  /** No operation adds memory or loses any. */
  lemma StepCovers(st: State, call: Call)
    requires Consistent(st) && Allowed(st, call)
    ensures SameExtent(st.secs, After(st.secs, call))
  {
    hide KindAt, Chain, AllocSecs, FreeSecs, LockSecs, PoolSecs, Merged, Freeable, ScanReadsNull,
      PoolReadsNull, FreeReadsNull, Lockable;
    match call
    case Alloc =>
      AllocRefines(st.secs);
      if AllocSecs(st.secs).1 != 0 {
        FreePageCovered(st.secs, AllocSecs(st.secs).0, AllocSecs(st.secs).1);
      }
    case FreePage(page) =>
      FreeSets(st.secs, page);
      if Freeable(st.secs, page) {
        FreedCovered(st.secs, FreeSecs(st.secs, page), page);
      }
    case LockPage(page) =>
      LockSets(st.secs, page);
      LockedCovered(st.secs, LockSecs(st.secs, page), page);
    case Pool(count) =>
      PoolRefines(st.secs, count);
    case Recombine =>
      RecombineStep(st);
  }

  /** A run that keeps to what the manager relies on. */
  ghost predicate Lawful(st: State, calls: seq<Call>)
    decreases |calls|
  {
    calls == [] || (Allowed(st, calls[0]) && Lawful(Step(st, calls[0]), calls[1..]))
  }

  function Run(st: State, calls: seq<Call>): State
    decreases |calls|
  {
    if calls == [] then st else Run(Step(st, calls[0]), calls[1..])
  }

  /** After every such run the list is well formed, covers the memory it covered before, and every page
      that was handed out and not given back is USED; so no page is handed out a second time while it
      is held. */
  lemma {:induction false} RunKeeps(st: State, calls: seq<Call>)
    requires Consistent(st) && Lawful(st, calls)
    ensures Consistent(Run(st, calls)) && SameExtent(st.secs, Run(st, calls).secs)
    ensures forall more :: Allowed(Run(st, calls), more) ==>
              Given(Run(st, calls).secs, more) !! Run(st, calls).held
    decreases |calls|
  {
    hide Consistent, Allowed, Given, Step, SameExtent;
    if calls == [] {
      CoversItself(st.secs);
      forall more | Allowed(st, more) ensures Given(st.secs, more) !! st.held {
        StepKeeps(st, more);
      }
    } else {
      var next := Step(st, calls[0]);
      StepKeeps(st, calls[0]);
      RunKeeps(next, calls[1..]);
      StepCovers(st, calls[0]);
      StepIs(st, calls[0]);
      CoversOn(st.secs, next.secs, Run(st, calls).secs);
    }
  }

  lemma StepIs(st: State, call: Call)
    ensures Step(st, call).secs == After(st.secs, call)
  {
  }

  lemma CoversItself(secs: seq<Sec>)
    ensures SameExtent(secs, secs)
  {
  }

  lemma CoversOn(a: seq<Sec>, b: seq<Sec>, c: seq<Sec>)
    requires SameExtent(a, b) && SameExtent(b, c)
    ensures SameExtent(a, c)
  {
    hide KindAt;
  }

  /** The pages that successive `pmm_alloc_page` calls return. */
  function Handouts(secs: seq<Sec>, n: nat): seq<nat>
    decreases n
  {
    if n == 0 || AllocSecs(secs).1 == 0 then []
    else [AllocSecs(secs).1] + Handouts(AllocSecs(secs).0, n - 1)
  }

  ghost predicate RisingFree(secs: seq<Sec>, pages: seq<nat>) {
    && (forall i :: 0 <= i < |pages| ==>
          pages[i] != 0 && pages[i] % 0x1000 == 0 && KindAt(secs, pages[i]) == Some(Free))
    && (forall i, j :: 0 <= i < j < |pages| ==> pages[i] < pages[j])
  }

  /** They are all different, rising, page-aligned and were FREE: the frames page tables are made of. */
  lemma {:induction false} HandoutsRise(secs: seq<Sec>, n: nat)
    requires Formed(secs)
    ensures RisingFree(secs, Handouts(secs, n))
    decreases n
  {
    hide Formed, KindAt, AllocSecs, RisingFree;
    NoneRising(secs);
    var (secs', first) := AllocSecs(secs);
    if n > 0 && first != 0 {
      ScanFinds(secs);
      AllocRefines(secs);
      HandoutsRise(secs', n - 1);
      OneMoreRising(secs, secs', first, Handouts(secs', n - 1));
    }
  }

  lemma ScanFinds(secs: seq<Sec>)
    requires AllocSecs(secs).1 != 0
    ensures !ScanReadsNull(secs)
  {
  }

  lemma NoneRising(secs: seq<Sec>)
    ensures RisingFree(secs, [])
  {
  }

  lemma OneMoreRising(secs: seq<Sec>, secs': seq<Sec>, first: nat, rest: seq<nat>)
    requires RisingFree(secs', rest) && SetsPage(secs, secs', first, Used)
    requires KindAt(secs, first) == Some(Free) && first != 0 && first % 0x1000 == 0
    requires forall a: nat :: KindAt(secs, a) == Some(Free) ==> first <= a
    ensures RisingFree(secs, [first] + rest)
  {
    hide KindAt;
    forall i | 0 <= i < |rest| ensures KindAt(secs, rest[i]) == Some(Free) && first < rest[i] {
      assert KindAt(secs', rest[i]) == Some(Free);
      assert KindAt(secs', first) == Some(Used);
    }
  }
}

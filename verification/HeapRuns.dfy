/** Runs of `malloc` and `free` that free only what is held. */
module HeapRuns {
  import opened Segments

  datatype Call = Malloc(size: nat) | Free(address: nat)

  /** The heap, and the addresses a client was given and has not freed, with the sizes it asked for. */
  datatype State = State(segs: seq<Seg>, held: map<nat, nat>)

  /** The addresses of the blocks in use. */
  ghost function Blocks(segs: seq<Seg>): set<nat> {
    set s | s in Live(segs) :: s.at + 32
  }

  /** Every block in use has at least the bytes that were asked for. */
  ghost predicate Enough(segs: seq<Seg>, held: map<nat, nat>) {
    forall s :: s in Live(segs) && s.at + 32 in held ==> held[s.at + 32] <= s.length
  }

  /** The client holds exactly the blocks in use, each long enough, and the heap is sound. */
  ghost predicate Consistent(st: State) {
    HeapOk(st.segs) && Blocks(st.segs) == st.held.Keys && Enough(st.segs, st.held)
  }

  ghost predicate Allowed(st: State, call: Call) {
    call.Free? ==> call.address in st.held
  }

  ghost predicate IsBlock(segs: seq<Seg>, k: nat, address: nat) {
    k < |segs| && !segs[k].free && segs[k].at + 32 == address
  }

  ghost function Step(st: State, call: Call): State
    requires Consistent(st) && Allowed(st, call)
  {
    match call
    case Malloc(size) =>
      var (segs, address) := Mallocs(st.segs, size);
      State(segs, if size == 0 then st.held else st.held[address := size])
    case Free(address) =>
      BlockExists(st.segs, address);
      var k: nat :| IsBlock(st.segs, k, address);
      State(Release(st.segs, k), st.held - {address})
  }

  lemma BlockExists(segs: seq<Seg>, address: nat)
    requires address in Blocks(segs)
    ensures exists k: nat :: IsBlock(segs, k, address)
  {
    var s :| s in Live(segs) && s.at + 32 == address;
    var k :| 0 <= k < |segs| && segs[k] == s;
    assert IsBlock(segs, k, address);
  }

  /** The addresses of live blocks tell them apart. */
  lemma BlocksDistinct(segs: seq<Seg>, s: Seg, t: Seg)
    requires Tiled(segs) && s in segs && t in segs && s.at == t.at
    ensures s == t
  {
    if s != t {
      Disjoint(segs, s, t);
      assert false;
    }
  }

  /** An address handed out is not one that is held, and its block has at least the bytes asked for. */
  lemma MallocStep(st: State, size: nat)
    requires Consistent(st) && size > 0
    ensures var (segs, address) := Mallocs(st.segs, size);
            && HeapOk(segs) && address !in st.held && Blocks(segs) == st.held.Keys + {address}
            && Enough(segs, st.held[address := size])
  {
    hide Mallocs, Tiled, Aligned, Coalesced, GrowsFor, Holds, HeapEnd, Live;
    MallocServes(st.segs, size);
    var (segs, address) := Mallocs(st.segs, size);
    var block: Seg :| block !in Live(st.segs) && Live(segs) == Live(st.segs) + {block} && block.at + 32 == address
                      && size <= block.length <= size + 47;
    NewBlock(segs, st.segs, block);
    NewEnough(segs, st.segs, block, st.held, size);
  }

  lemma NewBlock(segs': seq<Seg>, segs: seq<Seg>, block: Seg)
    requires HeapOk(segs') && block !in Live(segs) && Live(segs') == Live(segs) + {block}
    ensures block.at + 32 !in Blocks(segs) && Blocks(segs') == Blocks(segs) + {block.at + 32}
  {
    assert block in Live(segs');
    if block.at + 32 in Blocks(segs) {
      var s :| s in Live(segs) && s.at + 32 == block.at + 32;
      assert s in Live(segs');
      BlocksDistinct(segs', s, block);
    }
  }

  lemma NewEnough(segs': seq<Seg>, segs: seq<Seg>, block: Seg, held: map<nat, nat>, size: nat)
    requires Live(segs') == Live(segs) + {block} && Enough(segs, held) && size <= block.length
    requires block.at + 32 !in Blocks(segs)
    ensures Enough(segs', held[block.at + 32 := size])
  {
    hide Live;
    forall s | s in Live(segs) ensures s.at + 32 != block.at + 32 {
      assert s.at + 32 in Blocks(segs);
    }
  }

  lemma FreeStep(st: State, address: nat, k: nat)
    requires Consistent(st) && IsBlock(st.segs, k, address)
    ensures HeapOk(Release(st.segs, k)) && Blocks(Release(st.segs, k)) == st.held.Keys - {address}
    ensures Enough(Release(st.segs, k), st.held - {address})
  {
    hide Release;
    ReleaseOk(st.segs, k);
    var gone, segs := st.segs[k], Release(st.segs, k);
    assert gone in Live(st.segs);
    forall a ensures a in Blocks(segs) <==> a in st.held && a != address {
      if a in st.held && a != address {
        var s :| s in Live(st.segs) && s.at + 32 == a;
        assert s in Live(segs);
      }
      if a in Blocks(segs) {
        var s :| s in Live(segs) && s.at + 32 == a;
        if a == address {
          BlocksDistinct(st.segs, s, gone);
        }
      }
    }
  }

  /** A heap of 256 pages, all of it free, with nothing handed out: where every run starts. */
  lemma FirstIsConsistent()
    ensures Consistent(State(FirstHeap(), map[]))
  {
    assert Live(FirstHeap()) == {};
  }

  lemma MallocOfNothing(segs: seq<Seg>)
    requires HeapOk(segs)
    ensures segs != [] && Mallocs(segs, 0) == (segs, 0)
  {
  }

  lemma StepKeeps(st: State, call: Call)
    requires Consistent(st) && Allowed(st, call)
    ensures Consistent(Step(st, call))
  {
    hide HeapOk, Blocks, Mallocs, Release, Enough;
    match call
    case Malloc(size) =>
      if size > 0 {
        MallocStep(st, size);
      } else {
        MallocOfNothing(st.segs);
      }
    case Free(address) =>
      BlockExists(st.segs, address);
      forall k: nat | IsBlock(st.segs, k, address)
        ensures Consistent(State(Release(st.segs, k), st.held - {address}))
      {
        FreeStep(st, address, k);
      }
  }

  /** A run in which only held blocks are freed. */
  ghost predicate Lawful(st: State, calls: seq<Call>)
    requires Consistent(st)
    decreases |calls|
  {
    calls == [] ||
    (Allowed(st, calls[0]) &&
      var next := Step(st, calls[0]);
      StepKeeps(st, calls[0]);
      Lawful(next, calls[1..]))
  }

  ghost function Run(st: State, calls: seq<Call>): State
    requires Consistent(st) && Lawful(st, calls)
    decreases |calls|
  {
    if calls == [] then st
    else
      StepKeeps(st, calls[0]);
      Run(Step(st, calls[0]), calls[1..])
  }

  /** After every such run the blocks in use are those handed out and not freed, each with at least the
      bytes asked for, no two of them share a byte, the segments tile the heap, nothing is lost, and no two
      free neighbours are left. */
  lemma {:induction false} RunKeeps(st: State, calls: seq<Call>)
    requires Consistent(st) && Lawful(st, calls)
    ensures var end := Run(st, calls);
            && Consistent(end)
            && (forall a :: a in end.held ==>
                  exists s :: s in Live(end.segs) && s.at + 32 == a && end.held[a] <= s.length)
            && end.segs[0].at + Sum(end.segs) + 32 * |end.segs| == HeapEnd(end.segs)
            && forall s, t :: s in Live(end.segs) && t in Live(end.segs) && s != t ==> End(s) <= t.at || End(t) <= s.at
    decreases |calls|
  {
    if calls == [] {
      NothingLost(st.segs);
      forall s, t | s in Live(st.segs) && t in Live(st.segs) && s != t ensures End(s) <= t.at || End(t) <= s.at {
        Disjoint(st.segs, s, t);
      }
    } else {
      StepKeeps(st, calls[0]);
      hide Step, Consistent, Sum, HeapEnd, Live, Allowed;
      RunKeeps(Step(st, calls[0]), calls[1..]);
    }
  }
}

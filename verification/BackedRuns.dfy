/** Runs of `malloc` and `free` on the heap with the pages it lies on. */
module BackedRuns {
  import opened Descriptors
  import opened PageTree
  import opened PageSteps
  import opened PageTheorems
  import opened Paging
  import opened Segments
  import opened Heap
  import opened HeapRuns
  import opened BackedHeap

  /** What a call returns. */
  ghost function Answer(st: State, call: Call): nat
    requires Consistent(st)
  {
    match call
    case Malloc(size) => Mallocs(st.segs, size).1
    case Free(_) => 0
  }

  ghost function Answers(st: State, calls: seq<Call>): seq<nat>
    requires Consistent(st) && Lawful(st, calls)
    decreases |calls|
  {
    if calls == [] then []
    else
      StepKeeps(st, calls[0]);
      [Answer(st, calls[0])] + Answers(Step(st, calls[0]), calls[1..])
  }

  /** A run only makes the heap longer. */
  lemma {:induction false} RunGrows(st: State, calls: seq<Call>)
    requires Consistent(st) && Lawful(st, calls)
    ensures st.segs != [] && Run(st, calls).segs != [] && HeapEnd(st.segs) <= HeapEnd(Run(st, calls).segs)
    decreases |calls|
  {
    hide Step, Consistent, HeapEnd, Allowed;
    SegsThere(st);
    if calls != [] {
      StepKeeps(st, calls[0]);
      StepGrows(st, calls[0]);
      RunGrows(Step(st, calls[0]), calls[1..]);
    }
  }

  lemma SegsThere(st: State)
    requires Consistent(st)
    ensures st.segs != [] && HeapOk(st.segs)
  {
  }

  lemma StepGrows(st: State, call: Call)
    requires Consistent(st) && Allowed(st, call)
    ensures Step(st, call).segs != [] && HeapEnd(st.segs) <= HeapEnd(Step(st, call).segs)
  {
    hide HeapOk, HeapEnd, Release, Allocate, Blocks;
    SegsThere(st);
    match call
    case Malloc(size) =>
      MallocGrows(st.segs, size);
    case Free(address) =>
      BlockExists(st.segs, address);
      forall k: nat | IsBlock(st.segs, k, address)
        ensures Release(st.segs, k) != [] && HeapEnd(Release(st.segs, k)) == HeapEnd(st.segs)
      {
        ReleaseOk(st.segs, k);
        NotEmptyRow(Release(st.segs, k));
      }
  }

  lemma MallocIsStep(st: State, size: nat)
    requires Consistent(st)
    ensures st.segs != [] && Mallocs(st.segs, size) == (Step(st, Malloc(size)).segs, Answer(st, Malloc(size)))
  {
  }

  /** There is one block at an address. */
  lemma OneBlock(segs: seq<Seg>, j: nat, k: nat, address: nat)
    requires Tiled(segs) && IsBlock(segs, j, address) && IsBlock(segs, k, address)
    ensures j == k
  {
    if j < k {
      InAddressOrder(segs, j, k);
    } else if k < j {
      InAddressOrder(segs, k, j);
    }
  }

  lemma NothingHeld()
    ensures Blocks(FirstHeap()) == {}
  {
    assert Live(FirstHeap()) == {};
  }

  /** A block that is held is a segment in use, and `free` of it is the step of the run. */
  lemma HeldBlock(heap: KernelHeap, st: State, a: nat)
    requires heap.initialized ==> heap.Valid()
    requires Row(heap) == st.segs && Consistent(st) && Allowed(st, Free(a))
    ensures heap.initialized && a >= 32 && a - 32 in heap.order && a - 32 in heap.headers && !heap.headers[a - 32].free
    ensures var k := IndexOf(heap.order, a - 32);
            k < |st.segs| && Release(st.segs, k) == Step(st, Free(a)).segs
  {
    NothingHeld();
    assert heap.initialized;
    FreeIsStep(heap.headers, heap.order, st, a);
  }

  lemma FreeIsStep(h: map<nat, Header>, order: seq<nat>, st: State, a: nat)
    requires Linked(h, order) && View(h, order) == st.segs && Consistent(st) && a in st.held
    ensures a >= 32 && a - 32 in order && a - 32 in h && !h[a - 32].free
    ensures var k := IndexOf(order, a - 32);
            k < |st.segs| && Release(st.segs, k) == Step(st, Free(a)).segs
  {
    hide Release, Linked, View, Blocks;
    BlockExists(st.segs, a);
    var k: nat :| IsBlock(st.segs, k, a);
    NodeFacts(h, order, k);
    assert order[k] in order;
    var j := IndexOf(order, a - 32);
    NodeFacts(h, order, j);
    forall i: nat | IsBlock(st.segs, i, a) ensures i == j {
      OneBlock(st.segs, i, j, a);
    }
  }

  /** The calls that are left lead from the present state to the end of the run. */
  ghost predicate Serving(st: State, rest: seq<Call>, end: State, handed: seq<nat>, all: seq<nat>) {
    && Consistent(st) && Lawful(st, rest) && Run(st, rest) == end && handed + Answers(st, rest) == all
  }

  lemma ServingOn(st: State, calls: seq<Call>, i: nat, end: State, handed: seq<nat>, all: seq<nat>)
    requires i < |calls| && Serving(st, calls[i..], end, handed, all)
    ensures Consistent(st) && Allowed(st, calls[i])
    ensures Serving(Step(st, calls[i]), calls[i + 1..], end, handed + [Answer(st, calls[i])], all)
    ensures Step(st, calls[i]).segs != [] && end.segs != [] && HeapEnd(Step(st, calls[i]).segs) <= HeapEnd(end.segs)
  {
    hide Step, Consistent, HeapEnd, Allowed, Answer;
    assert calls[i..][0] == calls[i] && calls[i..][1..] == calls[i + 1..];
    StepKeeps(st, calls[i]);
    RunGrows(Step(st, calls[i]), calls[i + 1..]);
  }

  /** Over every lawful run the heap is what the run makes of it, the addresses handed out are the run's,
      and every page of the heap walks to a frame of its own; a page keeps its frame for good. It is not
      `ok` only when the page-frame manager runs out of pages. */
  method Serve(heap: KernelHeap, space: AddressSpace, calls: seq<Call>, ghost held: map<nat, nat>, ghost was: seq<Word>,
               ghost limit: nat, ghost places: set<Place>)
    returns (ok: bool, handed: seq<nat>, ghost given: seq<Word>)
    requires Kept(heap, space, was, limit, places)
    requires var st := State(Row(heap), held);
             Consistent(st) && Lawful(st, calls) && EndsBelow(Run(st, calls).segs, limit)
    modifies heap, space
    ensures space.pml4 == old(space.pml4)
    ensures !ok ==> |old(space.frames)| < PagesLeft(old(Start(heap)), limit, was)
                                          + |Absent(old(space.mem), space.pml4, places)|
    ensures ok ==> Kept(heap, space, given, limit, places) && was <= given
    ensures var st := State(old(Row(heap)), held);
            ok ==> Row(heap) == Run(st, calls).segs && handed == Answers(st, calls)
  {
    hide Sound, Absent, OwnFrames, Room, Linked, View, Mallocs, HeapOk, HeapEnd, Step, Answer, Answers, Run, Lawful,
      Consistent, Release, Allowed, Serving;
    ok, handed, given := true, [], was;
    ghost var st := State(Row(heap), held);
    ghost var end, all, start := Run(st, calls), Answers(st, calls), Start(heap);
    ServingStarts(st, calls);
    for i := 0 to |calls|
      invariant space.pml4 == old(space.pml4) && Start(heap) == start && was <= given
      invariant Kept(heap, space, given, limit, places) && Row(heap) == st.segs
      invariant Serving(st, calls[i..], end, handed, all)
      invariant Spends(old(space.mem), old(space.frames), space.mem, space.frames, space.pml4, |given| - |was|, places)
    {
      ServingOn(st, calls, i, end, handed, all);
      var address := 0;
      match calls[i] {
        case Malloc(size) =>
          MallocIsStep(st, size);
          ok, address, given := BackedHeap.Malloc(heap, space, size, given, limit, places);
          if !ok {
            return;
          }
        case Free(a) =>
          HeldBlock(heap, st, a);
          heap.Free(a);
          AnswerOfFree(st, a);
      }
      st := Step(st, calls[i]);
      handed := handed + [address];
    }
    ServingEnds(st, calls, end, handed, all);
  }

  lemma ServingStarts(st: State, calls: seq<Call>)
    requires Consistent(st) && Lawful(st, calls)
    ensures Serving(st, calls[0..], Run(st, calls), [], Answers(st, calls))
  {
    assert calls[0..] == calls && [] + Answers(st, calls) == Answers(st, calls);
  }

  lemma ServingEnds(st: State, calls: seq<Call>, end: State, handed: seq<nat>, all: seq<nat>)
    requires Serving(st, calls[|calls|..], end, handed, all)
    ensures st == end && handed == all
  {
  }

  lemma AnswerOfFree(st: State, a: nat)
    requires Consistent(st)
    ensures Answer(st, Free(a)) == 0
  {
  }
}

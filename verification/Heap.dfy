/** The kernel heap: headers in memory, linked both ways, changed in place by `malloc` and `free`. */
module Heap {
  import opened Sequences
  import opened Orders
  import opened Segments

  datatype Link = Null | At(address: nat)

  datatype Header = Header(length: nat, next: Link, last: Link, free: bool)

  ghost function LastIn(order: seq<nat>, k: nat): Link
    requires k < |order|
  {
    if k == 0 then Null else At(order[k - 1])
  }

  ghost function NextIn(order: seq<nat>, k: nat): Link
    requires k < |order|
  {
    if k + 1 == |order| then Null else At(order[k + 1])
  }

  ghost predicate Node(h: map<nat, Header>, order: seq<nat>, k: nat) {
    && k < |order| && order[k] in h
    && h[order[k]].last == LastIn(order, k) && h[order[k]].next == NextIn(order, k)
  }

  ghost predicate Placed(h: map<nat, Header>, order: seq<nat>) {
    forall k :: 0 <= k < |order| ==> order[k] in h
  }

  /** The headers at the addresses of `order` point at each other both ways. */
  ghost predicate Linked(h: map<nat, Header>, order: seq<nat>) {
    && order != [] && Placed(h, order)
    && (forall j, k :: 0 <= j < k < |order| ==> order[j] != order[k])
    && (forall k :: 0 <= k < |order| ==> Node(h, order, k))
  }

  function SegOf(h: map<nat, Header>, at: nat): Seg
    requires at in h
  {
    Seg(at, h[at].length, h[at].free)
  }

  ghost function View(h: map<nat, Header>, order: seq<nat>): (segs: seq<Seg>)
    requires Placed(h, order)
    ensures |segs| == |order| && forall k :: 0 <= k < |order| ==> segs[k] == SegOf(h, order[k])
  {
    seq(|order|, k requires 0 <= k < |order| => SegOf(h, order[k]))
  }

  ghost predicate LinksKept(h: map<nat, Header>, h': map<nat, Header>, at: nat) {
    at in h && at in h' && h'[at].next == h[at].next && h'[at].last == h[at].last
  }

  /** `h'` is `h` with a header at `n` linked in behind node `k`. */
  ghost predicate Links(h: map<nat, Header>, h': map<nat, Header>, order: seq<nat>, k: nat, n: nat) {
    && Linked(h, order) && k < |order| && n !in order && n in h' && order[k] in h'
    && h'[n].last == At(order[k]) && h'[n].next == NextIn(order, k)
    && h'[order[k]].next == At(n) && h'[order[k]].last == h[order[k]].last
    && (k + 1 < |order| ==>
          order[k + 1] in h' && h'[order[k + 1]].last == At(n) && h'[order[k + 1]].next == h[order[k + 1]].next)
    && forall at :: at in order && at != order[k] && (k + 1 < |order| ==> at != order[k + 1]) ==> LinksKept(h, h', at)
  }

  lemma AllPlaced(h: map<nat, Header>, order: seq<nat>)
    requires forall k :: 0 <= k < |order| ==> Node(h, order, k)
    ensures Placed(h, order)
  {
    forall k | 0 <= k < |order| ensures order[k] in h {
      assert Node(h, order, k);
    }
  }

  lemma PutIn(h: map<nat, Header>, h': map<nat, Header>, order: seq<nat>, k: nat, n: nat)
    requires Links(h, h', order, k, n)
    ensures Linked(h', Inserted(order, k, n))
  {
    var o := Inserted(order, k, n);
    OrderWith(order, k, n);
    InsertedGrows(order, k, n);
    forall j | 0 <= j < |o| ensures Node(h', o, j) {
      PutInNode(h, h', order, k, n, o, j);
    }
    AllPlaced(h', o);
  }

  lemma PutInNode(h: map<nat, Header>, h': map<nat, Header>, order: seq<nat>, k: nat, n: nat, o: seq<nat>, j: nat)
    requires Links(h, h', order, k, n) && j < |o| && Lengthened(order, k, n, o)
    ensures Node(h', o, j)
  {
    if j == k + 1 {
      assert o[k] == order[k] && (k + 2 < |o| ==> o[k + 2] == order[k + 1]);
    } else {
      var p := if j <= k then j else j - 1;
      assert Node(h, order, p);
      assert order[p] in order && o[j] == order[p];
      assert j > 0 ==> o[j - 1] == if j == k + 2 then n else order[p - 1];
      assert j + 1 < |o| ==> o[j + 1] == if j == k then n else order[p + 1];
      if p != k && p != k + 1 {
        assert order[p] != order[k] && (k + 1 < |order| ==> order[p] != order[k + 1]);
        assert LinksKept(h, h', order[p]);
      }
    }
  }

  /** `h'` is `h` with the node behind node `k` unlinked. */
  ghost predicate Unlinks(h: map<nat, Header>, h': map<nat, Header>, order: seq<nat>, k: nat) {
    && Linked(h, order) && k + 1 < |order| && order[k] in h'
    && h'[order[k]].next == NextIn(order, k + 1) && h'[order[k]].last == h[order[k]].last
    && (k + 2 < |order| ==>
          order[k + 2] in h' && h'[order[k + 2]].last == At(order[k]) && h'[order[k + 2]].next == h[order[k + 2]].next)
    && forall at :: at in order && at != order[k] && at != order[k + 1] && (k + 2 < |order| ==> at != order[k + 2]) ==>
         LinksKept(h, h', at)
  }

  lemma TakenOut(h: map<nat, Header>, h': map<nat, Header>, order: seq<nat>, k: nat)
    requires Unlinks(h, h', order, k)
    ensures Linked(h', Removed(order, k + 1))
  {
    var o := Removed(order, k + 1);
    OrderWithout(order, k + 1);
    RemovedShrinks(order, k);
    forall j | 0 <= j < |o| ensures Node(h', o, j) {
      TakenOutNode(h, h', order, k, o, j);
    }
    AllPlaced(h', o);
  }

  lemma TakenOutNode(h: map<nat, Header>, h': map<nat, Header>, order: seq<nat>, k: nat, o: seq<nat>, j: nat)
    requires Unlinks(h, h', order, k) && j < |o| && Shortened(order, k, o)
    ensures Node(h', o, j)
  {
    var p := if j < k + 1 then j else j + 1;
    assert Node(h, order, p);
    assert order[p] in order;
    assert o[j] == order[p] && order[p] != order[k + 1];
    assert j > 0 ==> o[j - 1] == if j == k + 1 then order[k] else order[p - 1];
    assert j + 1 < |o| ==> o[j + 1] == if j == k then order[k + 2] else order[p + 1];
    if p != k && p != k + 2 {
      assert order[p] != order[k] && (k + 2 < |order| ==> order[p] != order[k + 2]);
      assert LinksKept(h, h', order[p]);
    }
  }

  ghost predicate DataKept(h: map<nat, Header>, h': map<nat, Header>, at: nat) {
    at in h && at in h' && SegOf(h', at) == SegOf(h, at)
  }

  lemma ViewPutIn(h: map<nat, Header>, h': map<nat, Header>, order: seq<nat>, k: nat, n: nat)
    requires Links(h, h', order, k, n)
    requires forall at :: at in order && at != order[k] ==> DataKept(h, h', at)
    ensures Linked(h', Inserted(order, k, n))
    ensures View(h', Inserted(order, k, n)) == Replace(View(h, order), k, k + 1, [SegOf(h', order[k]), SegOf(h', n)])
  {
    PutIn(h, h', order, k, n);
    OrderWith(order, k, n);
    var o := Inserted(order, k, n);
    var r := Replace(View(h, order), k, k + 1, [SegOf(h', order[k]), SegOf(h', n)]);
    forall j | 0 <= j < |o| ensures View(h', o)[j] == r[j] {
      if j != k && j != k + 1 {
        var p := if j < k then j else j - 1;
        assert o[j] == order[p] && order[p] in order && order[p] != order[k];
        assert DataKept(h, h', order[p]);
      }
    }
  }

  lemma ViewTakenOut(h: map<nat, Header>, h': map<nat, Header>, order: seq<nat>, k: nat)
    requires Unlinks(h, h', order, k)
    requires forall at :: at in order && at != order[k] ==> DataKept(h, h', at)
    ensures Linked(h', Removed(order, k + 1))
    ensures View(h', Removed(order, k + 1)) == Replace(View(h, order), k, k + 2, [SegOf(h', order[k])])
  {
    TakenOut(h, h', order, k);
    OrderWithout(order, k + 1);
    var o := Removed(order, k + 1);
    var r := Replace(View(h, order), k, k + 2, [SegOf(h', order[k])]);
    forall j | 0 <= j < |o| ensures View(h', o)[j] == r[j] {
      if j != k {
        var p := if j < k then j else j + 1;
        assert o[j] == order[p] && order[p] in order && order[p] != order[k];
        assert DataKept(h, h', order[p]);
      }
    }
  }

  /** The data of one node changed, its links did not. */
  lemma ViewStored(h: map<nat, Header>, order: seq<nat>, k: nat, free: bool)
    requires Linked(h, order) && k < |order|
    ensures var h' := h[order[k] := h[order[k]].(free := free)];
            && Linked(h', order)
            && View(h', order) == View(h, order)[k := View(h, order)[k].(free := free)]
  {
    var h' := h[order[k] := h[order[k]].(free := free)];
    forall j | 0 <= j < |order| ensures Node(h', order, j) {
      assert Node(h, order, j);
    }
  }

  /** A node, its neighbours and its data. */
  lemma NodeFacts(h: map<nat, Header>, order: seq<nat>, k: nat)
    requires Linked(h, order) && k < |order|
    ensures order[k] in h && View(h, order)[k] == SegOf(h, order[k])
    ensures h[order[k]].last == LastIn(order, k) && h[order[k]].next == NextIn(order, k)
    ensures k > 0 ==> order[k - 1] in h && View(h, order)[k - 1] == SegOf(h, order[k - 1])
    ensures k + 1 < |order| ==>
              && order[k + 1] in h && order[k + 1] != order[k] && View(h, order)[k + 1] == SegOf(h, order[k + 1])
              && h[order[k + 1]].last == At(order[k]) && h[order[k + 1]].next == NextIn(order, k + 1)
    ensures k + 2 < |order| ==> order[k + 2] in h && order[k + 2] != order[k] && order[k + 2] != order[k + 1]
    ensures order[k] == order[|order| - 1] <==> k + 1 == |order|
    ensures k + 1 < |order| ==> (order[k + 1] == order[|order| - 1] <==> k + 2 == |order|)
  {
    assert Node(h, order, k) && (k + 1 < |order| ==> Node(h, order, k + 1));
  }

  // ---------------------------------------------------------------- the two changes of the list

  lemma WholeReplaced(segs: seq<Seg>, k: nat)
    requires k < |segs|
    ensures Replace(segs, k, k + 1, [segs[k]]) == segs
  {
  }

  /** No header stands inside a segment. */
  lemma NewAddress(h: map<nat, Header>, order: seq<nat>, k: nat, n: nat)
    requires Linked(h, order) && Tiled(View(h, order)) && k < |order|
    requires order[k] < n < End(View(h, order)[k])
    ensures n !in order
  {
    if n in order {
      var j :| 0 <= j < |order| && order[j] == n;
      InAddressOrder(View(h, order), if j < k then j else k, if j < k then k else j);
      assert false;
    }
  }

  /** A header written at `n` and linked in behind node `k`, of which only `length` bytes are left. */
  ghost function WithNew(h: map<nat, Header>, order: seq<nat>, k: nat, n: nat, length: nat, rest: nat): map<nat, Header>
    requires Linked(h, order) && k < |order|
  {
    var s := order[k];
    var moved := if k + 1 < |order| then h[order[k + 1] := h[order[k + 1]].(last := At(n))] else h;
    moved[n := Header(rest, h[s].next, At(s), h[s].free)][s := h[s].(next := At(n), length := length)]
  }

  lemma SplitDone(h: map<nat, Header>, h': map<nat, Header>, order: seq<nat>, k: nat, n: nat, length: nat, rest: nat)
    requires Linked(h, order) && k < |order| && n !in order && h' == WithNew(h, order, k, n, length, rest)
    ensures var o := Inserted(order, k, n); var s := View(h, order)[k];
            && Linked(h', o) && |o| == |order| + 1 && o[k] == order[k] && o[0] == order[0]
            && o[|order|] == (if k + 1 == |order| then n else order[|order| - 1])
            && View(h', o) == Replace(View(h, order), k, k + 1, [s.(length := length), Seg(n, rest, s.free)])
  {
    hide Linked, View, Replace, Node, Links, DataKept, WithNew;
    NewLinks(h, h', order, k, n, length, rest);
    InsertedGrows(order, k, n);
    ViewPutIn(h, h', order, k, n);
  }

  lemma NewLinks(h: map<nat, Header>, h': map<nat, Header>, order: seq<nat>, k: nat, n: nat, length: nat, rest: nat)
    requires Linked(h, order) && k < |order| && n !in order && h' == WithNew(h, order, k, n, length, rest)
    ensures Links(h, h', order, k, n) && forall at :: at in order && at != order[k] ==> DataKept(h, h', at)
    ensures var s := View(h, order)[k];
            SegOf(h', order[k]) == s.(length := length) && SegOf(h', n) == Seg(n, rest, s.free)
  {
    hide Linked, View, Node;
    NodeFacts(h, order, k);
    assert order[k] in order;
    forall at | at in order && at != order[k]
      ensures DataKept(h, h', at) && (k + 1 < |order| ==> at == order[k + 1] || LinksKept(h, h', at))
      ensures k + 1 == |order| ==> LinksKept(h, h', at)
    {
      InPlace(h, order, at);
    }
  }

  lemma InPlace(h: map<nat, Header>, order: seq<nat>, at: nat)
    requires Linked(h, order) && at in order
    ensures at in h
  {
  }

  /** Node `k` grown by what was behind it, and the header behind it unlinked. */
  ghost function WithoutNext(h: map<nat, Header>, order: seq<nat>, k: nat): map<nat, Header>
    requires Linked(h, order) && k + 1 < |order|
  {
    var s, t := order[k], order[k + 1];
    var moved := if k + 2 < |order| then h[order[k + 2] := h[order[k + 2]].(last := At(s))] else h;
    moved[s := h[s].(length := h[s].length + h[t].length + 32, next := h[t].next)]
  }

  lemma CombineDone(h: map<nat, Header>, h': map<nat, Header>, order: seq<nat>, k: nat)
    requires Linked(h, order) && k + 1 < |order| && h' == WithoutNext(h, order, k)
    ensures var o := Removed(order, k + 1); var segs := View(h, order);
            && Linked(h', o) && |o| == |order| - 1 && o[k] == order[k] && o[0] == order[0] && o[..k] == order[..k]
            && o[|o| - 1] == (if k + 2 == |order| then order[k] else order[|order| - 1])
            && View(h', o) == Replace(segs, k, k + 2, [Joined(segs[k], segs[k + 1])])
  {
    hide Linked, View, Replace, Node, Unlinks, DataKept, WithoutNext;
    LinksWithout(h, h', order, k);
    RemovedShrinks(order, k);
    ViewTakenOut(h, h', order, k);
  }

  lemma LinksWithout(h: map<nat, Header>, h': map<nat, Header>, order: seq<nat>, k: nat)
    requires Linked(h, order) && k + 1 < |order| && h' == WithoutNext(h, order, k)
    ensures Unlinks(h, h', order, k) && forall at :: at in order && at != order[k] ==> DataKept(h, h', at)
    ensures SegOf(h', order[k]) == Joined(View(h, order)[k], View(h, order)[k + 1])
  {
    hide Linked, View, Node;
    NodeFacts(h, order, k);
    assert order[k] in order;
    forall at | at in order && at != order[k]
      ensures DataKept(h, h', at) && (k + 2 < |order| ==> at == order[k + 2] || LinksKept(h, h', at))
      ensures k + 2 == |order| ==> LinksKept(h, h', at)
    {
      InPlace(h, order, at);
    }
  }

  /** A header written behind the last one. */
  lemma Appended(h: map<nat, Header>, h': map<nat, Header>, order: seq<nat>, n: nat, length: nat)
    requires Linked(h, order) && n !in order
    requires var last := order[|order| - 1];
             h' == h[n := Header(length, Null, At(last), true)][last := h[last].(next := At(n))]
    ensures Linked(h', order + [n]) && View(h', order + [n]) == View(h, order) + [Seg(n, length, true)]
  {
    var k := |order| - 1;
    NodeFacts(h, order, k);
    assert order[k] in order;
    assert Links(h, h', order, k, n);
    PutIn(h, h', order, k, n);
    assert Inserted(order, k, n) == order + [n];
  }

  /** No header stands at the end of the heap or beyond. */
  lemma EndIsNew(h: map<nat, Header>, order: seq<nat>)
    requires Linked(h, order) && Tiled(View(h, order))
    ensures HeapEnd(View(h, order)) !in order
  {
    var segs := View(h, order);
    forall j | 0 <= j < |order| ensures order[j] < HeapEnd(segs) {
      if j < |order| - 1 {
        InAddressOrder(segs, j, |order| - 1);
      }
    }
  }

  lemma TakeIs(segs: seq<Seg>, k: nat, size: nat)
    requires k < |segs|
    ensures var cut := Replace(segs, k, k + 1, Cut(segs[k], size));
            k < |cut| && cut[k := cut[k].(free := false)] == Take(segs, k, size)
  {
  }

  lemma NotEmpty(h: map<nat, Header>, order: seq<nat>)
    requires Linked(h, order)
    ensures order != []
  {
  }

  lemma TakesWhole(segs: seq<Seg>, k: nat, size: nat)
    requires k < |segs| && segs[k].length == size
    ensures Take(segs, k, size) == segs[k := segs[k].(free := false)]
  {
  }

  lemma MallocsNothing(segs: seq<Seg>, size: nat)
    requires segs != []
    ensures ToBlock(size) == 0 ==> Mallocs(segs, size) == (segs, 0)
  {
  }

  /** A fit found by the search is what `malloc` hands out. */
  lemma MallocsFound(segs: seq<Seg>, size: nat)
    requires segs != [] && ToBlock(size) > 0 && FirstFit(segs, 0, ToBlock(size)) < |segs|
    ensures var k := FirstFit(segs, 0, ToBlock(size));
            Mallocs(segs, size) == (Take(segs, k, ToBlock(size)), segs[k].at + 32)
  {
    hide Segments.Expand, Take, FirstFit, Expansions, ToBlock;
  }

  lemma FirstFitHere(segs: seq<Seg>, k: nat, wanted: nat)
    requires k < |segs| && Fits(segs[k], wanted)
    ensures FirstFit(segs, k, wanted) == k
  {
  }

  /** Without a fit the call starts over on a longer heap, and the search for one gets shorter. */
  lemma MallocsLater(segs: seq<Seg>, size: nat)
    requires segs != [] && ToBlock(size) > 0 && FirstFit(segs, 0, ToBlock(size)) == |segs|
    ensures var longer := Segments.Expand(segs, ToBlock(size));
            && longer != [] && Mallocs(segs, size) == Mallocs(longer, ToBlock(size))
            && Expansions(longer, ToBlock(size)) < Expansions(segs, ToBlock(size)) <= 2
  {
    ExpandHelps(segs, ToBlock(size));
    BlockOnce(size);
  }

  lemma SearchOn(segs: seq<Seg>, k: nat, size: nat)
    requires k < |segs| && !Fits(segs[k], size)
    ensures FirstFit(segs, k, size) == FirstFit(segs, k + 1, size)
    ensures k + 1 == |segs| ==> FirstFit(segs, k, size) == |segs|
  {
  }

  lemma ReleaseIsSteps(segs: seq<Seg>, k: nat)
    requires k < |segs|
    ensures var marked := segs[k := segs[k].(free := true)];
            |marked| == |segs| && k < |Forward(marked, k)| && Release(segs, k) == Backward(Forward(marked, k), k)
  {
  }

  /** Where the segment at an address is in the row. */
  ghost function IndexOf(order: seq<nat>, at: nat): (k: nat)
    requires at in order
    ensures k < |order| && order[k] == at
  {
    var k :| 0 <= k < |order| && order[k] == at;
    k
  }

  // ---------------------------------------------------------------- the heap

  class KernelHeap {
    var headers: map<nat, Header>
    var start: nat
    var end: nat
    var lastHeader: nat
    var initialized: bool
    ghost var order: seq<nat>

    ghost predicate Valid()
      reads this
    {
      && Linked(headers, order)
      && start == order[0] && lastHeader == order[|order| - 1]
    }

    ghost function Contents(): seq<Seg>
      requires Valid()
      reads this
    {
      View(headers, order)
    }

    /** The heap between two calls. */
    ghost predicate Ready()
      reads this
    {
      Valid() && HeapOk(Contents()) && end == HeapEnd(Contents())
    }

    constructor ()
      ensures !initialized
    {
      initialized := false;
    }

    /** `header_split`. */
    method Split(segment: nat, size: nat, ghost k: nat)
      requires Valid() && Tiled(Contents()) && k < |order| && order[k] == segment
      modifies this`headers, this`lastHeader, this`order
      ensures Valid() && k < |order| && order[k] == segment
      ensures Contents() == Replace(old(Contents()), k, k + 1, Cut(old(Contents())[k], size))
    {
      hide Linked, View, Replace, Links, Node, Tiled, Inserted;
      ghost var h := headers;
      NodeFacts(h, order, k);
      WholeReplaced(Contents(), k);
      if size < 0x10 {
        return;
      }
      var length := headers[segment].length - size - 32;
      if length < 0x10 {
        return;
      }
      var added := segment + size + 32;
      NewAddress(h, order, k, added);
      var next := headers[segment].next;
      if next != Null {
        headers := headers[next.address := headers[next.address].(last := At(added))];
      }
      headers := headers[added := Header(length, headers[segment].next, At(segment), headers[segment].free)];
      headers := headers[segment := headers[segment].(next := At(added), length := size)];
      if lastHeader == segment {
        lastHeader := added;
      }
      SplitDone(h, headers, order, k, added, size, length);
      order := Inserted(order, k, added);
    }

    /** `header_combine_forward`. */
    method CombineForward(segment: nat, ghost k: nat)
      requires Valid() && k < |order| && order[k] == segment
      modifies this`headers, this`lastHeader, this`order
      ensures Valid() && k < |order| && order[k] == segment && Contents() == Forward(old(Contents()), k)
      ensures order[..k] == old(order[..k])
    {
      hide Linked, View, Replace, Unlinks, Node, Removed;
      ghost var h := headers;
      NodeFacts(h, order, k);
      if headers[segment].next == Null {
        return;
      }
      var next := headers[segment].next.address;
      if !headers[next].free {
        return;
      }
      if next == lastHeader {
        lastHeader := segment;
      }
      if headers[next].next != Null {
        var behind := headers[next].next.address;
        headers := headers[behind := headers[behind].(last := At(segment))];
      }
      headers := headers[segment := headers[segment].(length := headers[segment].length + headers[next].length + 32)];
      headers := headers[segment := headers[segment].(next := headers[next].next)];
      CombineDone(h, headers, order, k);
      order := Removed(order, k + 1);
    }

    /** `header_combine_backward`. */
    method CombineBackward(segment: nat, ghost k: nat)
      requires Valid() && k < |order| && order[k] == segment
      modifies this`headers, this`lastHeader, this`order
      ensures Valid() && Contents() == Backward(old(Contents()), k)
    {
      hide Linked, View, Forward, Node;
      NodeFacts(headers, order, k);
      if headers[segment].last != Null && headers[headers[segment].last.address].free {
        CombineForward(headers[segment].last.address, k - 1);
      }
    }

    /** `heap_initialize`. */
    method Initialize(address: nat, pages: nat)
      requires pages > 0 && address % 16 == 0
      modifies this
      ensures initialized && Ready() && Contents() == [Seg(address, pages * 0x1000 - 32, true)]
      ensures start == address && end == address + pages * 0x1000
    {
      var length := pages * 0x1000;
      start := address;
      end := start + length;
      headers := map[address := Header(length - 32, Null, Null, true)];
      lastHeader := address;
      initialized := true;
      order := [address];
      assert Node(headers, order, 0);
    }

    /** `heap_expand`. */
    method Expand(length: nat)
      requires Ready() && length > 0
      modifies this`headers, this`lastHeader, this`order, this`end
      ensures Ready() && Contents() == Segments.Expand(old(Contents()), length)
      ensures end == old(end) + ToPages(length)
      ensures (end - old(end)) % 0x1000 == 0 && length <= end - old(end) < length + 0x1000
    {
      hide Linked, View, Node, Tiled, Aligned, Coalesced, Backward;
      ghost var segs := Contents();
      ExpandOk(segs, length);
      ExpandIs(segs, length);
      WholePages(length);
      EndIsNew(headers, order);
      NodeFacts(headers, order, |order| - 1);
      var rounded := length;
      if rounded % 0x1000 != 0 {
        rounded := rounded - rounded % 0x1000;
        rounded := rounded + 0x1000;
      }
      var pages := rounded / 0x1000;
      ghost var h := headers;
      var added := end;
      end := end + pages * 0x1000;
      headers := headers[added := Header(rounded - 32, Null, At(lastHeader), true)];
      headers := headers[lastHeader := headers[lastHeader].(next := At(added))];
      Appended(h, headers, order, added, rounded - 32);
      lastHeader := added;
      order := order + [added];
      CombineBackward(added, |segs|);
    }

    /** `free` of a block in use. */
    method Free(address: nat)
      requires Ready() && address >= 32 && address - 32 in order && !headers[address - 32].free
      modifies this`headers, this`lastHeader, this`order
      ensures Ready()
      ensures Contents() == Release(old(Contents()), IndexOf(old(order), address - 32))
    {
      hide Linked, View, Node, Tiled, Aligned, Coalesced, Release, Forward, Backward, IndexOf;
      ghost var segs, k := Contents(), IndexOf(order, address - 32);
      NodeFacts(headers, order, k);
      ReleaseOk(segs, k);
      ReleaseIsSteps(segs, k);
      ViewStored(headers, order, k, true);
      var segment := address - 32;
      headers := headers[segment := headers[segment].(free := true)];
      CombineForward(segment, k);
      CombineBackward(segment, k);
    }

    /** The branches of `malloc` that hand a segment out: a longer one is split first. */
    method HandOut(current: nat, size: nat, ghost k: nat)
      requires Ready() && k < |order| && order[k] == current && Fits(Contents()[k], size)
      requires size > 0 && size % 16 == 0
      modifies this`headers, this`lastHeader, this`order
      ensures Ready() && Contents() == Take(old(Contents()), k, size)
    {
      hide Linked, View, Node, Replace, Aligned, Coalesced, Cut, Taken, Live, Tiled, Take;
      ghost var segs := Contents();
      NodeFacts(headers, order, k);
      TakeOk(segs, k, size);
      if headers[current].length > size {
        TakeIs(segs, k, size);
        Split(current, size, k);
      } else {
        TakesWhole(segs, k, size);
      }
      NodeFacts(headers, order, k);
      ViewStored(headers, order, k, false);
      headers := headers[current := headers[current].(free := false)];
    }

    /** The search of `malloc`: the first free segment that is long enough is handed out. */
    method Search(wanted: nat) returns (address: nat)
      requires Ready() && wanted > 0 && wanted % 16 == 0
      modifies this`headers, this`lastHeader, this`order
      ensures Ready()
      ensures var segs := old(Contents()); var k := FirstFit(segs, 0, wanted);
              if k < |segs| then Contents() == Take(segs, k, wanted) && address == segs[k].at + 32
              else Contents() == segs && address == 0
    {
      hide Linked, View, Node, HeapOk, HeapEnd, Take, FirstFit;
      ghost var segs, k := Contents(), 0;
      NotEmpty(headers, order);
      var current := start;
      while true
        invariant Ready() && Contents() == segs && k < |order| && order[k] == current
        invariant FirstFit(segs, 0, wanted) == FirstFit(segs, k, wanted)
        decreases |order| - k
      {
        NodeFacts(headers, order, k);
        if headers[current].free {
          if headers[current].length > wanted || headers[current].length == wanted {
            FirstFitHere(segs, k, wanted);
            HandOut(current, wanted, k);
            return current + 32;
          }
        }
        SearchOn(segs, k, wanted);
        if headers[current].next == Null {
          return 0;
        }
        current := headers[current].next.address;
        k := k + 1;
      }
    }

    /** `malloc`. */
    method Malloc(size: nat) returns (address: nat)
      requires initialized ==> Ready()
      modifies this
      ensures initialized && Ready()
      ensures var before := if old(initialized) then old(Contents()) else [Seg(0x7f00_0000_0000, 0x10_0000 - 32, true)];
              before != [] && (Contents(), address) == Mallocs(before, size)
              && Serves(before, size, Contents(), address)
      decreases if initialized && ToBlock(size) > 0 then Expansions(Contents(), ToBlock(size)) else 3
    {
      hide Linked, View, Node, HeapOk, HeapEnd, Segments.Expand, Take, Mallocs, FirstFit, Expansions, Serves;
      if !initialized {
        Initialize(0x7f00_0000_0000, 256);
      }
      var wanted := Rounded(size);
      ghost var segs := Contents();
      NotEmpty(headers, order);
      MallocServes(segs, size);
      MallocsNothing(segs, size);
      if wanted == 0 {
        return 0;
      }
      address := Search(wanted);
      if address != 0 {
        MallocsFound(segs, size);
        return;
      }
      MallocsLater(segs, size);
      Expand(wanted);
      address := Malloc(wanted);
    }
  }

  /** `size` rounded up to 16 bytes, as at the start of `malloc`. */
  method Rounded(size: nat) returns (wanted: nat)
    ensures wanted == ToBlock(size) == ToBlock(wanted) && wanted % 16 == 0 && size <= wanted < size + 16
  {
    wanted := size;
    if wanted % 0x10 > 0 {
      wanted := wanted - wanted % 0x10;
      wanted := wanted + 0x10;
    }
    BlockOnce(size);
  }
}

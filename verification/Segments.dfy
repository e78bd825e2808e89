/** The kernel heap as the row of segments its headers describe. */
module Segments {
  import opened Sequences

  /** A header and the bytes behind it; `at` is the header's address. */
  datatype Seg = Seg(at: nat, length: nat, free: bool)

  /** A header takes 32 bytes. */
  function End(s: Seg): nat {
    s.at + 32 + s.length
  }

  predicate Touch(s: Seg, t: Seg) {
    End(s) == t.at
  }

  predicate NotBothFree(s: Seg, t: Seg) {
    !(s.free && t.free)
  }

  ghost predicate Tiled(segs: seq<Seg>) {
    forall i, j :: 0 <= i < j < |segs| && j == i + 1 ==> End(segs[i]) == segs[j].at
  }

  ghost predicate Aligned(segs: seq<Seg>) {
    forall s :: s in segs ==> s.at % 16 == 0 && s.length % 16 == 0 && s.length >= 16
  }

  ghost predicate Coalesced(segs: seq<Seg>) {
    forall i, j :: 0 <= i < j < |segs| && j == i + 1 ==> !(segs[i].free && segs[j].free)
  }

  ghost predicate HeapOk(segs: seq<Seg>) {
    segs != [] && Tiled(segs) && Aligned(segs) && Coalesced(segs)
  }

  /** The blocks in use. */
  ghost function Live(segs: seq<Seg>): set<Seg> {
    set s | s in segs && !s.free
  }

  function HeapEnd(segs: seq<Seg>): nat
    requires segs != []
  {
    End(segs[|segs| - 1])
  }

  function Sum(segs: seq<Seg>): nat {
    if segs == [] then 0 else segs[0].length + Sum(segs[1..])
  }

  /** Nothing is lost: the lengths and 32 bytes a header are the whole heap. */
  lemma {:induction false} NothingLost(segs: seq<Seg>)
    requires Tiled(segs) && segs != []
    ensures segs[0].at + Sum(segs) + 32 * |segs| == HeapEnd(segs)
  {
    if |segs| > 1 {
      NothingLost(segs[1..]);
      assert End(segs[0]) == segs[1].at;
    }
  }

  lemma {:induction false} InAddressOrder(segs: seq<Seg>, i: nat, j: nat)
    requires Tiled(segs) && i < j < |segs|
    ensures End(segs[i]) <= segs[j].at
    decreases j
  {
    if i + 1 < j {
      InAddressOrder(segs, i, j - 1);
    }
  }

  /** Two different segments have no byte in common. */
  lemma Disjoint(segs: seq<Seg>, s: Seg, t: Seg)
    requires Tiled(segs) && s in segs && t in segs && s != t
    ensures End(s) <= t.at || End(t) <= s.at
  {
    var i :| 0 <= i < |segs| && segs[i] == s;
    var j :| 0 <= j < |segs| && segs[j] == t;
    InAddressOrder(segs, if i < j then i else j, if i < j then j else i);
  }

  // ---------------------------------------------------------------- the steps

  /** `header_split`: nothing happens when less than 16 bytes would be left behind a new header. */
  function Cut(s: Seg, size: nat): seq<Seg> {
    if size < 0x10 || s.length - size - 32 < 0x10 then [s]
    else [s.(length := size), Seg(s.at + size + 32, s.length - size - 32, s.free)]
  }

  /** The segment a `malloc` hands out, and what it leaves behind it. */
  function Taken(s: Seg, size: nat): (r: seq<Seg>)
    ensures |r| > 0
  {
    var parts := Cut(s, size);
    parts[0 := parts[0].(free := false)]
  }

  function Take(segs: seq<Seg>, k: nat, size: nat): seq<Seg>
    requires k < |segs|
  {
    Replace(segs, k, k + 1, Taken(segs[k], size))
  }

  function Joined(s: Seg, t: Seg): Seg {
    s.(length := s.length + t.length + 32)
  }

  /** `header_combine_forward`. */
  function Forward(segs: seq<Seg>, k: nat): seq<Seg>
    requires k < |segs|
  {
    if k + 1 < |segs| && segs[k + 1].free then Replace(segs, k, k + 2, [Joined(segs[k], segs[k + 1])]) else segs
  }

  /** `header_combine_backward`. */
  function Backward(segs: seq<Seg>, k: nat): seq<Seg>
    requires k < |segs|
  {
    if k > 0 && segs[k - 1].free then Forward(segs, k - 1) else segs
  }

  /** `free` of segment `k`. */
  function Release(segs: seq<Seg>, k: nat): seq<Seg>
    requires k < |segs|
  {
    Backward(Forward(segs[k := segs[k].(free := true)], k), k)
  }

  function ToPages(length: nat): nat {
    if length % 0x1000 != 0 then length - length % 0x1000 + 0x1000 else length
  }

  function ToBlock(size: nat): nat {
    if size % 0x10 > 0 then size - size % 0x10 + 0x10 else size
  }

  /** `heap_expand`. */
  function Expand(segs: seq<Seg>, size: nat): seq<Seg>
    requires segs != [] && size > 0
  {
    Backward(segs + [Seg(HeapEnd(segs), ToPages(size) - 32, true)], |segs|)
  }

  predicate Fits(s: Seg, size: nat) {
    s.free && s.length >= size
  }

  function FirstFit(segs: seq<Seg>, k: nat, size: nat): (r: nat)
    requires k <= |segs|
    ensures k <= r <= |segs| && (r < |segs| ==> Fits(segs[r], size))
    ensures forall i :: k <= i < r ==> !Fits(segs[i], size)
    decreases |segs| - k
  {
    if k == |segs| || Fits(segs[k], size) then k else FirstFit(segs, k + 1, size)
  }

  /** How often `malloc` expands the heap: once is enough unless the last segment is in use and the
      new pages less a header fall short of the size. */
  function Expansions(segs: seq<Seg>, size: nat): nat
    requires segs != []
  {
    if FirstFit(segs, 0, size) < |segs| then 0
    else if segs[|segs| - 1].free || ToPages(size) - 32 >= size then 1
    else 2
  }

  /** After an expansion the heap ends in a free segment, longer by the new pages than the old free
      end, and all else is as before. */
  lemma ExpandIs(segs: seq<Seg>, size: nat)
    requires segs != [] && size > 0
    ensures var last := segs[|segs| - 1]; var r := Expand(segs, size);
            && r == (if last.free then segs[..|segs| - 1] + [last.(length := last.length + ToPages(size))]
                     else segs + [Seg(End(last), ToPages(size) - 32, true)])
            && HeapEnd(r) == HeapEnd(segs) + ToPages(size)
  {
  }

  lemma {:induction false} FirstFitIs(segs: seq<Seg>, k: nat, size: nat, e: nat)
    requires k <= e <= |segs| && (e < |segs| ==> Fits(segs[e], size))
    requires forall i :: k <= i < e ==> !Fits(segs[i], size)
    ensures FirstFit(segs, k, size) == e
    decreases e - k
  {
    if k < e {
      FirstFitIs(segs, k + 1, size, e);
    }
  }

  /** Each expansion brings the fit nearer. */
  lemma ExpandHelps(segs: seq<Seg>, size: nat)
    requires segs != [] && size > 0 && FirstFit(segs, 0, size) == |segs|
    ensures Expansions(Expand(segs, size), size) == Expansions(segs, size) - 1
    ensures Expand(segs, size) != []
  {
    ExpandIs(segs, size);
    var r := Expand(segs, size);
    var e := if Fits(r[|r| - 1], size) then |r| - 1 else |r|;
    FirstFitIs(r, 0, size, e);
  }

  /** `malloc` of a rounded size: the heap after it and the address handed out. */
  function Allocate(segs: seq<Seg>, size: nat): (seq<Seg>, nat)
    requires segs != [] && size > 0
    decreases Expansions(segs, size)
  {
    var k := FirstFit(segs, 0, size);
    if k < |segs| then (Take(segs, k, size), segs[k].at + 32)
    else
      ExpandHelps(segs, size);
      Allocate(Expand(segs, size), size)
  }

  function Expanded(segs: seq<Seg>, size: nat, times: nat): (r: seq<Seg>)
    requires segs != [] && size > 0
    ensures r != []
    decreases times
  {
    if times == 0 then segs
    else
      ExpandIs(segs, size);
      Expanded(Expand(segs, size), size, times - 1)
  }

  /** `malloc` of any size; none for nothing. */
  function Mallocs(segs: seq<Seg>, size: nat): (seq<Seg>, nat)
    requires segs != []
  {
    if ToBlock(size) == 0 then (segs, 0) else Allocate(segs, ToBlock(size))
  }

  /** A heap of 256 pages, all of it free. */
  function FirstHeap(): seq<Seg> {
    [Seg(0x7f00_0000_0000, 256 * 0x1000 - 32, true)]
  }

  // ---------------------------------------------------------------- what the steps keep

  lemma ReplaceOk(segs: seq<Seg>, i: nat, j: nat, mid: seq<Seg>)
    requires Tiled(segs) && Aligned(segs) && i < j <= |segs| && mid != []
    requires Tiled(mid) && Aligned(mid) && mid[0].at == segs[i].at && End(mid[|mid| - 1]) == End(segs[j - 1])
    ensures var r := Replace(segs, i, j, mid); r != [] && Tiled(r) && Aligned(r)
    ensures Replace(segs, i, j, mid)[0].at == segs[0].at && HeapEnd(Replace(segs, i, j, mid)) == HeapEnd(segs)
  {
    hide Replace;
    var r := Replace(segs, i, j, mid);
    ReplaceMembers(segs, i, j, mid);
    ReplaceEnds(segs, i, j, mid);
    ReplaceAdjacent(segs, i, j, mid, Touch);
    assert forall c, k :: 0 <= c < k < |r| && k == c + 1 ==> Touch(r[c], r[k]);
  }

  lemma ReplaceEnds(segs: seq<Seg>, i: nat, j: nat, mid: seq<Seg>)
    requires i < j <= |segs| && mid != []
    ensures var r := Replace(segs, i, j, mid);
            && r != [] && r[0] == (if i > 0 then segs[0] else mid[0])
            && r[|r| - 1] == (if j < |segs| then segs[|segs| - 1] else mid[|mid| - 1])
  {
  }

  lemma ReplaceCoalesced(segs: seq<Seg>, i: nat, j: nat, mid: seq<Seg>)
    requires Coalesced(segs) && Coalesced(mid) && i < j <= |segs| && mid != []
    requires i > 0 ==> !(segs[i - 1].free && mid[0].free)
    requires j < |segs| ==> !(mid[|mid| - 1].free && segs[j].free)
    ensures Coalesced(Replace(segs, i, j, mid))
  {
    var r := Replace(segs, i, j, mid);
    ReplaceAdjacent(segs, i, j, mid, NotBothFree);
    assert forall c, k :: 0 <= c < k < |r| && k == c + 1 ==> NotBothFree(r[c], r[k]);
  }

  /** Handing out segment `k` keeps the heap sound and puts just one block in use. */
  lemma TakeOk(segs: seq<Seg>, k: nat, size: nat)
    requires HeapOk(segs) && k < |segs| && Fits(segs[k], size) && size > 0 && size % 16 == 0
    ensures HeapOk(Take(segs, k, size)) && HeapEnd(Take(segs, k, size)) == HeapEnd(segs)
    ensures Take(segs, k, size)[0].at == segs[0].at
    ensures var block := Taken(segs[k], size)[0];
            && block !in Live(segs) && Live(Take(segs, k, size)) == Live(segs) + {block}
            && block.at == segs[k].at && block.at % 16 == 0 && size <= block.length < size + 48
  {
    hide Replace, Taken, Live, HeapEnd;
    assert segs[k] in segs;
    assert Aligned([segs[k]]);
    TakenParts(segs[k], size);
    var t := Taken(segs[k], size);
    ReplaceOk(segs, k, k + 1, t);
    ReplaceCoalesced(segs, k, k + 1, t);
    TakeLive(segs, k, size);
    NotLive(segs, k, t[0]);
  }

  lemma TakenParts(s: Seg, size: nat)
    requires Aligned([s]) && Fits(s, size) && size > 0 && size % 16 == 0
    ensures var t := Taken(s, size);
            && t != [] && Tiled(t) && Aligned(t) && Coalesced(t) && !t[0].free
            && t[0].at == s.at && End(t[|t| - 1]) == End(s) && s.at % 16 == 0 && size <= t[0].length < size + 48
            && (|t| == 1 || |t| == 2)
  {
    SumAligned(s.length, size);
    SumAligned(s.at, size);
  }

  lemma NotLive(segs: seq<Seg>, k: nat, block: Seg)
    requires Tiled(segs) && k < |segs| && segs[k].free && block.at == segs[k].at && !block.free
    ensures block !in Live(segs)
  {
    if block in segs {
      var j :| 0 <= j < |segs| && segs[j] == block;
      assert j != k;
      InAddressOrder(segs, if j < k then j else k, if j < k then k else j);
      assert false;
    }
  }

  lemma TakeLive(segs: seq<Seg>, k: nat, size: nat)
    requires k < |segs| && segs[k].free
    ensures Live(Take(segs, k, size)) == Live(segs) + {Taken(segs[k], size)[0]}
  {
    var t, r := Taken(segs[k], size), Take(segs, k, size);
    ReplaceMembers(segs, k, k + 1, t);
    assert segs[k..k + 1] == [segs[k]];
    assert t[0] in t;
  }

  lemma ReplaceMembers(segs: seq<Seg>, i: nat, j: nat, mid: seq<Seg>)
    requires i <= j <= |segs|
    ensures forall s :: s in Replace(segs, i, j, mid) <==> s in segs[..i] || s in mid || s in segs[j..]
    ensures forall s :: s in segs <==> s in segs[..i] || s in segs[i..j] || s in segs[j..]
  {
    assert segs == segs[..i] + segs[i..j] + segs[j..];
  }

  /** Whether `free` of segment `k` joins it to the one before it. */
  predicate JoinsBefore(segs: seq<Seg>, k: nat) {
    0 < k <= |segs| && segs[k - 1].free
  }

  predicate JoinsBehind(segs: seq<Seg>, k: nat) {
    k + 1 < |segs| && segs[k + 1].free
  }

  /** The stretch of segments that `free` of segment `k` turns into a single free one. */
  lemma ReleaseIs(segs: seq<Seg>, k: nat)
    requires Tiled(segs) && k < |segs|
    ensures var i := if JoinsBefore(segs, k) then k - 1 else k;
            var j := if JoinsBehind(segs, k) then k + 2 else k + 1;
            && segs[i].at + 32 <= End(segs[j - 1])
            && Release(segs, k) == Replace(segs, i, j, [Seg(segs[i].at, End(segs[j - 1]) - segs[i].at - 32, true)])
  {
    hide Forward, Backward, Replace;
    var s := segs[k].(free := true);
    ReleaseBehind(segs, k, s);
    if JoinsBehind(segs, k) {
      ReleaseBefore(segs, k, k + 2, Joined(s, segs[k + 1]));
    } else {
      ReleaseBefore(segs, k, k + 1, s);
    }
  }

  lemma ReleaseBehind(segs: seq<Seg>, k: nat, s: Seg)
    requires k < |segs|
    ensures Forward(segs[k := s], k) == if JoinsBehind(segs, k) then Replace(segs, k, k + 2, [Joined(s, segs[k + 1])])
                                        else Replace(segs, k, k + 1, [s])
  {
    if JoinsBehind(segs, k) {
      ReplaceUpdated(segs, k, k + 2, [Joined(s, segs[k + 1])], k, s);
    }
  }

  lemma ReleaseBefore(segs: seq<Seg>, k: nat, j: nat, t: Seg)
    requires k < j <= |segs| && t.free
    ensures var r := Replace(segs, k, j, [t]);
            && |r| > k
            && Backward(r, k) == if JoinsBefore(segs, k) then Replace(segs, k - 1, j, [Joined(segs[k - 1], t)]) else r
  {
    if k > 0 {
      ReplaceAgain(segs, k, j, t, Joined(segs[k - 1], t));
    }
  }

  /** `free` takes just its own block out of use and keeps the heap sound. */
  lemma ReleaseOk(segs: seq<Seg>, k: nat)
    requires HeapOk(segs) && k < |segs| && !segs[k].free
    ensures HeapOk(Release(segs, k)) && Live(Release(segs, k)) == Live(segs) - {segs[k]}
    ensures Release(segs, k)[0].at == segs[0].at && HeapEnd(Release(segs, k)) == HeapEnd(segs)
  {
    hide Release, Replace, HeapEnd, Live, Tiled, Aligned, Coalesced;
    var i := if JoinsBefore(segs, k) then k - 1 else k;
    var j := if JoinsBehind(segs, k) then k + 2 else k + 1;
    ReleaseIs(segs, k);
    var one := Seg(segs[i].at, End(segs[j - 1]) - segs[i].at - 32, true);
    OneAligned(segs, k, i, j);
    OneInOrder(one);
    AroundRelease(segs, k);
    ReplaceOk(segs, i, j, [one]);
    ReplaceCoalesced(segs, i, j, [one]);
    ReleaseLive(segs, k, i, j, one);
  }

  lemma OneInOrder(s: Seg)
    ensures Tiled([s]) && Coalesced([s])
  {
  }

  /** What stands around the stretch is in use. */
  lemma AroundRelease(segs: seq<Seg>, k: nat)
    requires Coalesced(segs) && k < |segs|
    ensures JoinsBefore(segs, k) && k > 1 ==> !segs[k - 2].free
    ensures JoinsBehind(segs, k) && k + 2 < |segs| ==> !segs[k + 2].free
  {
  }

  lemma OneAligned(segs: seq<Seg>, k: nat, i: nat, j: nat)
    requires Tiled(segs) && Aligned(segs) && k < |segs| && (i == k || i + 1 == k) && (j == k + 1 || j == k + 2)
    requires j <= |segs|
    ensures segs[i].at + 32 <= End(segs[j - 1])
    ensures var one := Seg(segs[i].at, End(segs[j - 1]) - segs[i].at - 32, true); Aligned([one])
  {
    assert segs[i] in segs && segs[k] in segs && segs[j - 1] in segs;
  }

  lemma ReleaseLive(segs: seq<Seg>, k: nat, i: nat, j: nat, one: Seg)
    requires Tiled(segs) && k < |segs| && i <= k < j <= |segs| && one.free && !segs[k].free
    requires forall c :: i <= c < j && c != k ==> segs[c].free
    ensures Live(Replace(segs, i, j, [one])) == Live(segs) - {segs[k]}
  {
    ReplaceMembers(segs, i, j, [one]);
    assert forall c :: i <= c < j ==> segs[i..j][c - i] == segs[c];
    assert segs[k] in segs;
    forall s | s in segs[..i] || s in segs[j..] ensures s != segs[k] {
      if s in segs[..i] {
        var c :| 0 <= c < i && segs[..i][c] == s;
        InAddressOrder(segs, c, k);
      } else {
        var c :| 0 <= c < |segs| - j && segs[j..][c] == s;
        InAddressOrder(segs, k, c + j);
      }
    }
  }

  /** `free` straight after a `malloc` that found room restores the row of segments exactly: what was
      cut off is joined again, and nothing before it is free. */
  lemma FreeUndoesMalloc(segs: seq<Seg>, size: nat)
    requires HeapOk(segs) && size > 0 && FirstFit(segs, 0, size) < |segs|
    ensures var (segs', address) := Allocate(segs, size); var k := FirstFit(segs, 0, size);
            && k < |segs'| && segs'[k].at + 32 == address && Release(segs', k) == segs
  {
    hide FirstFit, Release, Taken;
    var k := FirstFit(segs, 0, size);
    ReleaseTaken(segs, k, size);
  }

  lemma ReleaseTaken(segs: seq<Seg>, k: nat, size: nat)
    requires Tiled(segs) && Coalesced(segs) && k < |segs| && segs[k].free && size > 0
    ensures var r := Take(segs, k, size);
            k < |r| && r[k].at == segs[k].at && Release(r, k) == segs
  {
    var pre, t, post := segs[..k], Taken(segs[k], size), segs[k + 1..];
    var r := Take(segs, k, size);
    var f := r[k := r[k].(free := true)];
    assert segs == pre + [segs[k]] + post;
    assert k > 0 ==> f[k - 1] == segs[k - 1] && !segs[k - 1].free;
    assert Forward(f, k) == segs by {
      if |t| == 2 {
        assert f[k + 1] == t[1] && f[k + 2..] == post && f[..k] == pre;
      } else {
        assert k + 1 < |segs| ==> f[k + 1] == segs[k + 1];
        assert f == segs;
      }
    }
  }

  lemma ExpandOk(segs: seq<Seg>, size: nat)
    requires HeapOk(segs) && size > 0
    ensures HeapOk(Expand(segs, size)) && Live(Expand(segs, size)) == Live(segs)
    ensures Expand(segs, size)[0].at == segs[0].at
  {
    hide Expand, Replace, ToPages, Tiled, Coalesced, Live;
    ExpandIs(segs, size);
    WholePages(size);
    var last := segs[|segs| - 1];
    assert last in segs;
    if last.free {
      var longer := last.(length := last.length + ToPages(size));
      SumAligned(last.length, ToPages(size));
      LastReplaced(segs, longer);
      Longer(segs, longer);
    } else {
      SumAligned(last.at, last.length);
      Another(segs, Seg(End(last), ToPages(size) - 32, true));
    }
  }

  lemma WholePages(size: nat)
    requires size > 0
    ensures ToPages(size) >= 0x1000 && ToPages(size) % 0x1000 == 0 && size <= ToPages(size) < size + 0x1000
    ensures ToPages(size) % 16 == 0 && (ToPages(size) - 32) % 16 == 0
  {
    var q := size / 0x1000 + (if size % 0x1000 != 0 then 1 else 0);
    assert ToPages(size) == 0x1000 * q;
    PagesAreAligned(q);
  }

  lemma PagesAreAligned(q: nat)
    ensures (0x1000 * q) % 16 == 0 && (0x1000 * q - 32) % 16 == 0
  {
  }

  lemma SumAligned(a: nat, b: nat)
    requires a % 16 == 0 && b % 16 == 0
    ensures (a + b) % 16 == 0 && (a + 32 + b) % 16 == 0 && (a - b - 32) % 16 == 0
  {
  }

  lemma LastReplaced(segs: seq<Seg>, s: Seg)
    requires segs != []
    ensures Replace(segs, |segs| - 1, |segs|, [s]) == segs[..|segs| - 1] + [s]
    ensures segs == segs[..|segs| - 1] + [segs[|segs| - 1]]
  {
  }

  lemma Longer(segs: seq<Seg>, s: Seg)
    requires HeapOk(segs) && s.free && s.at == segs[|segs| - 1].at && segs[|segs| - 1].free && Aligned([s])
    ensures var r := segs[..|segs| - 1] + [s]; HeapOk(r) && Live(r) == Live(segs) && r[0].at == segs[0].at
  {
    var r := segs[..|segs| - 1] + [s];
    forall i, j | 0 <= i < j < |r| && j == i + 1 ensures End(r[i]) == r[j].at && !(r[i].free && r[j].free) {
      assert r[i] == segs[i] && r[j].at == segs[j].at && r[j].free == segs[j].free;
    }
    assert segs == segs[..|segs| - 1] + [segs[|segs| - 1]];
  }

  lemma Another(segs: seq<Seg>, s: Seg)
    requires HeapOk(segs) && s.free && s.at == HeapEnd(segs) && !segs[|segs| - 1].free && Aligned([s])
    ensures var r := segs + [s]; HeapOk(r) && Live(r) == Live(segs) && r[0].at == segs[0].at
  {
    var r := segs + [s];
    forall i, j | 0 <= i < j < |r| && j == i + 1 ensures End(r[i]) == r[j].at && !(r[i].free && r[j].free) {
      assert r[i] == segs[i] && (j < |segs| ==> r[j] == segs[j]);
    }
  }

  /** What one `malloc` does: it expands the heap exactly as often as it must, at most twice, and takes
      the lowest free segment that is long enough; just one block more is in use, and it is 16-byte
      aligned. */
  ghost predicate Allocates(segs: seq<Seg>, size: nat, segs': seq<Seg>, address: nat)
    requires segs != [] && size > 0
  {
    var grown := Expanded(segs, size, Expansions(segs, size));
    var k := FirstFit(grown, 0, size);
    && HeapOk(segs') && segs'[0].at == segs[0].at && Expansions(segs, size) <= 2
    && HeapEnd(segs') == HeapEnd(segs) + Expansions(segs, size) * ToPages(size)
    && Live(grown) == Live(segs) && k < |grown|
    && (forall s :: s in grown && Fits(s, size) ==> grown[k].at <= s.at)
    && var block := Taken(grown[k], size)[0];
    && address == block.at + 32 == grown[k].at + 32 && address % 16 == 0
    && size <= block.length < size + 48
    && block !in Live(segs) && Live(segs') == Live(segs) + {block}
  }

  lemma {:induction false} MallocRefines(segs: seq<Seg>, size: nat)
    requires HeapOk(segs) && size > 0 && size % 16 == 0
    ensures Allocates(segs, size, Allocate(segs, size).0, Allocate(segs, size).1)
    decreases Expansions(segs, size)
  {
    hide Allocates, Taken, Tiled, Aligned, Coalesced, HeapEnd, Live, Expand;
    if FirstFit(segs, 0, size) < |segs| {
      FoundFirst(segs, size);
    } else {
      ExpandHelps(segs, size);
      ExpandOk(segs, size);
      MallocRefines(Expand(segs, size), size);
      AllocatesLater(segs, size, Allocate(segs, size).0, Allocate(segs, size).1);
    }
  }

  lemma AllocatesLater(segs: seq<Seg>, size: nat, segs': seq<Seg>, address: nat)
    requires HeapOk(segs) && size > 0 && FirstFit(segs, 0, size) == |segs| && Expand(segs, size) != []
    requires Allocates(Expand(segs, size), size, segs', address)
    ensures Allocates(segs, size, segs', address)
  {
    hide FirstFit, Taken, Expand, Tiled, Aligned, Coalesced, Live, HeapEnd, ToPages, Expansions;
    ExpandHelps(segs, size);
    ExpandOk(segs, size);
    ExpandIs(segs, size);
    var n, pages := Expansions(segs, size), ToPages(size);
    assert n * pages == (n - 1) * pages + pages;
    AtMostTwo(segs, size);
  }

  lemma AtMostTwo(segs: seq<Seg>, size: nat)
    requires segs != []
    ensures Expansions(segs, size) <= 2
  {
  }

  lemma FoundFirst(segs: seq<Seg>, size: nat)
    requires HeapOk(segs) && size > 0 && size % 16 == 0 && FirstFit(segs, 0, size) < |segs|
    ensures Allocates(segs, size, Allocate(segs, size).0, Allocate(segs, size).1)
  {
    hide HeapEnd, Taken, Live, Take, Aligned;
    var k := FirstFit(segs, 0, size);
    TakeOk(segs, k, size);
    forall s | s in segs && Fits(s, size) ensures segs[k].at <= s.at {
      var j :| 0 <= j < |segs| && segs[j] == s;
      if k < j {
        InAddressOrder(segs, k, j);
      }
    }
  }

  // ---------------------------------------------------------------- what a caller of malloc gets

  /** Rounding a size gives the least multiple of 16 not below it; a rounded size stays what it is. */
  lemma BlockOnce(size: nat)
    ensures ToBlock(size) % 16 == 0 && size <= ToBlock(size) < size + 16
    ensures ToBlock(ToBlock(size)) == ToBlock(size)
  {
  }

  /** A free segment with at least the bytes asked for. */
  predicate Holds(s: Seg, size: nat) {
    s.free && s.length >= size
  }

  ghost predicate Found(segs: seq<Seg>, size: nat) {
    exists s :: s in segs && Holds(s, size)
  }

  /** `pages` is the least number of bytes in whole pages not below `size`. */
  predicate LeastPages(pages: nat, size: nat) {
    pages % 0x1000 == 0 && size <= pages < size + 0x1000
  }

  /** How much longer the heap gets: not at all when a free segment has the bytes; otherwise by the whole
      pages the size takes, and by as many again when the last segment is in use and the new pages, less a
      header, fall short of the size. */
  ghost predicate GrowsFor(segs: seq<Seg>, size: nat, growth: int)
    requires segs != []
  {
    if Found(segs, size) then growth == 0
    else exists pages: nat :: LeastPages(pages, size) &&
           growth == if segs[|segs| - 1].free || pages - 32 >= size then pages else 2 * pages
  }

  /** What the call promises for the very size asked for: NULL for no bytes and only then; otherwise one
      new block at the address, of at least the bytes and at most 47 more, in the lowest free segment
      that has them, and no other change of what is in use. */
  ghost predicate Serves(segs: seq<Seg>, size: nat, segs': seq<Seg>, address: nat)
    requires segs != []
  {
    && HeapOk(segs') && segs'[0].at == segs[0].at
    && (address == 0 <==> size == 0) && (size == 0 ==> segs' == segs)
    && (size > 0 ==>
          && (exists block ::
                && block !in Live(segs) && Live(segs') == Live(segs) + {block}
                && block.at + 32 == address && size <= block.length <= size + 47)
          && address % 16 == 0
          && (forall s :: s in segs && Holds(s, size) ==> address <= s.at + 32)
          && GrowsFor(segs, size, HeapEnd(segs') - HeapEnd(segs)))
  }

  /** `malloc` keeps that promise. */
  lemma MallocServes(segs: seq<Seg>, size: nat)
    requires HeapOk(segs)
    ensures segs != [] && Serves(segs, size, Mallocs(segs, size).0, Mallocs(segs, size).1)
  {
    hide Taken, Live, Allocate, Expanded, FirstFit, Expansions, GrowsFor, Coalesced, Tiled, Allocates;
    BlockOnce(size);
    if size > 0 {
      MallocRefines(segs, ToBlock(size));
      var (segs', address) := Allocate(segs, ToBlock(size));
      AllocatesServes(segs, size, segs', address);
    }
  }

  lemma AllocatesServes(segs: seq<Seg>, size: nat, segs': seq<Seg>, address: nat)
    requires HeapOk(segs) && size > 0 && ToBlock(size) > 0 && Allocates(segs, ToBlock(size), segs', address)
    ensures Serves(segs, size, segs', address)
  {
    hide Live, Coalesced, Tiled, GrowsFor, Expansions, HeapEnd, Taken, ToBlock, ToPages, FirstFit;
    BlockOnce(size);
    var grown := Expanded(segs, ToBlock(size), Expansions(segs, ToBlock(size)));
    var block := Taken(grown[FirstFit(grown, 0, ToBlock(size))], ToBlock(size))[0];
    NewBlockAligned(segs, segs', block);
    BlockBounds(size, ToBlock(size), block.length);
    LowestHolds(segs, size, address);
    GrowthIs(segs, size);
  }

  lemma NewBlockAligned(segs: seq<Seg>, segs': seq<Seg>, block: Seg)
    requires Aligned(segs') && Live(segs') == Live(segs) + {block}
    ensures block in segs' && block.length % 16 == 0
  {
    assert block in Live(segs');
  }

  lemma BlockBounds(size: nat, wanted: nat, length: nat)
    requires wanted % 16 == 0 && length % 16 == 0 && size <= wanted < size + 16 && wanted <= length < wanted + 48
    ensures size <= length <= size + 47
  {
    assert (wanted + 47) % 16 == 15;
  }

  /** Among lengths that are multiples of 16 it makes no difference whether the size was rounded. */
  lemma HoldsIsFits(s: Seg, size: nat)
    requires s.length % 16 == 0
    ensures Holds(s, size) <==> Fits(s, ToBlock(size))
  {
    hide ToBlock;
    BlockOnce(size);
    NoneBetween(s.length, size, ToBlock(size));
  }

  /** No multiple of 16 lies between a size and its rounding. */
  lemma NoneBetween(n: nat, size: nat, wanted: nat)
    requires n % 16 == 0 && wanted % 16 == 0 && size <= wanted < size + 16
    ensures n >= size <==> n >= wanted
  {
  }

  lemma FoundIsFit(segs: seq<Seg>, size: nat)
    requires Aligned(segs)
    ensures Found(segs, size) <==> FirstFit(segs, 0, ToBlock(size)) < |segs|
  {
    hide ToBlock;
    var k := FirstFit(segs, 0, ToBlock(size));
    if k < |segs| {
      HoldsIsFits(segs[k], size);
    }
    if s :| s in segs && Holds(s, size) {
      HoldsIsFits(s, size);
      var i :| 0 <= i < |segs| && segs[i] == s;
    }
  }

  lemma LowestHolds(segs: seq<Seg>, size: nat, address: nat)
    requires HeapOk(segs) && ToBlock(size) > 0
    requires var grown := Expanded(segs, ToBlock(size), Expansions(segs, ToBlock(size)));
             forall s :: s in grown && Fits(s, ToBlock(size)) ==> address <= s.at + 32
    ensures forall s :: s in segs && Holds(s, size) ==> address <= s.at + 32
  {
    hide ToBlock, FirstFit, Fits, Holds, Tiled, Coalesced, ToPages;
    FoundIsFit(segs, size);
    forall s | s in segs && Holds(s, size) ensures address <= s.at + 32 {
      HoldsIsFits(s, size);
      assert Found(segs, size);
    }
  }

  lemma GrowthIs(segs: seq<Seg>, size: nat)
    requires HeapOk(segs) && ToBlock(size) > 0
    ensures GrowsFor(segs, size, Expansions(segs, ToBlock(size)) * ToPages(ToBlock(size)))
  {
    hide ToBlock, FirstFit, Found, Tiled, Coalesced, ToPages, Aligned;
    var wanted := ToBlock(size);
    var pages := ToPages(wanted);
    FoundIsFit(segs, size);
    BlockOnce(size);
    WholePages(wanted);
    NoneBetween(pages - 32, size, wanted);
    PagesOfRounded(pages, size, wanted);
  }

  /** The pages a rounded size takes are those the size takes. */
  lemma PagesOfRounded(pages: nat, size: nat, wanted: nat)
    requires LeastPages(pages, wanted) && pages >= 0x1000 && wanted % 16 == 0 && size <= wanted < size + 16
    ensures LeastPages(pages, size)
  {
    var q := pages / 0x1000;
    assert pages == 0x1000 * q;
    PagesAreAligned(q - 1);
    NoneBetween(pages - 0x1000, size, wanted);
  }

  /** An expansion less would not have been enough. */
  lemma {:induction false} NoneTooMany(segs: seq<Seg>, size: nat, times: nat)
    requires HeapOk(segs) && size > 0 && times < Expansions(segs, size)
    ensures forall s :: s in Expanded(segs, size, times) ==> !Fits(s, size)
    decreases times
  {
    if times > 0 {
      ExpandHelps(segs, size);
      ExpandOk(segs, size);
      NoneTooMany(Expand(segs, size), size, times - 1);
    }
  }
}

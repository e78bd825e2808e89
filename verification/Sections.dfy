/** Physical memory as a list of sections, and the map from addresses to states it stands for. */
module Sections {
  import opened Sequences
  import opened Wrappers

  datatype Kind = Used | Free | Bad

  /** A run of 4 KiB pages that share one state. */
  datatype Sec = Sec(start: nat, pages: nat, kind: Kind)

  function End(s: Sec): nat {
    s.start + s.pages * 0x1000
  }

  /** The state of the address `a`. */
  function KindAt(secs: seq<Sec>, a: nat): Option<Kind> {
    if secs == [] then None
    else if secs[0].start <= a < End(secs[0]) then Some(secs[0].kind)
    else KindAt(secs[1..], a)
  }

  /** What must hold between two neighbouring sections: they touch, they are not both FREE, and an
      empty section is a FREE one behind a USED one. */
  predicate Joint(a: Sec, b: Sec) {
    && End(a) == b.start
    && !(a.kind == Free && b.kind == Free)
    && (b.pages == 0 ==> b.kind == Free && a.kind == Used)
  }

  ghost predicate Chain(secs: seq<Sec>) {
    && (forall k :: 0 <= k < |secs| ==> secs[k].start % 0x1000 == 0)
    && (forall i, j :: 0 <= i < j < |secs| && j == i + 1 ==> Joint(secs[i], secs[j]))
  }

  /** A chain that starts with BAD memory at address zero. */
  ghost predicate Formed(secs: seq<Sec>) {
    && |secs| >= 2 && Chain(secs)
    && secs[0].start == 0 && secs[0].kind == Bad && secs[0].pages > 0
  }

  /** It does not end with FREE memory either, so no allocation gets to its last section. */
  ghost predicate WellFormed(secs: seq<Sec>) {
    Formed(secs) && secs[|secs| - 1].kind != Free
  }

  ghost predicate Touching(secs: seq<Sec>) {
    forall i, j :: 0 <= i < j < |secs| && j == i + 1 ==> End(secs[i]) == secs[j].start
  }

  lemma {:induction false} KindAtConcat(a: seq<Sec>, b: seq<Sec>, x: nat)
    ensures KindAt(a + b, x) == if KindAt(a, x).Some? then KindAt(a, x) else KindAt(b, x)
  {
    if a == [] {
      assert a + b == b;
    } else {
      assert (a + b)[1..] == a[1..] + b;
      KindAtConcat(a[1..], b, x);
    }
  }

  /** Sections that touch cover exactly the addresses from the first start to the last end. */
  lemma {:induction false} Covered(secs: seq<Sec>, x: nat)
    requires Touching(secs) && secs != []
    ensures secs[0].start <= End(secs[|secs| - 1])
    ensures KindAt(secs, x).Some? <==> secs[0].start <= x < End(secs[|secs| - 1])
  {
    if |secs| > 1 {
      Covered(secs[1..], x);
    }
  }

  /** The state of every address after a replacement that covers the same stretch of memory. */
  lemma ReplaceKinds(secs: seq<Sec>, i: nat, j: nat, mid: seq<Sec>, x: nat)
    requires Touching(secs) && i < j <= |secs| && mid != [] && Touching(mid)
    requires mid[0].start == secs[i].start && End(mid[|mid| - 1]) == End(secs[j - 1])
    ensures KindAt(Replace(secs, i, j, mid), x)
         == if secs[i].start <= x < End(secs[j - 1]) then KindAt(mid, x) else KindAt(secs, x)
    ensures secs[i].start <= x < End(secs[j - 1]) ==> KindAt(secs, x) == KindAt(secs[i..j], x)
  {
    SliceTouching(secs, i, j);
    Cut(secs, i, j, x);
    hide KindAt, Touching, End;
    SwapMiddle(secs[..i], secs[i..j], mid, secs[j..], x);
  }

  lemma SwapMiddle(pre: seq<Sec>, was: seq<Sec>, mid: seq<Sec>, post: seq<Sec>, x: nat)
    requires Touching(pre) && Touching(was) && Touching(mid) && was != [] && mid != []
    requires mid[0].start == was[0].start && End(mid[|mid| - 1]) == End(was[|was| - 1])
    requires pre != [] ==> End(pre[|pre| - 1]) <= was[0].start
    ensures KindAt(pre + mid + post, x)
         == if was[0].start <= x < End(was[|was| - 1]) then KindAt(mid, x) else KindAt(pre + was + post, x)
    ensures was[0].start <= x < End(was[|was| - 1]) ==> KindAt(pre + was + post, x) == KindAt(was, x)
  {
    hide KindAt, Touching;
    ThreeParts(pre, was, post, x);
    ThreeParts(pre, mid, post, x);
  }

  lemma Cut(secs: seq<Sec>, i: nat, j: nat, x: nat)
    requires i < j <= |secs|
    ensures KindAt(secs[..i] + secs[i..j] + secs[j..], x) == KindAt(secs, x)
  {
    hide KindAt;
    assert secs[..i] + secs[i..j] + secs[j..] == secs;
  }

  lemma SliceTouching(secs: seq<Sec>, i: nat, j: nat)
    requires Touching(secs) && i < j <= |secs|
    ensures Touching(secs[..i]) && Touching(secs[i..j])
    ensures secs[i..j][0] == secs[i] && secs[i..j][j - i - 1] == secs[j - 1]
    ensures i > 0 ==> secs[..i][i - 1] == secs[i - 1] && End(secs[i - 1]) == secs[i].start
  {
  }

  lemma ThreeParts(pre: seq<Sec>, mid: seq<Sec>, post: seq<Sec>, x: nat)
    requires Touching(pre) && Touching(mid) && mid != []
    requires pre != [] ==> End(pre[|pre| - 1]) <= mid[0].start
    ensures KindAt(pre + mid + post, x)
         == if mid[0].start <= x < End(mid[|mid| - 1]) then KindAt(mid, x)
            else if KindAt(pre, x).Some? then KindAt(pre, x) else KindAt(post, x)
  {
    KindAtConcat(pre + mid, post, x);
    KindAtConcat(pre, mid, x);
    Covered(mid, x);
    if pre != [] {
      Covered(pre, x);
    }
  }

  /** A replacement keeps the list a chain when the new part is one and joins what is around it. */
  lemma ReplaceChain(secs: seq<Sec>, i: nat, j: nat, mid: seq<Sec>)
    requires Chain(secs) && Chain(mid) && i < j <= |secs| && mid != []
    requires i > 0 ==> Joint(secs[i - 1], mid[0])
    requires j < |secs| ==> Joint(mid[|mid| - 1], secs[j])
    ensures Chain(Replace(secs, i, j, mid))
  {
    var r := Replace(secs, i, j, mid);
    ReplaceAdjacent(secs, i, j, mid, Joint);
    assert forall c, k :: 0 <= c < k < |r| && k == c + 1 ==> Joint(r[c], r[k]);
  }

  /** The page at `p` is in the state `kind` and every other address is as before. */
  ghost predicate SetsPage(secs: seq<Sec>, secs': seq<Sec>, p: nat, kind: Kind) {
    forall a: nat :: KindAt(secs', a) == if p <= a < p + 0x1000 then Some(kind) else KindAt(secs, a)
  }

  ghost predicate SameKinds(secs: seq<Sec>, secs': seq<Sec>) {
    forall a: nat :: KindAt(secs', a) == KindAt(secs, a)
  }

  /** A page of memory is inside one section, so all its addresses are in one state. */
  lemma SectionKind(secs: seq<Sec>, k: nat, a: nat)
    requires Touching(secs) && k < |secs| && secs[k].start <= a < End(secs[k])
    ensures KindAt(secs, a) == Some(secs[k].kind)
  {
    ReplaceKinds(secs, k, k + 1, [secs[k]], a);
    assert secs[k..k + 1] == [secs[k]];
  }

  // ---------------------------------------------------------------- locking

  /** uint64 subtraction wraps around below zero. */
  function Minus(a: nat, b: nat): nat {
    if b <= a then a - b else (a - b) % 0x1_0000_0000_0000_0000
  }

  function Less(pages: nat): nat {
    Minus(pages, 1)
  }

  function Grown(s: Sec): Sec {
    s.(pages := s.pages + 1)
  }

  /** `s` without its first page. */
  function Behead(s: Sec): Sec {
    Sec(s.start + 0x1000, Less(s.pages), s.kind)
  }

  function PagesBetween(a: nat, b: nat): nat
    requires a <= b
  {
    (b - a) / 0x1000
  }

  /** Section `k` is the one the page search stops at. */
  predicate Holds(secs: seq<Sec>, k: nat, page: nat)
    requires k < |secs|
  {
    secs[k].start == page || (k + 1 < |secs| && secs[k].start < page < secs[k + 1].start)
  }

  /** The first section the search stops at, from `k` on. */
  function Find(secs: seq<Sec>, k: nat, page: nat): (r: nat)
    requires k <= |secs|
    ensures k <= r <= |secs|
    ensures r < |secs| ==> Holds(secs, r, page)
    ensures forall i :: k <= i < r ==> !Holds(secs, i, page)
    decreases |secs| - k
  {
    if k == |secs| || Holds(secs, k, page) then k else Find(secs, k + 1, page)
  }

  /** `pmm_lock_page` once the search has stopped at section `k`. */
  function LockAt(secs: seq<Sec>, k: nat, page: nat): seq<Sec>
    requires k < |secs|
  {
    var s := secs[k];
    if s.start == page && 0 < k then
      var p := secs[k - 1];
      if s.pages == 1 && k + 1 < |secs| then
        var n := secs[k + 1];
        if p.kind == Used && n.kind == Used then
          Replace(secs, k - 1, k + 2, [Sec(p.start, p.pages + 1 + n.pages, Used)])
        else if p.kind == Used then
          Replace(secs, k - 1, k + 1, [Grown(p)])
        else if n.kind == Used then
          Replace(secs, k, k + 2, [Sec(s.start, 1 + n.pages, Used)])
        else
          Replace(secs, k, k + 1, [s.(kind := Used)])
      else if s.kind == Used then secs
      else if p.kind == Used then
        Replace(secs, k - 1, k + 1, [Grown(p), Behead(s)])
      else
        Replace(secs, k, k + 1, [Sec(page, 1, Used), Behead(s)])
    else if k + 1 < |secs| && s.start < page < secs[k + 1].start then
      var n := secs[k + 1];
      var before := Sec(s.start, PagesBetween(s.start, page), s.kind);
      if s.kind == Used then secs
      else if n.start == page + 0x1000 then
        if n.kind == Used then
          Replace(secs, k, k + 2, [before, Sec(page, n.pages + 1, Used)])
        else
          Replace(secs, k, k + 1, [before, Sec(page, 1, Used)])
      else
        Replace(secs, k, k + 1, [before, Sec(page, 1, Used),
                                 Sec(page + 0x1000, Less(Minus(s.pages, PagesBetween(s.start, page))), s.kind)])
    else secs
  }

  function LockSecs(secs: seq<Sec>, page: nat): seq<Sec> {
    var k := Find(secs, 0, page);
    if k == |secs| then secs else LockAt(secs, k, page)
  }

  /** The search for a page before the last section stops at a section before the last one, and
      every section it passed starts below the page. */
  lemma {:induction false} FindStops(secs: seq<Sec>, k: nat, page: nat)
    requires Touching(secs) && k < |secs| && secs[k].start <= page < secs[|secs| - 1].start
    ensures Find(secs, k, page) < |secs| - 1
    ensures forall i :: k <= i < Find(secs, k, page) ==> secs[i].start < page
    ensures secs[Find(secs, k, page)].start <= page
    decreases |secs| - k
  {
    if !Holds(secs, k, page) {
      assert End(secs[k]) == secs[k + 1].start;
      FindStops(secs, k + 1, page);
    }
  }

  /** The last section stays what it is when a page turns `kind`, except that the page may have been its
      first one. */
  predicate KeepsEnd(s: Sec, t: Sec, page: nat, kind: Kind) {
    && t.kind == s.kind && End(t) == End(s)
    && (s.kind != kind ==> t.start == if page == s.start then page + 0x1000 else s.start)
  }

  /** `r` is a list of the same shape in which the page at `page` has turned `kind`. */
  ghost predicate Turned(secs: seq<Sec>, r: seq<Sec>, page: nat, kind: Kind) {
    && Formed(r) && SetsPage(secs, r, page, kind)
    && secs != [] && KeepsEnd(secs[|secs| - 1], r[|r| - 1], page, kind)
  }

  lemma LastLater(secs: seq<Sec>, j: nat, page: nat)
    requires Formed(secs) && 0 < j <= |secs| && page + 0x1000 <= End(secs[j - 1])
    ensures j < |secs| ==> page < secs[|secs| - 1].start
  {
    if j < |secs| {
      assert Joint(secs[j - 1], secs[j]);
      StartsBefore(secs, j, |secs| - 1);
    }
  }

  /** Replacing a few sections so that one page changes its state. */
  lemma Rewrite(secs: seq<Sec>, i: nat, j: nat, mid: seq<Sec>, page: nat, kind: Kind)
    requires Formed(secs) && Chain(mid) && mid != [] && i < j <= |secs|
    requires i > 0 ==> Joint(secs[i - 1], mid[0])
    requires i == 0 ==> mid[0].kind == Bad && mid[0].pages > 0
    requires j < |secs| ==> Joint(mid[|mid| - 1], secs[j])
    requires j == |secs| ==> |mid| + i >= 2 && KeepsEnd(secs[j - 1], mid[|mid| - 1], page, kind)
    requires mid[0].start == secs[i].start && End(mid[|mid| - 1]) == End(secs[j - 1])
    requires secs[i].start <= page && page + 0x1000 <= End(secs[j - 1])
    requires forall x: nat :: secs[i].start <= x < End(secs[j - 1]) ==>
               KindAt(mid, x) == if page <= x < page + 0x1000 then Some(kind) else KindAt(secs[i..j], x)
    ensures Turned(secs, Replace(secs, i, j, mid), page, kind)
  {
    hide KindAt, Joint, End, Replace, Chain, Formed, KeepsEnd, SetsPage;
    RewriteShape(secs, i, j, mid, page, kind);
    RewriteKinds(secs, i, j, mid, page, kind);
  }

  lemma RewriteShape(secs: seq<Sec>, i: nat, j: nat, mid: seq<Sec>, page: nat, kind: Kind)
    requires Formed(secs) && Chain(mid) && mid != [] && i < j <= |secs|
    requires i > 0 ==> Joint(secs[i - 1], mid[0])
    requires i == 0 ==> mid[0].kind == Bad && mid[0].pages > 0
    requires j < |secs| ==> Joint(mid[|mid| - 1], secs[j])
    requires j == |secs| ==> |mid| + i >= 2 && KeepsEnd(secs[j - 1], mid[|mid| - 1], page, kind)
    requires mid[0].start == secs[i].start && page + 0x1000 <= End(secs[j - 1])
    ensures var r := Replace(secs, i, j, mid);
            Formed(r) && KeepsEnd(secs[|secs| - 1], r[|r| - 1], page, kind)
  {
    hide Joint, Chain, Replace;
    LastLater(secs, j, page);
    ReplaceChain(secs, i, j, mid);
    ReplaceEnds(secs, i, j, mid);
  }

  lemma RewriteKinds(secs: seq<Sec>, i: nat, j: nat, mid: seq<Sec>, page: nat, kind: Kind)
    requires Formed(secs) && Chain(mid) && mid != [] && i < j <= |secs|
    requires mid[0].start == secs[i].start && End(mid[|mid| - 1]) == End(secs[j - 1])
    requires secs[i].start <= page && page + 0x1000 <= End(secs[j - 1])
    requires forall x: nat :: secs[i].start <= x < End(secs[j - 1]) ==>
               KindAt(mid, x) == if page <= x < page + 0x1000 then Some(kind) else KindAt(secs[i..j], x)
    ensures SetsPage(secs, Replace(secs, i, j, mid), page, kind)
  {
    hide KindAt, Joint, End, Touching, Replace;
    ChainOf(secs);
    ChainTouches(secs);
    ChainTouches(mid);
    hide Chain;
    forall a: nat
      ensures KindAt(Replace(secs, i, j, mid), a) == if page <= a < page + 0x1000 then Some(kind) else KindAt(secs, a)
    {
      ReplaceKinds(secs, i, j, mid, a);
    }
  }

  lemma ChainTouches(secs: seq<Sec>)
    requires Chain(secs)
    ensures Touching(secs)
  {
  }

  lemma ReplaceEnds(secs: seq<Sec>, i: nat, j: nat, mid: seq<Sec>)
    requires i < j <= |secs| && mid != []
    ensures var r := Replace(secs, i, j, mid);
            && |r| == |secs| - (j - i) + |mid|
            && r[0] == (if i > 0 then secs[0] else mid[0])
            && r[|r| - 1] == (if j < |secs| then secs[|secs| - 1] else mid[|mid| - 1])
  {
  }

  /** The states a list of one, two or three sections stands for. */
  function Few(secs: seq<Sec>, x: nat): Option<Kind>
    requires 1 <= |secs| <= 3
  {
    if secs[0].start <= x < End(secs[0]) then Some(secs[0].kind)
    else if |secs| >= 2 && secs[1].start <= x < End(secs[1]) then Some(secs[1].kind)
    else if |secs| >= 3 && secs[2].start <= x < End(secs[2]) then Some(secs[2].kind)
    else None
  }

  lemma {:induction false} FewSections(secs: seq<Sec>, x: nat)
    requires 1 <= |secs| <= 3
    ensures KindAt(secs, x) == Few(secs, x)
  {
    if |secs| == 1 {
      assert KindAt(secs[1..], x) == None;
    } else {
      FewSections(secs[1..], x);
    }
  }

  /** The new sections differ from the old ones in the page at `page` only, which is in the state `kind`. */
  ghost predicate Recoloured(was: seq<Sec>, mid: seq<Sec>, page: nat, kind: Kind)
    requires 1 <= |was| <= 3 && 1 <= |mid| <= 3
  {
    forall x: nat :: was[0].start <= x < End(was[|was| - 1]) ==>
      Few(mid, x) == if page <= x < page + 0x1000 then Some(kind) else Few(was, x)
  }

  /** As `Rewrite`, for at most three old and three new sections. */
  lemma RewriteFew(secs: seq<Sec>, i: nat, was: seq<Sec>, mid: seq<Sec>, page: nat, kind: Kind)
    requires Formed(secs) && 1 <= |mid| <= 3 && 1 <= |was| <= 3 && i + |was| <= |secs|
    requires was[0] == secs[i] && (|was| >= 2 ==> was[1] == secs[i + 1]) && (|was| >= 3 ==> was[2] == secs[i + 2])
    requires mid[0].start % 0x1000 == 0
    requires |mid| >= 2 ==> Joint(mid[0], mid[1]) && mid[1].start % 0x1000 == 0
    requires |mid| >= 3 ==> Joint(mid[1], mid[2]) && mid[2].start % 0x1000 == 0
    requires if i > 0 then Joint(secs[i - 1], mid[0]) else mid[0].kind == Bad && mid[0].pages > 0
    requires if i + |was| < |secs| then Joint(mid[|mid| - 1], secs[i + |was|])
             else |mid| + i >= 2 && KeepsEnd(secs[|secs| - 1], mid[|mid| - 1], page, kind)
    requires mid[0].start == was[0].start && End(mid[|mid| - 1]) == End(was[|was| - 1])
    requires was[0].start <= page && page + 0x1000 <= End(was[|was| - 1])
    requires Recoloured(was, mid, page, kind)
    ensures Turned(secs, Replace(secs, i, i + |was|, mid), page, kind)
  {
    hide KindAt, SetsPage, Replace;
    assert secs[i..i + |was|] == was;
    forall x: nat ensures KindAt(mid, x) == Few(mid, x) && KindAt(was, x) == Few(was, x) {
      FewSections(mid, x);
      FewSections(was, x);
    }
    Rewrite(secs, i, i + |was|, mid, page, kind);
  }

  /** A page inside a section already has that section's state. */
  lemma InSection(secs: seq<Sec>, k: nat, page: nat)
    requires Touching(secs) && k < |secs| && secs[k].start <= page && page + 0x1000 <= End(secs[k])
    ensures SetsPage(secs, secs, page, secs[k].kind)
  {
    hide KindAt;
    forall a: nat | page <= a < page + 0x1000 ensures KindAt(secs, a) == Some(secs[k].kind) {
      SectionKind(secs, k, a);
    }
  }

  /** What a well-formed list says about the sections around `k`. */
  lemma Around(secs: seq<Sec>, k: nat)
    requires Formed(secs) && k < |secs|
    ensures Touching(secs)
    ensures k > 1 ==> Joint(secs[k - 2], secs[k - 1])
    ensures k > 0 ==> Joint(secs[k - 1], secs[k]) && secs[k - 1].start % 0x1000 == 0
    ensures k + 1 < |secs| ==> Joint(secs[k], secs[k + 1]) && secs[k + 1].start % 0x1000 == 0
    ensures k + 2 < |secs| ==> Joint(secs[k + 1], secs[k + 2])
    ensures secs[k].start % 0x1000 == 0
    ensures secs[0].kind == Bad && secs[0].start == 0 && secs[0].pages > 0
    ensures |secs| >= 2
  {
  }

  // The ways a list changes when one page changes its state.

  /** A one-page section becomes USED and joins the USED sections on both sides. */
  lemma JoinBoth(secs: seq<Sec>, k: nat)
    requires Formed(secs) && 1 < k < |secs| - 1 && secs[k].pages == 1
    requires secs[k - 1].kind == Used == secs[k + 1].kind
    ensures var p, s, n := secs[k - 1], secs[k], secs[k + 1];
            Turned(secs, Replace(secs, k - 1, k + 2, [Sec(p.start, p.pages + 1 + n.pages, Used)]), s.start, Used)
  {
    hide KindAt, SetsPage, Formed, Chain, Touching, Replace;
    Around(secs, k);
    var p, s, n := secs[k - 1], secs[k], secs[k + 1];
    RewriteFew(secs, k - 1, [p, s, n], [Sec(p.start, p.pages + 1 + n.pages, Used)], s.start, Used);
  }

  /** A one-page section becomes USED and joins the USED section before it. */
  lemma JoinPrevious(secs: seq<Sec>, k: nat)
    requires Formed(secs) && 1 < k < |secs| - 1 && secs[k].pages == 1 && secs[k - 1].kind == Used
    ensures Turned(secs, Replace(secs, k - 1, k + 1, [Grown(secs[k - 1])]), secs[k].start, Used)
  {
    hide KindAt, SetsPage, Formed, Chain, Touching, Replace;
    Around(secs, k);
    RewriteFew(secs, k - 1, [secs[k - 1], secs[k]], [Grown(secs[k - 1])], secs[k].start, Used);
  }

  /** A one-page section becomes USED and joins the USED section behind it. */
  lemma JoinNext(secs: seq<Sec>, k: nat)
    requires Formed(secs) && 0 < k < |secs| - 1 && secs[k].pages == 1 && secs[k + 1].kind == Used
    ensures var s, n := secs[k], secs[k + 1];
            Turned(secs, Replace(secs, k, k + 2, [Sec(s.start, 1 + n.pages, Used)]), s.start, Used)
  {
    hide KindAt, SetsPage, Formed, Chain, Touching, Replace;
    Around(secs, k);
    RewriteFew(secs, k, [secs[k], secs[k + 1]], [Sec(secs[k].start, 1 + secs[k + 1].pages, Used)], secs[k].start, Used);
  }

  /** A one-page section changes its state where it is. */
  lemma Recolour(secs: seq<Sec>, k: nat, kind: Kind)
    requires Formed(secs) && 0 < k < |secs| - 1 && secs[k].pages == 1
    requires kind == Used || (secs[k - 1].kind != Free && secs[k + 1].kind != Free)
    ensures Turned(secs, Replace(secs, k, k + 1, [secs[k].(kind := kind)]), secs[k].start, kind)
  {
    hide KindAt, SetsPage, Formed, Chain, Touching, Replace;
    Around(secs, k);
    RewriteFew(secs, k, [secs[k]], [secs[k].(kind := kind)], secs[k].start, kind);
  }

  /** The last section, when it is a single FREE page, becomes USED where it is. */
  lemma RecolourLast(secs: seq<Sec>)
    requires Formed(secs)
    requires var last := |secs| - 1; secs[last].pages == 1 && secs[last].kind == Free && secs[last - 1].kind != Used
    ensures var last := |secs| - 1;
            var r := Replace(secs, last, last + 1, [secs[last].(kind := Used)]);
            Formed(r) && SetsPage(secs, r, secs[last].start, Used)
  {
    hide KindAt, SetsPage, Chain, Touching, Replace;
    var last := |secs| - 1;
    Around(secs, last);
    ChainOf(secs);
    var mid := [secs[last].(kind := Used)];
    OneSection(secs[last], secs[last].kind);
    OneSection(secs[last], Used);
    assert secs[last..last + 1] == [secs[last]];
    ReplaceChain(secs, last, last + 1, mid);
    ReplaceEnds(secs, last, last + 1, mid);
    RewriteKinds(secs, last, last + 1, mid, secs[last].start, Used);
  }

  lemma OneSection(s: Sec, kind: Kind)
    requires s.start % 0x1000 == 0
    ensures Chain([s.(kind := kind)])
    ensures forall x: nat :: s.start <= x < End(s) ==> KindAt([s.(kind := kind)], x) == Some(kind)
  {
  }

  /** The first page of a section goes over to the section before it. */
  lemma MoveFirst(secs: seq<Sec>, k: nat, kind: Kind)
    requires Formed(secs) && 1 < k < |secs| && secs[k - 1].kind == kind && secs[k].kind != kind
    requires secs[k].pages > 1 || (secs[k].pages == 1 && kind == Used && secs[k].kind == Free)
    ensures Turned(secs, Replace(secs, k - 1, k + 1, [Grown(secs[k - 1]), Behead(secs[k])]), secs[k].start, kind)
  {
    hide KindAt, SetsPage, Formed, Chain, Touching, Replace;
    Around(secs, k);
    RewriteFew(secs, k - 1, [secs[k - 1], secs[k]], [Grown(secs[k - 1]), Behead(secs[k])], secs[k].start, kind);
  }

  /** The first page of a section becomes a section of its own. */
  lemma SplitFirst(secs: seq<Sec>, k: nat, kind: Kind)
    requires Formed(secs) && 0 < k < |secs| && secs[k].pages > 1
    requires secs[k].kind != kind && (kind == Used || secs[k - 1].kind != Free)
    ensures Turned(secs, Replace(secs, k, k + 1, [Sec(secs[k].start, 1, kind), Behead(secs[k])]), secs[k].start, kind)
  {
    hide KindAt, SetsPage, Formed, Chain, Touching, Replace, Recoloured, Few, Turned;
    Around(secs, k);
    FirstApart(secs[k], kind);
    RewriteFew(secs, k, [secs[k]], [Sec(secs[k].start, 1, kind), Behead(secs[k])], secs[k].start, kind);
  }

  lemma FirstApart(s: Sec, kind: Kind)
    requires s.pages > 1 && s.kind != kind
    ensures Recoloured([s], [Sec(s.start, 1, kind), Behead(s)], s.start, kind)
  {
  }

  /** The last page of a section goes over to the section behind it. */
  lemma MoveLast(secs: seq<Sec>, k: nat, page: nat, d: nat, kind: Kind)
    requires Formed(secs) && page % 0x1000 == 0 && k < |secs| - 1 && secs[k].kind != kind == secs[k + 1].kind
    requires page == secs[k].start + d * 0x1000 && d > 0 && secs[k + 1].start == page + 0x1000
    ensures Turned(secs, Replace(secs, k, k + 2, [Sec(secs[k].start, d, secs[k].kind),
                                                  Sec(page, secs[k + 1].pages + 1, kind)]), page, kind)
  {
    hide KindAt, SetsPage, Formed, Chain, Touching, Replace;
    Around(secs, k);
    var s, n := secs[k], secs[k + 1];
    RewriteFew(secs, k, [s, n], [Sec(s.start, d, s.kind), Sec(page, n.pages + 1, kind)], page, kind);
  }

  /** The last page of a section becomes a section of its own. */
  lemma SplitLast(secs: seq<Sec>, k: nat, page: nat, d: nat, kind: Kind)
    requires Formed(secs) && page % 0x1000 == 0 && k < |secs| - 1 && secs[k].kind != kind
    requires kind == Used || (kind == Free && secs[k + 1].kind != Free)
    requires page == secs[k].start + d * 0x1000 && d > 0 && secs[k + 1].start == page + 0x1000
    ensures Turned(secs, Replace(secs, k, k + 1, [Sec(secs[k].start, d, secs[k].kind), Sec(page, 1, kind)]), page, kind)
  {
    hide KindAt, SetsPage, Formed, Chain, Touching, Replace;
    Around(secs, k);
    var s := secs[k];
    RewriteFew(secs, k, [s], [Sec(s.start, d, s.kind), Sec(page, 1, kind)], page, kind);
  }

  /** A page in the middle of a section becomes a section of its own. */
  lemma SplitMiddle(secs: seq<Sec>, k: nat, page: nat, d: nat)
    requires Formed(secs) && page % 0x1000 == 0 && k < |secs| - 1 && secs[k].kind != Used
    requires page == secs[k].start + d * 0x1000 && d > 0 && page + 0x1000 < secs[k + 1].start
    ensures d + 1 < secs[k].pages
    ensures Turned(secs, Replace(secs, k, k + 1, [Sec(secs[k].start, d, secs[k].kind), Sec(page, 1, Used),
                                                  Sec(page + 0x1000, secs[k].pages - d - 1, secs[k].kind)]), page, Used)
  {
    hide KindAt, SetsPage, Formed, Chain, Touching, Replace, Recoloured, Few, Turned;
    Around(secs, k);
    var s := secs[k];
    MiddleApart(s, page, d);
    RewriteFew(secs, k, [s], [Sec(s.start, d, s.kind), Sec(page, 1, Used),
                              Sec(page + 0x1000, s.pages - d - 1, s.kind)], page, Used);
  }

  lemma MiddleApart(s: Sec, page: nat, d: nat)
    requires page == s.start + d * 0x1000 && d > 0 && page + 0x1000 < End(s) && s.kind != Used
    ensures d + 1 < s.pages
    ensures var mid := [Sec(s.start, d, s.kind), Sec(page, 1, Used), Sec(page + 0x1000, s.pages - d - 1, s.kind)];
            Recoloured([s], mid, page, Used) && End(mid[2]) == End(s)
  {
  }

  lemma AlignedGap(a: nat, b: nat)
    requires a % 0x1000 == 0 && b % 0x1000 == 0 && a <= b
    ensures b == a + PagesBetween(a, b) * 0x1000
  {
  }

  lemma LockStart(secs: seq<Sec>, k: nat, page: nat)
    requires Formed(secs) && page % 0x1000 == 0
    requires 0 < k < |secs| && secs[k].start == page && secs[k].pages > 0
    requires k == |secs| - 1 ==> secs[k].pages > 1
    ensures Turned(secs, LockAt(secs, k, page), page, Used)
  {
    Around(secs, k);
    ChainOf(secs);
    hide KindAt, SetsPage, Formed, Chain, Touching, Replace, Turned, Grown, Behead, Joint;
    var p, s := secs[k - 1], secs[k];
    if s.pages == 1 {
      var n := secs[k + 1];
      if p.kind == Used && n.kind == Used {
        JoinBoth(secs, k);
      } else if p.kind == Used {
        JoinPrevious(secs, k);
      } else if n.kind == Used {
        JoinNext(secs, k);
      } else {
        Recolour(secs, k, Used);
      }
    } else if s.kind == Used {
      Unturned(secs, k, page);
    } else if p.kind == Used {
      MoveFirst(secs, k, Used);
    } else {
      SplitFirst(secs, k, Used);
    }
  }

  /** A page inside a section is in that section's state already. */
  lemma Unturned(secs: seq<Sec>, k: nat, page: nat)
    requires Formed(secs) && k < |secs| && secs[k].start <= page && page + 0x1000 <= End(secs[k])
    ensures Turned(secs, secs, page, secs[k].kind)
  {
    hide KindAt, SetsPage;
    InSection(secs, k, page);
    LastLater(secs, k + 1, page);
  }

  lemma LockInside(secs: seq<Sec>, k: nat, page: nat)
    requires Formed(secs) && page % 0x1000 == 0
    requires k < |secs| - 1 && secs[k].start < page < secs[k + 1].start
    ensures Turned(secs, LockAt(secs, k, page), page, Used)
  {
    Around(secs, k);
    ChainOf(secs);
    hide KindAt, SetsPage, Formed, Chain, Touching, Replace, Turned, PagesBetween;
    var s, n := secs[k], secs[k + 1];
    AlignedGap(s.start, page);
    var d := PagesBetween(s.start, page);
    if s.kind == Used {
      Unturned(secs, k, page);
    } else if n.start == page + 0x1000 {
      if n.kind == Used {
        MoveLast(secs, k, page, d, Used);
      } else {
        SplitLast(secs, k, page, d, Used);
      }
    } else {
      SplitMiddle(secs, k, page, d);
    }
  }

  lemma ChainOf(secs: seq<Sec>)
    requires Formed(secs)
    ensures Chain(secs)
  {
  }

  /** The pages `pmm_lock_page` can be asked for without following a NULL link: those before the last
      section, and the first of the last section when it has others. */
  predicate Lockable(secs: seq<Sec>, page: nat) {
    && secs != [] && page % 0x1000 == 0 && 0 < page
    && var last := secs[|secs| - 1]; page < last.start || (page == last.start && last.pages > 1)
  }

  lemma FindLockable(secs: seq<Sec>, page: nat)
    requires Formed(secs) && Lockable(secs, page) && forall s :: s in secs && s.pages == 0 ==> s.start != page
    ensures var k := Find(secs, 0, page);
            && k < |secs| && (k == |secs| - 1 ==> secs[k].start == page) && secs[k].start <= page
            && (k < |secs| - 1 ==> secs[k].start == page || page < secs[k + 1].start)
            && forall i :: 0 <= i < k ==> secs[i].start < page
  {
    var last := |secs| - 1;
    if page < secs[last].start {
      FindStops(secs, 0, page);
    } else {
      assert secs[last - 1] in secs && Joint(secs[last - 1], secs[last]);
      FindIs(secs, 0, page, last);
      forall i | 0 <= i < last ensures secs[i].start < page {
        StartsBefore(secs, i, last - 1);
      }
    }
  }

  /** `pmm_lock_page` makes the page USED and touches no other, whatever state the page was in,
      when no empty section starts at it. */
  lemma LockSets(secs: seq<Sec>, page: nat)
    requires Formed(secs) && Lockable(secs, page)
    requires forall s :: s in secs && s.pages == 0 ==> s.start != page
    ensures Turned(secs, LockSecs(secs, page), page, Used)
  {
    hide LockAt, Turned, KindAt;
    FindLockable(secs, page);
    var k := Find(secs, 0, page);
    if secs[k].start == page {
      assert secs[k] in secs;
      LockStart(secs, k, page);
    } else {
      LockInside(secs, k, page);
    }
  }

  /** An empty section that starts at the page is taken for the page's own section: its page count
      wraps around, and the list no longer describes memory. */
  lemma LockBreaks(secs: seq<Sec>, page: nat, e: nat)
    requires Formed(secs) && Lockable(secs, page)
    requires e < |secs| && secs[e].pages == 0 && secs[e].start == page
    ensures !Formed(LockSecs(secs, page))
    ensures LockSecs(secs, page) == secs[e - 1 := secs[e - 1].(pages := secs[e - 1].pages + 1)]
                                        [e := Sec(page + 0x1000, 0xFFFF_FFFF_FFFF_FFFF, Free)]
  {
    hide Formed, Touching;
    Around(secs, e);
    assert Chain(secs) by { ChainOf(secs); }
    FindIs(secs, 0, page, e);
    var r := LockSecs(secs, page);
    assert r[e] == Behead(secs[e]) && r[e + 1] == secs[e + 1];
    if Formed(r) {
      Around(r, e);
    }
  }

  /** `pmm_lock_page` follows the NULL link behind the last section: its search gets there, and the page
      lies behind that section's start or is all of the section. */
  predicate ReadsNull(secs: seq<Sec>, page: nat) {
    && secs != []
    && var last := secs[|secs| - 1];
       Find(secs, 0, page) >= |secs| - 1 && (last.start < page || (last.start == page && last.pages == 1))
  }

  /** It does so for exactly the pages that cannot be locked. */
  lemma LockReadsNull(secs: seq<Sec>, page: nat)
    requires Formed(secs) && page % 0x1000 == 0 && 0 < page
    requires forall s :: s in secs && s.pages == 0 ==> s.start != page
    ensures ReadsNull(secs, page) <==> !Lockable(secs, page)
  {
    var last, k := |secs| - 1, Find(secs, 0, page);
    Around(secs, last);
    assert secs[last] in secs && secs[last - 1] in secs;
    if page < secs[last].start {
      FindStops(secs, 0, page);
    } else if page == secs[last].start {
      FindIs(secs, 0, page, last);
    } else if k < last {
      StartsBefore(secs, k, last);
      StartsBefore(secs, k + 1, last);
    }
  }

  /** The search stops at a section that holds the page when the one before it starts lower. */
  lemma {:induction false} FindIs(secs: seq<Sec>, k: nat, page: nat, e: nat)
    requires Chain(secs) && secs != [] && secs[0].pages > 0 && k <= e < |secs|
    requires Holds(secs, e, page) && (e > 0 ==> secs[e - 1].start < page)
    ensures Find(secs, k, page) == e
    decreases e - k
  {
    if k < e {
      StartsBefore(secs, k, e - 1);
      StartsBefore(secs, k + 1, e);
      FindIs(secs, k + 1, page, e);
    }
  }

  /** Sections start in address order; only an empty one shares its start with the next. */
  lemma {:induction false} StartsBefore(secs: seq<Sec>, i: nat, j: nat)
    requires Chain(secs) && i <= j < |secs| && secs[0].pages > 0
    ensures secs[i].start <= secs[j].start
    ensures i < j && secs[i].pages > 0 ==> End(secs[i]) <= secs[j].start && secs[i].start < secs[j].start
    ensures i < j && secs[j].pages == 0 ==> secs[i].start < secs[j].start
    decreases j - i
  {
    if i < j {
      assert Joint(secs[i], secs[i + 1]);
      StartsBefore(secs, i + 1, j);
      if secs[j].pages == 0 {
        assert Joint(secs[j - 1], secs[j]);
        assert j > 1 ==> Joint(secs[j - 2], secs[j - 1]);
        StartsBefore(secs, i, j - 1);
      }
    }
  }

  /** `pmm_lock_page` does its work exactly when no empty section starts at the page. */
  lemma LockWorks(secs: seq<Sec>, page: nat)
    requires Formed(secs) && Lockable(secs, page)
    ensures Turned(secs, LockSecs(secs, page), page, Used)
            <==> forall s :: s in secs && s.pages == 0 ==> s.start != page
  {
    hide Formed, SetsPage, LockSecs;
    if forall s :: s in secs && s.pages == 0 ==> s.start != page {
      LockSets(secs, page);
    } else {
      var e :| 0 <= e < |secs| && secs[e].pages == 0 && secs[e].start == page;
      LockBreaks(secs, page, e);
    }
  }

  /** A one-page FREE section behind a USED one and before BAD memory. */
  function Cramped(): seq<Sec> {
    [Sec(0, 1, Bad), Sec(0x1000, 1, Used), Sec(0x2000, 1, Free), Sec(0x3000, 1, Bad), Sec(0x4000, 1, Bad)]
  }

  function Emptied(): seq<Sec> {
    [Sec(0, 1, Bad), Sec(0x1000, 2, Used), Sec(0x3000, 0, Free), Sec(0x3000, 1, Bad), Sec(0x4000, 1, Bad)]
  }

  /** It does fail, and in a state the manager reaches: an allocation empties the FREE section, and
      locking the BAD page behind it meets the empty section first. */
  lemma LockFails()
    ensures WellFormed(Cramped()) && AllocSecs(Cramped()) == (Emptied(), 0x2000) && WellFormed(Emptied())
    ensures !Formed(LockSecs(Emptied(), 0x3000))
  {
    hide AllocSecs, LockSecs;
    CrampedAlloc();
    LockBreaks(Emptied(), 0x3000, 2);
  }

  lemma CrampedAlloc()
    ensures AllocSecs(Cramped()) == (Emptied(), 0x2000)
  {
    var secs := Cramped();
    var a, b := secs[0], secs[1];
    assert secs[..2] == [a, b] && secs[3..] == [secs[3], secs[4]] && [a, b][1..] == [b] && [b][1..] == [];
    assert FirstFree(secs, 2) == 2 && FirstFree(secs, 1) == 2 && FirstFree(secs, 0) == 2;
    assert DropEmpty([b]) == [b];
    assert DropEmpty([a, b]) == [a, b];
    assert TakePage([a, b], secs[2]) == [a, Sec(0x1000, 2, Used), Sec(0x3000, 0, Free)];
    assert TakePage([a, b], secs[2]) + [secs[3], secs[4]] == Emptied();
  }

  // ---------------------------------------------------------------- freeing

  /** `pmm_free_page` once the search has stopped at section `k`. */
  function FreeAt(secs: seq<Sec>, k: nat, page: nat): seq<Sec>
    requires k < |secs|
  {
    var s := secs[k];
    if s.kind == Free || (k == 0 && s.start == page) then secs
    else if s.start == page then
      var p := secs[k - 1];
      if s.pages == 1 && k + 1 < |secs| then
        if p.kind == Free || secs[k + 1].kind == Free then secs
        else Replace(secs, k, k + 1, [s.(kind := Free)])
      else if p.kind == Free then
        Replace(secs, k - 1, k + 1, [Grown(p), Behead(s)])
      else
        Replace(secs, k, k + 1, [Sec(page, 1, Free), Behead(s)])
    else if s.start < page && k + 1 < |secs| && secs[k + 1].start == page + 0x1000 then
      var n := secs[k + 1];
      var before := Sec(s.start, PagesBetween(s.start, page), s.kind);
      if n.kind == Free then
        Replace(secs, k, k + 2, [before, Sec(page, n.pages + 1, Free)])
      else
        Replace(secs, k, k + 1, [before, Sec(page, 1, Free)])
    else secs
  }

  function FreeSecs(secs: seq<Sec>, page: nat): seq<Sec> {
    var k := Find(secs, 0, page);
    if k == |secs| then secs else FreeAt(secs, k, page)
  }

  /** `pmm_free_page` follows the NULL link behind the last section: its search gets there, and the page
      lies behind that section's start or is all of it, which is not FREE. */
  predicate FreeReadsNull(secs: seq<Sec>, page: nat) {
    && secs != []
    && var last := secs[|secs| - 1];
       Find(secs, 0, page) >= |secs| - 1
       && (last.start < page || (last.start == page && last.pages == 1 && last.kind != Free))
  }

  /** When `pmm_free_page` does anything: the section found is not FREE, and the page is either the
      first of several, the only one between two that are not FREE, or the last of several. */
  predicate Freeable(secs: seq<Sec>, page: nat) {
    var k := Find(secs, 0, page);
    && k < |secs| && secs[k].kind != Free
    && if secs[k].start == page then
         && k > 0
         && (secs[k].pages > 1 || (k + 1 < |secs| && secs[k - 1].kind != Free && secs[k + 1].kind != Free))
       else k + 1 < |secs| && secs[k + 1].start == page + 0x1000
  }

  /** Where the search of `pmm_free_page` stops. */
  lemma FindFreeable(secs: seq<Sec>, page: nat)
    requires Formed(secs) && 0 < page && !FreeReadsNull(secs, page)
    ensures var k := Find(secs, 0, page);
            && k < |secs| && secs[k].start <= page && (secs[k].start == page ==> k > 0)
            && (k < |secs| - 1 ==> secs[k].start == page || page < secs[k + 1].start)
            && (k == |secs| - 1 ==> secs[k].start == page && (secs[k].kind == Free || secs[k].pages > 1))
  {
    var last, k := |secs| - 1, Find(secs, 0, page);
    Around(secs, last);
    if page < secs[last].start {
      FindStops(secs, 0, page);
    } else if k < last {
      StartsBefore(secs, k, last);
      StartsBefore(secs, k + 1, last);
    } else if page == secs[last].start {
      assert Holds(secs, last, page);
    }
  }

  /** It does so for exactly the pages behind the start of the last section, and for that start when the
      section is a single page that is not FREE; an empty section before it is met first. */
  lemma FreeReadsNullAt(secs: seq<Sec>, page: nat)
    requires Formed(secs) && 0 < page
    ensures var n := |secs|; var last := secs[n - 1];
            FreeReadsNull(secs, page)
            <==> page > last.start
                 || (page == last.start && last.pages == 1 && last.kind != Free && secs[n - 2].pages > 0)
  {
    var last, k := |secs| - 1, Find(secs, 0, page);
    Around(secs, last);
    if page < secs[last].start {
      FindStops(secs, 0, page);
    } else if page > secs[last].start {
      if k < last {
        StartsBefore(secs, k, last);
        StartsBefore(secs, k + 1, last);
      }
    } else if secs[last - 1].pages == 0 {
      assert Holds(secs, last - 1, page);
    } else if k < last {
      StartsBefore(secs, k, last - 1);
      StartsBefore(secs, k + 1, last);
    }
  }

  /** In every branch `pmm_free_page` makes the page FREE or changes nothing at all. */
  lemma FreeSets(secs: seq<Sec>, page: nat)
    requires Formed(secs) && 0 < page && page % 0x1000 == 0 && !FreeReadsNull(secs, page)
    ensures if Freeable(secs, page) then Turned(secs, FreeSecs(secs, page), page, Free)
            else FreeSecs(secs, page) == secs
  {
    hide KindAt, Formed, Chain, Touching, Replace, FreeAt, Turned;
    FindFreeable(secs, page);
    var k := Find(secs, 0, page);
    if Freeable(secs, page) {
      if secs[k].start == page {
        FreeStart(secs, k, page);
      } else {
        FreeInside(secs, k, page);
      }
    } else {
      FreeNothing(secs, k, page);
    }
  }

  lemma FreeNothing(secs: seq<Sec>, k: nat, page: nat)
    requires Formed(secs) && k < |secs| && k == Find(secs, 0, page) && !Freeable(secs, page)
    requires k == |secs| - 1 ==> secs[k].start == page && (secs[k].kind == Free || secs[k].pages > 1)
    ensures FreeAt(secs, k, page) == secs
  {
    hide KindAt, Formed, Chain, Touching, Replace;
    Around(secs, k);
  }

  lemma FreeStart(secs: seq<Sec>, k: nat, page: nat)
    requires Formed(secs) && page % 0x1000 == 0 && 0 < k < |secs| && secs[k].start == page
    requires secs[k].kind != Free
    requires secs[k].pages > 1 || (k < |secs| - 1 && secs[k - 1].kind != Free && secs[k + 1].kind != Free)
    ensures Turned(secs, FreeAt(secs, k, page), page, Free)
  {
    hide KindAt, SetsPage, Formed, Chain, Touching, Replace, Turned, Grown, Behead;
    Around(secs, k);
    if secs[k].pages == 1 {
      Recolour(secs, k, Free);
    } else if secs[k - 1].kind == Free {
      FirstIsBad(secs);
      MoveFirst(secs, k, Free);
    } else {
      SplitFirst(secs, k, Free);
    }
  }

  lemma FirstIsBad(secs: seq<Sec>)
    requires Formed(secs)
    ensures secs[0].kind == Bad
  {
  }

  lemma FreeInside(secs: seq<Sec>, k: nat, page: nat)
    requires Formed(secs) && page % 0x1000 == 0 && k < |secs| - 1 && secs[k].kind != Free
    requires secs[k].start < page && secs[k + 1].start == page + 0x1000
    ensures Turned(secs, FreeAt(secs, k, page), page, Free)
  {
    Around(secs, k);
    ChainOf(secs);
    hide KindAt, SetsPage, Formed, Chain, Touching, Replace, Turned, PagesBetween;
    AlignedGap(secs[k].start, page);
    var d := PagesBetween(secs[k].start, page);
    if secs[k + 1].kind == Free {
      MoveLast(secs, k, page, d, Free);
    } else {
      SplitLast(secs, k, page, d, Free);
    }
  }

  /** When that is, said of the section the page lies in: it is not FREE, no empty section starts at the
      page, and the page is its last of several, its first of several, or its only one and between two
      that are not FREE. */
  lemma FreeableIs(secs: seq<Sec>, page: nat, k: nat)
    requires Formed(secs) && 0 < page && page % 0x1000 == 0 && !FreeReadsNull(secs, page)
    requires k < |secs| && secs[k].start <= page < End(secs[k])
    ensures var s, last := secs[k], |secs| - 1;
            Freeable(secs, page)
            <==> && s.kind != Free && (k > 0 && page == s.start ==> secs[k - 1].pages > 0)
                 && if page > s.start then page + 0x1000 == End(s)
                    else s.pages > 1 || (k < last && secs[k - 1].kind != Free && secs[k + 1].kind != Free)
  {
    hide KindAt, Chain, Touching, Find;
    Around(secs, k);
    FindAt(secs, page, k);
  }

  /** The search for a page inside a section stops at it, or at an empty one that starts there too. */
  lemma FindAt(secs: seq<Sec>, page: nat, k: nat)
    requires Formed(secs) && 0 < page && page % 0x1000 == 0 && !FreeReadsNull(secs, page)
    requires k < |secs| && secs[k].start <= page < End(secs[k])
    ensures Find(secs, 0, page) == if k > 0 && page == secs[k].start && secs[k - 1].pages == 0 then k - 1 else k
    ensures k > 0 && page == secs[k].start && secs[k - 1].pages == 0 ==>
              secs[k - 1].kind == Free && secs[k - 1].start == page
    ensures k == |secs| - 1 && (page == secs[k].start ==> secs[k - 1].pages > 0) ==> page == secs[k].start
    ensures page == secs[k].start ==> k > 0
  {
    hide Touching, FreeReadsNull;
    Around(secs, k);
    ChainOf(secs);
    if k > 0 && page == secs[k].start && secs[k - 1].pages == 0 {
      if k > 1 {
        StartsBefore(secs, k - 2, k - 1);
      }
      FindIs(secs, 0, page, k - 1);
    } else if k == |secs| - 1 {
      LastHolds(secs, page);
    } else {
      if k > 0 {
        StartsBefore(secs, k - 1, k);
      }
      FindIs(secs, 0, page, k);
    }
  }

  /** A page of the last section that does not lead to the NULL link is the section's first. */
  lemma LastHolds(secs: seq<Sec>, page: nat)
    requires Formed(secs) && 0 < page && !FreeReadsNull(secs, page)
    requires var last := |secs| - 1; secs[last].start <= page && (page == secs[last].start ==> secs[last - 1].pages > 0)
    ensures page == secs[|secs| - 1].start && Find(secs, 0, page) == |secs| - 1
  {
    FreeReadsNullAt(secs, page);
    ChainOf(secs);
    var last := |secs| - 1;
    StartsBefore(secs, last - 1, last);
    FindIs(secs, 0, page, last);
  }

  /** Freeing leaves the page FREE exactly when it was FREE already or one of the branches fires. */
  lemma FreeWorks(secs: seq<Sec>, page: nat)
    requires Formed(secs) && 0 < page && page % 0x1000 == 0 && !FreeReadsNull(secs, page)
    ensures KindAt(FreeSecs(secs, page), page) == Some(Free)
            <==> Freeable(secs, page) || KindAt(secs, page) == Some(Free)
  {
    hide KindAt, Formed, Freeable, FreeSecs, FreeReadsNull;
    FreeSets(secs, page);
  }

  /** It does fail: the middle page of three in use stays in use. */
  lemma FreeFails()
    ensures var secs := [Sec(0, 1, Bad), Sec(0x1000, 3, Used), Sec(0x4000, 1, Bad)];
            && WellFormed(secs) && KindAt(secs, 0x2000) == Some(Used)
            && FreeSecs(secs, 0x2000) == secs
  {
    var secs := [Sec(0, 1, Bad), Sec(0x1000, 3, Used), Sec(0x4000, 1, Bad)];
    assert Find(secs, 0, 0x2000) == 1;
    FewSections(secs, 0x2000);
  }

  // ---------------------------------------------------------------- allocating

  /** The list without its empty sections. */
  function DropEmpty(secs: seq<Sec>): (r: seq<Sec>)
    ensures |r| <= |secs|
  {
    if secs == [] then []
    else if secs[0].pages == 0 then DropEmpty(secs[1..])
    else [secs[0]] + DropEmpty(secs[1..])
  }

  predicate Takeable(s: Sec) {
    s.pages > 0 && s.kind == Free
  }

  /** The first section with a free page, from `k` on. */
  function FirstFree(secs: seq<Sec>, k: nat): (r: nat)
    requires k <= |secs|
    ensures k <= r <= |secs|
    ensures r < |secs| ==> Takeable(secs[r])
    ensures forall i :: k <= i < r ==> !Takeable(secs[i])
    decreases |secs| - k
  {
    if k == |secs| || Takeable(secs[k]) then k else FirstFree(secs, k + 1)
  }

  /** The first page of the free section `s` handed over to the sections before it. */
  function TakePage(pre: seq<Sec>, s: Sec): seq<Sec>
    requires pre != []
  {
    var p := pre[|pre| - 1];
    if p.kind == Used then pre[..|pre| - 1] + [Grown(p), Behead(s)]
    else if s.pages == 1 then pre + [s.(kind := Used)]
    else pre + [Sec(s.start, 1, Used), Behead(s)]
  }

  /** `pmm_alloc_page`: the new list, and the address of the page or zero, which is NULL. */
  function AllocSecs(secs: seq<Sec>): (seq<Sec>, nat) {
    var k := FirstFree(secs, 0);
    var pre := DropEmpty(secs[..k]);
    if k == |secs| || pre == [] then (pre, 0)
    else (TakePage(pre, secs[k]) + secs[k + 1..], secs[k].start)
  }

  /** The page is split off a longer section, which takes a new slot. */
  predicate AllocSplits(secs: seq<Sec>) {
    var k := FirstFree(secs, 0);
    var pre := DropEmpty(secs[..k]);
    k < |secs| && secs[k].pages > 1 && pre != [] && pre[|pre| - 1].kind != Used
  }

  /** What the scan of `pmm_alloc_page` drops on its way to section `k`. */
  function Cleaned(secs: seq<Sec>, k: nat): seq<Sec>
    requires k <= |secs|
  {
    DropEmpty(secs[..k]) + secs[k..]
  }

  lemma {:induction false} DropEmptyConcat(a: seq<Sec>, b: seq<Sec>)
    ensures DropEmpty(a + b) == DropEmpty(a) + DropEmpty(b)
  {
    if a == [] {
      assert a + b == b;
    } else {
      assert (a + b)[1..] == a[1..] + b;
      DropEmptyConcat(a[1..], b);
    }
  }

  /** Dropping empty sections changes the state of no address. */
  lemma {:induction false} DropEmptyKinds(secs: seq<Sec>, x: nat)
    ensures KindAt(DropEmpty(secs), x) == KindAt(secs, x)
  {
    if secs != [] {
      DropEmptyKinds(secs[1..], x);
      if secs[0].pages > 0 {
        assert DropEmpty(secs)[1..] == DropEmpty(secs[1..]);
      }
    }
  }

  function Without(secs: seq<Sec>, k: nat): seq<Sec>
    requires k < |secs|
  {
    secs[..k] + secs[k + 1..]
  }

  /** Removing an empty section before the last one keeps the list in form. */
  lemma RemoveOne(secs: seq<Sec>, k: nat)
    requires Formed(secs) && k < |secs| - 1 && secs[k].pages == 0
    ensures 0 < k && Formed(Without(secs, k))
    ensures Without(secs, k)[|Without(secs, k)| - 1] == secs[|secs| - 1]
  {
    var r := Without(secs, k);
    assert k > 0 && Joint(secs[k - 1], secs[k]);
    assert Joint(secs[k], secs[k + 1]);
    forall i, j | 0 <= i < j < |r| && j == i + 1 ensures Joint(r[i], r[j]) {
      if j < k {
        assert Joint(secs[i], secs[j]);
      } else if j > k {
        assert Joint(secs[i + 1], secs[j + 1]);
      }
    }
  }

  lemma {:induction false} CleanedFormed(secs: seq<Sec>, k: nat)
    requires Formed(secs) && k <= |secs| && (k == |secs| ==> secs[k - 1].pages > 0)
    ensures Formed(Cleaned(secs, k)) && Cleaned(secs, k)[|Cleaned(secs, k)| - 1] == secs[|secs| - 1]
  {
    hide Formed, DropEmpty, Cleaned, Without;
    if k > 0 {
      CleanedFormed(secs, k - 1);
      CleanedStep(secs, k - 1);
      CleanedLength(secs, k - 1);
      if secs[k - 1].pages == 0 {
        RemoveOne(Cleaned(secs, k - 1), |DropEmpty(secs[..k - 1])|);
      }
    } else {
      CleanedNone(secs);
    }
  }

  lemma CleanedNone(secs: seq<Sec>)
    ensures Cleaned(secs, 0) == secs
  {
  }

  lemma CleanedLength(secs: seq<Sec>, k: nat)
    requires k <= |secs|
    ensures |Cleaned(secs, k)| == |DropEmpty(secs[..k])| + |secs| - k
  {
  }

  /** One step of the scan: an empty section is dropped, any other is passed. */
  lemma CleanedStep(secs: seq<Sec>, k: nat)
    requires k < |secs|
    ensures var i := |DropEmpty(secs[..k])|;
            && i < |Cleaned(secs, k)| && Cleaned(secs, k)[i] == secs[k]
            && (secs[k].pages == 0 ==>
                  && DropEmpty(secs[..k + 1]) == DropEmpty(secs[..k])
                  && Cleaned(secs, k + 1) == Without(Cleaned(secs, k), i))
            && (secs[k].pages > 0 ==>
                  && DropEmpty(secs[..k + 1]) == DropEmpty(secs[..k]) + [secs[k]]
                  && Cleaned(secs, k + 1) == Cleaned(secs, k))
  {
    DropEmptyConcat(secs[..k], [secs[k]]);
    assert secs[..k + 1] == secs[..k] + [secs[k]];
    assert secs[k..] == [secs[k]] + secs[k + 1..];
    assert DropEmpty([secs[k]]) == if secs[k].pages == 0 then [] else [secs[k]];
  }

  lemma {:induction false} KindAtWitness(secs: seq<Sec>, a: nat)
    requires KindAt(secs, a).Some?
    ensures exists j :: 0 <= j < |secs| && secs[j].start <= a < End(secs[j]) && KindAt(secs, a) == Some(secs[j].kind)
  {
    if !(secs[0].start <= a < End(secs[0])) {
      KindAtWitness(secs[1..], a);
      var j :| 0 <= j < |secs[1..]| && secs[1..][j].start <= a < End(secs[1..][j])
               && KindAt(secs[1..], a) == Some(secs[1..][j].kind);
      assert secs[j + 1] == secs[1..][j];
    }
  }

  /** No free address lies below the first section with a free page. */
  lemma LowestFree(secs: seq<Sec>, a: nat)
    requires Formed(secs) && KindAt(secs, a) == Some(Free)
    ensures FirstFree(secs, 0) < |secs| && secs[FirstFree(secs, 0)].start <= a
  {
    KindAtWitness(secs, a);
    var j :| 0 <= j < |secs| && secs[j].start <= a < End(secs[j]) && KindAt(secs, a) == Some(secs[j].kind);
    assert Takeable(secs[j]);
    StartsBefore(secs, FirstFree(secs, 0), j);
  }

  lemma CleanedKinds(secs: seq<Sec>, k: nat)
    requires k <= |secs|
    ensures SameKinds(secs, Cleaned(secs, k))
  {
    hide KindAt, DropEmpty;
    assert secs == secs[..k] + secs[k..];
    forall a: nat ensures KindAt(Cleaned(secs, k), a) == KindAt(secs, a) {
      KindAtConcat(secs[..k], secs[k..], a);
      KindAtConcat(DropEmpty(secs[..k]), secs[k..], a);
      DropEmptyKinds(secs[..k], a);
    }
  }

  /** Handing over the first page of the free section at `i`. */
  lemma TakeAt(secs: seq<Sec>, i: nat)
    requires Formed(secs) && 0 < i < |secs| && Takeable(secs[i])
    ensures var r := TakePage(secs[..i], secs[i]) + secs[i + 1..];
            && Formed(r) && SetsPage(secs, r, secs[i].start, Used)
            && (WellFormed(secs) ==> WellFormed(r))
  {
    Around(secs, i);
    hide KindAt, SetsPage, Formed, Chain, Touching, Replace, TakePage, Grown, Behead, KeepsEnd;
    TakeIsReplace(secs, i);
    if secs[i - 1].kind == Used {
      MoveFirst(secs, i, Used);
    } else if secs[i].pages > 1 {
      SplitFirst(secs, i, Used);
    } else if i < |secs| - 1 {
      Recolour(secs, i, Used);
    } else {
      RecolourLast(secs);
    }
  }

  lemma TakeIsReplace(secs: seq<Sec>, i: nat)
    requires 0 < i < |secs|
    ensures TakePage(secs[..i], secs[i]) + secs[i + 1..] ==
      if secs[i - 1].kind == Used then Replace(secs, i - 1, i + 1, [Grown(secs[i - 1]), Behead(secs[i])])
      else if secs[i].pages == 1 then Replace(secs, i, i + 1, [secs[i].(kind := Used)])
      else Replace(secs, i, i + 1, [Sec(secs[i].start, 1, Used), Behead(secs[i])])
  {
    assert secs[..i][..i - 1] == secs[..i - 1];
  }

  /** `pmm_alloc_page` follows the NULL link behind the last section: no section has a free page, and
      the last one is empty. */
  predicate ScanReadsNull(secs: seq<Sec>) {
    secs != [] && FirstFree(secs, 0) == |secs| && secs[|secs| - 1].pages == 0
  }

  lemma ScanReadsNullAt(secs: seq<Sec>)
    requires secs != []
    ensures ScanReadsNull(secs)
            <==> secs[|secs| - 1].pages == 0 && forall s :: s in secs ==> s.kind != Free || s.pages == 0
  {
    var k := FirstFree(secs, 0);
    if k < |secs| {
      assert secs[k] in secs;
    } else {
      forall s | s in secs ensures s.kind != Free || s.pages == 0 {
        var i :| 0 <= i < |secs| && secs[i] == s;
        assert !Takeable(secs[i]);
      }
    }
  }

  /** `pmm_alloc_page` returns the lowest free page and marks it USED, or NULL when no page is free;
      no other address changes its state, whatever empty sections the scan removed. */
  lemma AllocRefines(secs: seq<Sec>)
    requires Formed(secs) && !ScanReadsNull(secs)
    ensures var (secs', r) := AllocSecs(secs);
            && Formed(secs') && (WellFormed(secs) ==> WellFormed(secs'))
            && (r == 0 ==> SameKinds(secs, secs') && forall a: nat :: KindAt(secs, a) != Some(Free))
            && (r != 0 ==> SetsPage(secs, secs', r, Used) && KindAt(secs, r) == Some(Free) && r % 0x1000 == 0
                           && forall a: nat :: KindAt(secs, a) == Some(Free) ==> r <= a)
  {
    var k := FirstFree(secs, 0);
    var c, i := Cleaned(secs, k), |DropEmpty(secs[..k])|;
    CleanedFormed(secs, k);
    CleanedKinds(secs, k);
    forall a: nat | KindAt(secs, a) == Some(Free) ensures k < |secs| && secs[k].start <= a {
      LowestFree(secs, a);
    }
    if k < |secs| {
      CleanedStep(secs, k);
      AllocIsTake(secs, k);
      TakeAt(c, i);
      SectionKind(secs, k, secs[k].start);
      StartsBefore(secs, 0, k);
    } else {
      assert c == DropEmpty(secs[..k]);
    }
  }

  /** It does happen in a list that ends with FREE memory: the last free page is handed out, and the
      next scan comes to the section that held it. */
  lemma AllocFails()
    ensures Formed(OneLeft()) && AllocSecs(OneLeft()) == (NoneLeft(), 0x2000)
    ensures Formed(NoneLeft()) && ScanReadsNull(NoneLeft())
  {
    hide AllocSecs;
    OneLeftAlloc();
    assert FirstFree(NoneLeft(), 2) == 3 && FirstFree(NoneLeft(), 1) == 3 && FirstFree(NoneLeft(), 0) == 3;
  }

  lemma OneLeftAlloc()
    ensures AllocSecs(OneLeft()) == (NoneLeft(), 0x2000)
  {
    var secs := OneLeft();
    var a, b := secs[0], secs[1];
    assert secs[..2] == [a, b] && secs[3..] == [] && [a, b][1..] == [b] && [b][1..] == [];
    assert FirstFree(secs, 2) == 2 && FirstFree(secs, 1) == 2 && FirstFree(secs, 0) == 2;
    assert DropEmpty([b]) == [b];
    assert DropEmpty([a, b]) == [a, b];
    assert TakePage([a, b], secs[2]) == NoneLeft();
    assert NoneLeft() + [] == NoneLeft();
  }

  function OneLeft(): seq<Sec> {
    [Sec(0, 1, Bad), Sec(0x1000, 1, Used), Sec(0x2000, 1, Free)]
  }

  function NoneLeft(): seq<Sec> {
    [Sec(0, 1, Bad), Sec(0x1000, 2, Used), Sec(0x3000, 0, Free)]
  }

  lemma AllocIsTake(secs: seq<Sec>, k: nat)
    requires Formed(secs) && k == FirstFree(secs, 0) < |secs|
    ensures var c, i := Cleaned(secs, k), |DropEmpty(secs[..k])|;
            && 0 < i < |c| && c[i] == secs[k] && c[..i] == DropEmpty(secs[..k])
            && AllocSecs(secs) == (TakePage(c[..i], c[i]) + c[i + 1..], secs[k].start)
  {
    assert k > 0;
    assert secs[..k][0] == secs[0];
    assert DropEmpty(secs[..k]) != [];
    assert Cleaned(secs, k)[|DropEmpty(secs[..k])| + 1..] == secs[k + 1..];
  }

  /** Freeing the page just allocated restores the list, apart from the empty sections the scan
      dropped, exactly when the page had been added to a USED section or was a section of its own
      with another behind it. A page split off a longer section has a FREE neighbour and stays USED;
      for a page that was all of the last section the free follows the NULL link. */
  lemma FreeUndoesAlloc(secs: seq<Sec>)
    requires Formed(secs) && FirstFree(secs, 0) < |secs|
    ensures var k := FirstFree(secs, 0);
            var (secs', r) := AllocSecs(secs);
            var pre := DropEmpty(secs[..k]);
            && Formed(secs') && r % 0x1000 == 0 && pre != []
            && (FreeReadsNull(secs', r) <==> k == |secs| - 1 && pre[|pre| - 1].kind != Used && secs[k].pages == 1)
            && (!FreeReadsNull(secs', r) && FreeSecs(secs', r) == Cleaned(secs, k)
                <==> pre[|pre| - 1].kind == Used || (secs[k].pages == 1 && k < |secs| - 1))
  {
    var k := FirstFree(secs, 0);
    var c, i := Cleaned(secs, k), |DropEmpty(secs[..k])|;
    CleanedFormed(secs, k);
    CleanedStep(secs, k);
    CleanedLength(secs, k);
    AllocIsTake(secs, k);
    AllocRefines(secs);
    hide Formed, KindAt, DropEmpty, FirstFree, FreeReadsNull;
    FreeUndoesTake(c, i);
  }

  function TwoFree(): seq<Sec> {
    [Sec(0, 1, Bad), Sec(0x1000, 2, Free), Sec(0x3000, 1, Bad)]
  }

  function OneTaken(): seq<Sec> {
    [Sec(0, 1, Bad), Sec(0x1000, 1, Used), Sec(0x2000, 1, Free), Sec(0x3000, 1, Bad)]
  }

  /** It does fail: a page split off a FREE section behind BAD memory is not given back to it. */
  lemma FreeForgets()
    ensures WellFormed(TwoFree()) && AllocSecs(TwoFree()) == (OneTaken(), 0x1000)
    ensures FreeSecs(OneTaken(), 0x1000) == OneTaken() && OneTaken() != TwoFree()
  {
    hide KindAt;
    TwoFreeAlloc();
    assert Find(OneTaken(), 0, 0x1000) == 1;
  }

  lemma TwoFreeAlloc()
    ensures AllocSecs(TwoFree()) == (OneTaken(), 0x1000)
  {
    var secs := TwoFree();
    var a, c := secs[0], secs[2];
    assert secs[..1] == [a] && secs[2..] == [c] && [a][1..] == [];
    assert FirstFree(secs, 0) == 1;
    assert DropEmpty([a]) == [a];
    assert TakePage([a], secs[1]) == [a, Sec(0x1000, 1, Used), Sec(0x2000, 1, Free)];
    assert TakePage([a], secs[1]) + [c] == OneTaken();
  }

  lemma FreeUndoesTake(c: seq<Sec>, i: nat)
    requires Formed(c) && 0 < i < |c| && Takeable(c[i])
    ensures var r := TakePage(c[..i], c[i]) + c[i + 1..];
            && Formed(r) && c[i].start % 0x1000 == 0
            && (FreeReadsNull(r, c[i].start) <==> i == |c| - 1 && c[i - 1].kind != Used && c[i].pages == 1)
            && (!FreeReadsNull(r, c[i].start) && FreeSecs(r, c[i].start) == c
                <==> c[i - 1].kind == Used || (c[i].pages == 1 && i < |c| - 1))
  {
    Around(c, i);
    TakeAt(c, i);
    TakeIsReplace(c, i);
    hide Formed, Chain, KindAt, SetsPage, FreeSecs, TakePage, FreeReadsNull;
    if c[i - 1].kind == Used {
      FreeUndoesMove(c, i);
    } else if c[i].pages == 1 && i < |c| - 1 {
      FreeUndoesRecolour(c, i);
    } else if c[i].pages == 1 {
      FreeMeetsNull(c);
    } else {
      FreeKeepsSplit(c, i);
    }
  }

  lemma FreeUndoesMove(c: seq<Sec>, i: nat)
    requires Formed(c) && 0 < i < |c| && Takeable(c[i]) && c[i - 1].kind == Used
    ensures var r := Replace(c, i - 1, i + 1, [Grown(c[i - 1]), Behead(c[i])]);
            FreeSecs(r, c[i].start) == c && !FreeReadsNull(r, c[i].start)
  {
    hide KindAt, SetsPage, Chain, Touching, FreeAt, Replace, PagesBetween;
    var r := Replace(c, i - 1, i + 1, [Grown(c[i - 1]), Behead(c[i])]);
    Around(c, i);
    MoveFirst(c, i, Used);
    ChainOf(r);
    ReplaceBack(c, i, Grown(c[i - 1]), Behead(c[i]));
    FindIs(r, 0, c[i].start, i - 1);
    AlignedGap(c[i - 1].start, c[i].start);
    FreeMovedBack(r, i, c[i - 1], c[i]);
  }

  lemma ReplaceBack(c: seq<Sec>, i: nat, x: Sec, y: Sec)
    requires 0 < i < |c|
    ensures var r := Replace(c, i - 1, i + 1, [x, y]);
            && |r| == |c| && r[i - 1] == x && r[i] == y
            && (i > 1 ==> r[i - 2] == c[i - 2] && r[0] == c[0])
    ensures Replace(Replace(c, i - 1, i + 1, [x, y]), i - 1, i + 1, [c[i - 1], c[i]]) == c
  {
  }

  lemma FreeMovedBack(r: seq<Sec>, i: nat, p: Sec, s: Sec)
    requires 0 < i < |r| && r[i - 1] == Grown(p) && r[i] == Behead(s)
    requires p.kind == Used && s.kind == Free && End(p) == s.start && p.pages > 0 && s.pages > 0
    requires PagesBetween(p.start, s.start) == p.pages
    ensures FreeAt(r, i - 1, s.start) == Replace(r, i - 1, i + 1, [p, s])
  {
    hide Replace, PagesBetween;
  }

  lemma FreeUndoesRecolour(c: seq<Sec>, i: nat)
    requires Formed(c) && 0 < i < |c| - 1 && Takeable(c[i]) && c[i - 1].kind != Used && c[i].pages == 1
    ensures var r := Replace(c, i, i + 1, [c[i].(kind := Used)]);
            FreeSecs(r, c[i].start) == c && !FreeReadsNull(r, c[i].start)
  {
    hide KindAt, SetsPage, Chain, Touching, FreeAt, Replace;
    var r := Replace(c, i, i + 1, [c[i].(kind := Used)]);
    Around(c, i);
    Recolour(c, i, Used);
    ChainOf(r);
    OneReplaced(c, i, c[i].(kind := Used));
    FindIs(r, 0, c[i].start, i);
    FreeRecolours(r, i, c[i]);
  }

  lemma FreeMeetsNull(c: seq<Sec>)
    requires Formed(c)
    requires var last := |c| - 1; Takeable(c[last]) && c[last - 1].kind != Used && c[last].pages == 1
    ensures var last := |c| - 1; FreeReadsNull(Replace(c, last, last + 1, [c[last].(kind := Used)]), c[last].start)
  {
    hide KindAt, SetsPage, Chain, Touching, Replace;
    var last := |c| - 1;
    var r := Replace(c, last, last + 1, [c[last].(kind := Used)]);
    Around(c, last);
    RecolourLast(c);
    ChainOf(r);
    LastReplaced(c, c[last].(kind := Used));
    FindIs(r, 0, c[last].start, last);
  }

  lemma LastReplaced(c: seq<Sec>, x: Sec)
    requires |c| >= 2
    ensures var r := Replace(c, |c| - 1, |c|, [x]);
            |r| == |c| && r[|c| - 1] == x && r[|c| - 2] == c[|c| - 2] && r[0] == c[0]
  {
  }

  /** The last page of memory, which is a section of its own. */
  function LastFree(): seq<Sec> {
    [Sec(0, 1, Bad), Sec(0x1000, 1, Free)]
  }

  function LastTaken(): seq<Sec> {
    [Sec(0, 1, Bad), Sec(0x1000, 1, Used)]
  }

  /** It does happen: the only free page is handed out, and freeing it follows the NULL link. */
  lemma FreeAtTheEnd()
    ensures Formed(LastFree()) && AllocSecs(LastFree()) == (LastTaken(), 0x1000)
    ensures Formed(LastTaken()) && FreeReadsNull(LastTaken(), 0x1000)
  {
    var secs := LastFree();
    var a := secs[0];
    assert secs[..1] == [a] && secs[2..] == [] && [a][1..] == [];
    assert FirstFree(secs, 0) == 1;
    assert DropEmpty([a]) == [a];
    assert TakePage([a], secs[1]) == LastTaken();
    assert LastTaken() + [] == LastTaken();
    FreeReadsNullAt(LastTaken(), 0x1000);
  }

  lemma OneReplaced(c: seq<Sec>, i: nat, x: Sec)
    requires 0 < i < |c| - 1
    ensures var r := Replace(c, i, i + 1, [x]);
            |r| == |c| && r[i] == x && r[i - 1] == c[i - 1] && r[i + 1] == c[i + 1] && r[0] == c[0]
    ensures Replace(Replace(c, i, i + 1, [x]), i, i + 1, [c[i]]) == c
  {
  }

  lemma FreeRecolours(r: seq<Sec>, i: nat, s: Sec)
    requires 0 < i < |r| - 1 && r[i] == s.(kind := Used) && s.kind == Free && s.pages == 1
    requires r[i - 1].kind != Free && r[i + 1].kind != Free
    ensures FreeAt(r, i, s.start) == Replace(r, i, i + 1, [s])
  {
  }

  lemma FreeKeepsSplit(c: seq<Sec>, i: nat)
    requires Formed(c) && 0 < i < |c| && Takeable(c[i]) && c[i - 1].kind != Used && c[i].pages > 1
    ensures var r := Replace(c, i, i + 1, [Sec(c[i].start, 1, Used), Behead(c[i])]);
            FreeSecs(r, c[i].start) == r != c && !FreeReadsNull(r, c[i].start)
  {
    hide KindAt, SetsPage, Chain, Touching;
    var r := Replace(c, i, i + 1, [Sec(c[i].start, 1, Used), Behead(c[i])]);
    Around(c, i);
    SplitFirst(c, i, Used);
    ChainOf(r);
    assert r[i] == Sec(c[i].start, 1, Used) && r[i - 1] == c[i - 1] && r[i + 1] == Behead(c[i]) && r[0] == c[0];
    FindIs(r, 0, c[i].start, i);
  }

  // ---------------------------------------------------------------- pools

  /** `pmm_lock_pages`. */
  function LockMany(secs: seq<Sec>, page: nat, count: nat): seq<Sec>
    decreases count
  {
    if count == 0 then secs else LockMany(LockSecs(secs, page), page + 0x1000, count - 1)
  }

  /** Every address of the stretch is in the state `kind`. */
  ghost predicate AllOf(secs: seq<Sec>, from: nat, to: nat, kind: Kind) {
    forall a: nat :: from <= a < to ==> KindAt(secs, a) == Some(kind)
  }

  /** An empty section shares its start with a section that is not FREE. */
  lemma EmptyBeforeOther(secs: seq<Sec>, e: nat)
    requires Formed(secs) && e < |secs| && secs[e].pages == 0
    ensures KindAt(secs, secs[e].start) != Some(Free)
  {
    Around(secs, e);
    hide Formed, Chain, KindAt, Touching;
    if e + 1 < |secs| {
      SectionKind(secs, e + 1, secs[e].start);
    } else {
      Covered(secs, secs[e].start);
    }
  }

  /** A free page lies before the last section unless that is FREE, and no empty section starts at it. */
  lemma FreePageLockable(secs: seq<Sec>, page: nat)
    requires Formed(secs) && KindAt(secs, page) == Some(Free)
    ensures 0 < page && (secs[|secs| - 1].kind != Free ==> page < secs[|secs| - 1].start)
    ensures forall s :: s in secs && s.pages == 0 ==> s.start != page
  {
    hide KindAt, Chain;
    FreePageBefore(secs, page);
    forall s | s in secs && s.pages == 0 ensures s.start != page {
      var e :| 0 <= e < |secs| && secs[e] == s;
      EmptyBeforeOther(secs, e);
    }
  }

  lemma FreePageBefore(secs: seq<Sec>, page: nat)
    requires Formed(secs) && KindAt(secs, page) == Some(Free)
    ensures 0 < page && (secs[|secs| - 1].kind != Free ==> page < secs[|secs| - 1].start)
  {
    hide KindAt, Joint;
    KindAtWitness(secs, page);
    var j :| 0 <= j < |secs| && secs[j].start <= page < End(secs[j]) && KindAt(secs, page) == Some(secs[j].kind);
    StartsBefore(secs, 0, j);
    StartsBefore(secs, j, |secs| - 1);
  }

  /** A stretch of FREE pages that can be locked one after the other: in a list that ends with FREE
      memory it lies before the last section, or starts it and leaves some of it. */
  predicate Stretch(secs: seq<Sec>, page: nat, count: nat) {
    && secs != [] && page % 0x1000 == 0
    && var last, end := secs[|secs| - 1], page + count * 0x1000;
    last.kind != Free || end <= last.start || (page == last.start && end < End(last))
  }

  /** Locking a stretch of free pages makes exactly those pages USED. */
  lemma {:induction false} LockManySets(secs: seq<Sec>, page: nat, count: nat)
    requires Formed(secs) && Stretch(secs, page, count)
    requires AllOf(secs, page, page + count * 0x1000, Free)
    ensures Formed(LockMany(secs, page, count))
    ensures LockMany(secs, page, count)[|LockMany(secs, page, count)| - 1].kind == secs[|secs| - 1].kind
    ensures forall a: nat :: KindAt(LockMany(secs, page, count), a) ==
              if page <= a < page + count * 0x1000 then Some(Used) else KindAt(secs, a)
    decreases count
  {
    hide Formed, LockSecs, KindAt, Stretch;
    if count > 0 {
      LockFree(secs, page, count);
      LockManySets(LockSecs(secs, page), page + 0x1000, count - 1);
    }
  }

  /** The first step of it, and what remains to be locked. */
  lemma LockFree(secs: seq<Sec>, page: nat, count: nat)
    requires Formed(secs) && Stretch(secs, page, count) && count > 0 && KindAt(secs, page) == Some(Free)
    ensures Lockable(secs, page) && (forall s :: s in secs && s.pages == 0 ==> s.start != page)
    ensures Turned(secs, LockSecs(secs, page), page, Used)
    ensures Stretch(LockSecs(secs, page), page + 0x1000, count - 1)
  {
    hide KindAt, LockSecs, Chain, SetsPage;
    FreePageLockable(secs, page);
    LockSets(secs, page);
  }

  /** `pmm_lock_pages` gets to a page for which `pmm_lock_page` follows the NULL link. */
  predicate ManyReadNull(secs: seq<Sec>, page: nat, count: nat)
    decreases count
  {
    count > 0 && (ReadsNull(secs, page) || ManyReadNull(LockSecs(secs, page), page + 0x1000, count - 1))
  }

  /** It does so for exactly the stretches of free pages that cannot be locked one after the other. */
  lemma {:induction false} LockManyReadsNull(secs: seq<Sec>, page: nat, count: nat)
    requires Formed(secs) && page % 0x1000 == 0 && count > 0
    requires AllOf(secs, page, page + count * 0x1000, Free)
    ensures ManyReadNull(secs, page, count) <==> !Stretch(secs, page, count)
    decreases count
  {
    hide Formed, LockSecs, KindAt, Stretch, Lockable, ReadsNull;
    FreePageLockable(secs, page);
    LockReadsNull(secs, page);
    if ReadsNull(secs, page) {
      NoStretch(secs, page, count);
    } else {
      LockSets(secs, page);
      if count == 1 {
        OneStretch(secs, page);
      } else {
        StretchOn(secs, LockSecs(secs, page), page, count);
        LockManyReadsNull(LockSecs(secs, page), page + 0x1000, count - 1);
      }
    }
  }

  lemma NoStretch(secs: seq<Sec>, page: nat, count: nat)
    requires Formed(secs) && page % 0x1000 == 0 && count > 0 && KindAt(secs, page) == Some(Free)
    requires !Lockable(secs, page)
    ensures !Stretch(secs, page, count)
  {
    hide KindAt, Chain;
    FreePageBefore(secs, page);
  }

  lemma OneStretch(secs: seq<Sec>, page: nat)
    requires Formed(secs) && Lockable(secs, page)
    ensures Stretch(secs, page, 1)
  {
    AlignedLast(secs, page);
  }

  lemma AlignedLast(secs: seq<Sec>, page: nat)
    requires Formed(secs) && page % 0x1000 == 0
    ensures page < secs[|secs| - 1].start ==> page + 0x1000 <= secs[|secs| - 1].start
  {
    ChainOf(secs);
  }

  /** What is left of a stretch can be locked exactly when all of it could: the stretch does not run
      from before the last section into it, as the section before a FREE one is not FREE. */
  lemma StretchOn(secs: seq<Sec>, secs': seq<Sec>, page: nat, count: nat)
    requires Formed(secs) && Lockable(secs, page) && count > 1 && Turned(secs, secs', page, Used)
    requires AllOf(secs, page, page + 0x1000, Free)
    ensures Stretch(secs', page + 0x1000, count - 1) <==> Stretch(secs, page, count)
  {
    hide KindAt, Chain, SetsPage;
    var last := |secs| - 1;
    if secs[last].kind == Free && page + 0x1000 == secs[last].start {
      Around(secs, last);
      hide Formed;
      SectionKind(secs, last - 1, secs[last].start - 1);
    }
  }

  /** A free page behind a USED one starts its section, so locking it takes no new section. */
  lemma LockNextTakesNoSlot(secs: seq<Sec>, page: nat)
    requires Formed(secs) && Lockable(secs, page) && KindAt(secs, page) == Some(Free)
    requires KindAt(secs, page - 1) == Some(Used)
    ensures |LockSecs(secs, page)| <= |secs|
  {
    hide Formed, Lockable, KindAt, LockAt, Find;
    FreePageLockable(secs, page);
    FindLockable(secs, page);
    var k := Find(secs, 0, page);
    BehindUsed(secs, k, page);
    LockMoves(secs, k, page);
  }

  lemma BehindUsed(secs: seq<Sec>, k: nat, page: nat)
    requires Formed(secs) && k < |secs| && secs[k].start <= page && 0 < page
    requires secs[k].start == page || (k < |secs| - 1 && page < secs[k + 1].start)
    requires KindAt(secs, page) == Some(Free) && KindAt(secs, page - 1) == Some(Used)
    requires forall s :: s in secs && s.pages == 0 ==> s.start != page
    ensures secs[k].start == page && k > 0 && secs[k - 1].kind == Used
  {
    Around(secs, k);
    hide Formed, Chain, KindAt, Touching;
    if secs[k].start < page {
      SectionKind(secs, k, page - 1);
      SectionKind(secs, k, page);
    } else {
      SectionKind(secs, k - 1, page - 1);
    }
  }

  lemma LockMoves(secs: seq<Sec>, k: nat, page: nat)
    requires 0 < k < |secs| && secs[k].start == page && secs[k - 1].kind == Used
    ensures |LockAt(secs, k, page)| <= |secs|
  {
  }

  predicate Fits(s: Sec, count: nat) {
    s.pages >= count && s.kind == Free
  }

  function FirstFit(secs: seq<Sec>, k: nat, count: nat): (r: nat)
    requires k <= |secs|
    ensures k <= r <= |secs|
    ensures r < |secs| ==> Fits(secs[r], count)
    ensures forall i :: k <= i < r ==> !Fits(secs[i], count)
    decreases |secs| - k
  {
    if k == |secs| || Fits(secs[k], count) then k else FirstFit(secs, k + 1, count)
  }

  // ---------------------------------------------------------------- recombining

  function Fuse(a: Sec, b: Sec): Sec {
    a.(pages := a.pages + b.pages)
  }

  /** One pass of `pmm_recombine` over the list: a section that was fused is not compared again. */
  function Pass(secs: seq<Sec>): seq<Sec> {
    if |secs| < 2 then secs
    else if secs[0].kind == secs[1].kind then [Fuse(secs[0], secs[1])] + Pass(secs[2..])
    else [secs[0]] + Pass(secs[1..])
  }

  /** The list with every run of sections in one state fused into a single section. */
  function Merged(secs: seq<Sec>): seq<Sec>
    decreases |secs|
  {
    if |secs| < 2 then secs
    else if secs[0].kind == secs[1].kind then Merged([Fuse(secs[0], secs[1])] + secs[2..])
    else [secs[0]] + Merged(secs[1..])
  }

  ghost predicate Alternating(secs: seq<Sec>) {
    forall i, j :: 0 <= i < j < |secs| && j == i + 1 ==> secs[i].kind != secs[j].kind
  }

  /** A pass changes neither the fused form of a list nor that of a longer one. */
  lemma {:induction false} MergedPass(x: Sec, r: seq<Sec>)
    ensures Merged([x] + Pass(r)) == Merged([x] + r)
    decreases |r|
  {
    if |r| >= 2 {
      var y, z, t := r[0], r[1], r[2..];
      assert r == [y, z] + t;
      PassTwo(y, z, t);
      if y.kind == z.kind {
        MergedPass(if x.kind == y.kind then Fuse(x, Fuse(y, z)) else Fuse(y, z), t);
        MergedPassFused(x, y, z, t);
      } else {
        MergedPass(if x.kind == y.kind then Fuse(x, y) else y, [z] + t);
        MergedPassKept(x, y, [z] + t);
        assert [y] + ([z] + t) == r;
      }
    }
  }

  lemma PassTwo(y: Sec, z: Sec, t: seq<Sec>)
    ensures Pass([y, z] + t) == if y.kind == z.kind then [Fuse(y, z)] + Pass(t) else [y] + Pass([z] + t)
  {
    assert ([y, z] + t)[2..] == t && ([y, z] + t)[1..] == [z] + t;
  }

  lemma MergedPassKept(x: Sec, y: Sec, u: seq<Sec>)
    requires var h := if x.kind == y.kind then Fuse(x, y) else y; Merged([h] + Pass(u)) == Merged([h] + u)
    ensures Merged([x] + ([y] + Pass(u))) == Merged([x] + ([y] + u))
  {
    hide Merged, Pass;
    MergedFuse(x, y, Pass(u));
    MergedFuse(x, y, u);
    assert [x] + ([y] + Pass(u)) == [x, y] + Pass(u) && [x] + ([y] + u) == [x, y] + u;
  }

  lemma MergedPassFused(x: Sec, y: Sec, z: Sec, t: seq<Sec>)
    requires y.kind == z.kind
    requires var h := if x.kind == y.kind then Fuse(x, Fuse(y, z)) else Fuse(y, z);
             Merged([h] + Pass(t)) == Merged([h] + t)
    ensures Merged([x] + ([Fuse(y, z)] + Pass(t))) == Merged([x] + ([y, z] + t))
  {
    hide Merged, Pass;
    MergedFuse(x, Fuse(y, z), Pass(t));
    assert [x] + ([Fuse(y, z)] + Pass(t)) == [x, Fuse(y, z)] + Pass(t);
    MergedThree(x, y, z, t);
  }

  lemma MergedThree(x: Sec, y: Sec, z: Sec, t: seq<Sec>)
    requires y.kind == z.kind
    ensures Merged([x] + ([y, z] + t)) ==
      if x.kind == y.kind then Merged([Fuse(x, Fuse(y, z))] + t) else [x] + Merged([Fuse(y, z)] + t)
  {
    hide Merged;
    MergedFuse(x, y, [z] + t);
    assert [x] + ([y, z] + t) == [x, y] + ([z] + t);
    if x.kind == y.kind {
      MergedFuse(Fuse(x, y), z, t);
      assert [Fuse(x, y)] + ([z] + t) == [Fuse(x, y), z] + t;
    } else {
      MergedFuse(y, z, t);
      assert [y] + ([z] + t) == [y, z] + t;
    }
  }

  lemma MergedFuse(x: Sec, y: Sec, r: seq<Sec>)
    ensures Merged([x, y] + r) == if x.kind == y.kind then Merged([Fuse(x, y)] + r) else [x] + Merged([y] + r)
  {
    assert ([x, y] + r)[2..] == r && ([x, y] + r)[1..] == [y] + r;
  }

  lemma MergedOfPass(secs: seq<Sec>)
    ensures Merged(Pass(secs)) == Merged(secs)
  {
    if |secs| >= 2 {
      var y, z, t := secs[0], secs[1], secs[2..];
      assert secs == [y, z] + t == [y] + secs[1..];
      PassTwo(y, z, t);
      MergedFuse(y, z, t);
      if y.kind == z.kind {
        MergedPass(Fuse(y, z), t);
      } else {
        MergedPass(y, [z] + t);
        assert [z] + t == secs[1..];
      }
    }
  }

  lemma {:induction false} MergedAlternates(secs: seq<Sec>)
    ensures Alternating(Merged(secs))
    ensures |Merged(secs)| <= |secs| && (secs != [] ==> Merged(secs) != [])
    ensures secs != [] ==> Merged(secs)[0].kind == secs[0].kind && Merged(secs)[0].start == secs[0].start
                           && Merged(secs)[0].pages >= secs[0].pages
    decreases |secs|
  {
    if |secs| >= 2 {
      MergedAlternates(if secs[0].kind == secs[1].kind then [Fuse(secs[0], secs[1])] + secs[2..] else secs[1..]);
    }
  }

  lemma {:induction false} AlternatingIsMerged(secs: seq<Sec>)
    requires Alternating(secs)
    ensures Merged(secs) == secs
  {
    if |secs| >= 2 {
      assert secs[0].kind != secs[1].kind;
      AlternatingIsMerged(secs[1..]);
    }
  }

  /** A pass either fuses something, and then the list is shorter, or the list was fused already. */
  lemma {:induction false} PassShrinks(secs: seq<Sec>)
    ensures |Pass(secs)| <= |secs|
    ensures |Pass(secs)| == |secs| <==> Alternating(secs)
    ensures Alternating(secs) ==> Pass(secs) == secs
  {
    if |secs| >= 2 {
      if secs[0].kind == secs[1].kind {
        PassShrinks(secs[2..]);
      } else {
        PassShrinks(secs[1..]);
        assert secs == [secs[0]] + secs[1..];
        if Alternating(secs[1..]) {
          forall i, j | 0 <= i < j < |secs| && j == i + 1 ensures secs[i].kind != secs[j].kind {
            if i > 0 {
              assert secs[1..][i - 1].kind != secs[1..][j - 1].kind;
            }
          }
        } else {
          var i, j :| 0 <= i < j < |secs[1..]| && j == i + 1 && secs[1..][i].kind == secs[1..][j].kind;
          assert secs[i + 1].kind == secs[j + 1].kind;
        }
      }
    }
  }

  /** Fusing neighbours changes the state of no address. */
  lemma {:induction false} MergedKinds(secs: seq<Sec>, a: nat)
    requires Touching(secs)
    ensures KindAt(Merged(secs), a) == KindAt(secs, a) && Touching(Merged(secs))
    ensures secs != [] ==> Merged(secs) != [] && End(Merged(secs)[|Merged(secs)| - 1]) == End(secs[|secs| - 1])
    decreases |secs|
  {
    hide KindAt, Touching, End;
    if |secs| >= 2 {
      FirstTouches(secs);
      if secs[0].kind == secs[1].kind {
        FuseKinds(secs, a);
        MergedKinds([Fuse(secs[0], secs[1])] + secs[2..], a);
      } else {
        MergedKinds(secs[1..], a);
        MergedAlternates(secs[1..]);
        ConsKinds(secs, Merged(secs[1..]), a);
      }
    }
  }

  lemma FirstTouches(secs: seq<Sec>)
    requires Touching(secs) && |secs| >= 2
    ensures End(secs[0]) == secs[1].start && Touching(secs[1..])
  {
  }

  lemma FuseKinds(secs: seq<Sec>, a: nat)
    requires Touching(secs) && |secs| >= 2 && secs[0].kind == secs[1].kind
    ensures var t := [Fuse(secs[0], secs[1])] + secs[2..];
            && KindAt(t, a) == KindAt(secs, a) && Touching(t) && End(t[|t| - 1]) == End(secs[|secs| - 1])
  {
    var t := [Fuse(secs[0], secs[1])] + secs[2..];
    assert secs[1..][1..] == secs[2..] && t[1..] == secs[2..];
    assert End(secs[0]) == secs[1].start && (|secs| > 2 ==> End(secs[1]) == secs[2].start);
  }

  /** A list whose rest was exchanged for one of the same states. */
  lemma ConsKinds(secs: seq<Sec>, r: seq<Sec>, a: nat)
    requires |secs| >= 2 && r != [] && Touching(r) && End(secs[0]) == r[0].start
    requires KindAt(r, a) == KindAt(secs[1..], a)
    ensures KindAt([secs[0]] + r, a) == KindAt(secs, a) && Touching([secs[0]] + r)
    ensures ([secs[0]] + r)[|r|] == r[|r| - 1]
  {
    assert ([secs[0]] + r)[1..] == r;
  }

  lemma {:induction false} MergedChain(secs: seq<Sec>)
    requires Chain(secs) && secs != []
    ensures Chain(Merged(secs)) && Merged(secs) != []
    ensures Merged(secs)[0].start == secs[0].start && Merged(secs)[0].kind == secs[0].kind
    ensures (Merged(secs)[0].pages == 0 ==> secs[0].pages == 0) && Merged(secs)[0].pages >= secs[0].pages
    ensures Merged(secs)[|Merged(secs)| - 1].kind == secs[|secs| - 1].kind
    decreases |secs|
  {
    hide Chain, Joint;
    if |secs| >= 2 {
      FirstJoint(secs);
      if secs[0].kind == secs[1].kind {
        FuseChain(secs);
        MergedChain([Fuse(secs[0], secs[1])] + secs[2..]);
      } else {
        TailChain(secs);
        MergedChain(secs[1..]);
        MergedHead(secs[1..]);
        ConsChain(secs[0], Merged(secs[1..]));
      }
    }
  }

  lemma FirstJoint(secs: seq<Sec>)
    requires Chain(secs) && |secs| >= 2
    ensures Joint(secs[0], secs[1]) && secs[0].start % 0x1000 == 0
  {
  }

  lemma TailChain(secs: seq<Sec>)
    requires Chain(secs) && secs != []
    ensures Chain(secs[1..])
  {
  }

  lemma FuseChain(secs: seq<Sec>)
    requires Chain(secs) && |secs| >= 2 && secs[0].kind == secs[1].kind
    ensures Chain([Fuse(secs[0], secs[1])] + secs[2..])
  {
    var x, rest := Fuse(secs[0], secs[1]), secs[2..];
    assert Joint(secs[0], secs[1]);
    if rest != [] {
      assert Joint(secs[1], secs[2]) && rest[0] == secs[2];
      assert Chain(rest);
      ConsChain(x, rest);
    }
  }

  /** The first section of the fused list starts where the list does; it is empty only if the first is. */
  lemma MergedHead(secs: seq<Sec>)
    requires Chain(secs) && secs != []
    ensures var r := Merged(secs);
            && r != [] && r[0].start == secs[0].start && r[0].kind == secs[0].kind && r[0].pages >= secs[0].pages
  {
    MergedAlternates(secs);
  }

  lemma ConsChain(x: Sec, r: seq<Sec>)
    requires Chain(r) && r != [] && Joint(x, r[0]) && x.start % 0x1000 == 0
    ensures Chain([x] + r)
  {
  }

  /** `pmm_recombine`: no two neighbours in one state, and every address in the state it was in. The
      list stays one the manager can work on unless all of memory was in one state, when only the
      head is left. */
  lemma RecombineRefines(secs: seq<Sec>)
    requires Formed(secs)
    ensures Alternating(Merged(secs)) && SameKinds(secs, Merged(secs))
    ensures |Merged(secs)| == 1 <==> forall s :: s in secs ==> s.kind == Bad
    ensures |Merged(secs)| > 1 ==> Formed(Merged(secs)) && (WellFormed(secs) <==> WellFormed(Merged(secs)))
  {
    MergedAlternates(secs);
    MergedChain(secs);
    MergedSingle(secs);
    ChainTouches(secs);
    forall a: nat ensures KindAt(Merged(secs), a) == KindAt(secs, a) {
      MergedKinds(secs, a);
    }
  }

  lemma {:induction false} MergedSingle(secs: seq<Sec>)
    requires secs != []
    ensures |Merged(secs)| == 1 <==> forall s :: s in secs ==> s.kind == secs[0].kind
    decreases |secs|
  {
    MergedAlternates(secs);
    if |secs| >= 2 {
      if secs[0].kind == secs[1].kind {
        var t := [Fuse(secs[0], secs[1])] + secs[2..];
        MergedSingle(t);
        assert secs == [secs[0], secs[1]] + secs[2..];
        assert forall s :: s in secs[2..] ==> s in t;
      } else {
        MergedAlternates(secs[1..]);
        assert secs[1] in secs;
      }
    }
  }

  /** `pmm_alloc_pool`'s search and lock: the lowest FREE section that is long enough; otherwise the
      list is recombined and nothing is allocated. */
  function PoolSecs(secs: seq<Sec>, count: nat): (seq<Sec>, Option<nat>) {
    var k := FirstFit(secs, 0, count);
    if k == |secs| then (Merged(secs), None)
    else (LockMany(secs, secs[k].start, count), Some(secs[k].start))
  }

  /** The stretch found is one for which `pmm_lock_pages` follows the NULL link. */
  predicate PoolReadsNull(secs: seq<Sec>, count: nat) {
    var k := FirstFit(secs, 0, count);
    k < |secs| && ManyReadNull(secs, secs[k].start, count)
  }

  /** It is when the first section long enough is the last one and the pool takes all of it. */
  lemma PoolTakesLast(secs: seq<Sec>, count: nat)
    requires Formed(secs)
    ensures PoolReadsNull(secs, count)
            <==> count > 0 && FirstFit(secs, 0, count) == |secs| - 1 && secs[|secs| - 1].pages == count
  {
    hide Formed, KindAt, FirstFit, ReadsNull, Stretch;
    var k := FirstFit(secs, 0, count);
    if k < |secs| && count > 0 {
      FitIsFree(secs, k, count);
      LockManyReadsNull(secs, secs[k].start, count);
    }
  }

  /** `pmm_alloc_pool` takes the lowest FREE section that is long enough and makes just the pool USED, or
      there is none and every address stays in its state. */
  lemma PoolRefines(secs: seq<Sec>, count: nat)
    requires Formed(secs) && !PoolReadsNull(secs, count)
    ensures var (secs', base) := PoolSecs(secs, count);
            && (base.None? <==> forall s :: s in secs && s.kind == Free ==> s.pages < count)
            && (base.None? ==> SameKinds(secs, secs'))
            && (base.Some? ==>
                  && Formed(secs') && (WellFormed(secs) ==> WellFormed(secs')) && base.value % 0x1000 == 0
                  && AllOf(secs, base.value, base.value + count * 0x1000, Free)
                  && (forall a: nat :: KindAt(secs', a) ==
                        if base.value <= a < base.value + count * 0x1000 then Some(Used) else KindAt(secs, a))
                  && forall s :: s in secs && s.kind == Free && s.pages >= count ==> base.value <= s.start)
  {
    hide Formed, Merged, LockMany, KindAt, FirstFit, ManyReadNull, Stretch;
    var k := FirstFit(secs, 0, count);
    if k == |secs| {
      RecombineRefines(secs);
    } else {
      FitIsFree(secs, k, count);
      if count > 0 {
        LockManyReadsNull(secs, secs[k].start, count);
        LockManySets(secs, secs[k].start, count);
      } else {
        LockManyNone(secs, secs[k].start);
      }
      forall t | t in secs && t.kind == Free && t.pages >= count ensures secs[k].start <= t.start {
        FitIsLowest(secs, k, count, t);
      }
    }
  }

  /** In a list that does not end with FREE memory neither allocation follows the NULL link. */
  lemma WellFormedIsSafe(secs: seq<Sec>, count: nat)
    requires WellFormed(secs)
    ensures !ScanReadsNull(secs) && !PoolReadsNull(secs, count)
  {
    hide PoolReadsNull;
    PoolTakesLast(secs, count);
    Around(secs, |secs| - 1);
  }

  lemma LockManyNone(secs: seq<Sec>, page: nat)
    ensures LockMany(secs, page, 0) == secs
  {
  }

  lemma FitIsFree(secs: seq<Sec>, k: nat, count: nat)
    requires Formed(secs) && k < |secs| && Fits(secs[k], count)
    ensures secs[k].start % 0x1000 == 0
    ensures count > 0 ==> (Stretch(secs, secs[k].start, count) <==> !(k == |secs| - 1 && secs[k].pages == count))
    ensures AllOf(secs, secs[k].start, secs[k].start + count * 0x1000, Free)
  {
    hide KindAt, Joint;
    ChainOf(secs);
    ChainTouches(secs);
    if count > 0 {
      StartsBefore(secs, k, |secs| - 1);
    }
    forall a: nat | secs[k].start <= a < secs[k].start + count * 0x1000 ensures KindAt(secs, a) == Some(Free) {
      SectionKind(secs, k, a);
    }
  }

  lemma FitIsLowest(secs: seq<Sec>, k: nat, count: nat, t: Sec)
    requires Formed(secs) && k == FirstFit(secs, 0, count) < |secs| && t in secs && Fits(t, count)
    ensures secs[k].start <= t.start
  {
    var j :| 0 <= j < |secs| && secs[j] == t;
    StartsBefore(secs, k, j);
  }
}

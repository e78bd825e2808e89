/** The page-frame manager: a doubly linked list of sections inside a fixed array of slots. */
module SectionList {
  import opened Wrappers
  import opened Orders
  import opened Sections
  import opened Sequences

  datatype Pointer = Null | Slot(index: nat)

  datatype Section = Section(prev: Pointer, next: Pointer, start: nat, pages: nat, free: Kind)

  function SecOf(s: Section): Sec {
    Sec(s.start, s.pages, s.free)
  }

  /** A slot counts as unused when both its links are NULL. */
  predicate Unused(s: Section) {
    s.prev.Null? && s.next.Null?
  }

  ghost function PrevIn(order: seq<nat>, k: nat): Pointer
    requires k < |order|
  {
    if k == 0 then Null else Slot(order[k - 1])
  }

  ghost function NextIn(order: seq<nat>, k: nat): Pointer
    requires k < |order|
  {
    if k + 1 == |order| then Null else Slot(order[k + 1])
  }

  ghost predicate InBounds(m: seq<Section>, order: seq<nat>) {
    forall k :: 0 <= k < |order| ==> order[k] < |m|
  }

  /** Node `k` of the list points at its neighbours. */
  ghost predicate Node(m: seq<Section>, order: seq<nat>, k: nat) {
    && k < |order| && order[k] < |m|
    && m[order[k]].prev == PrevIn(order, k)
    && m[order[k]].next == NextIn(order, k)
  }

  /** The slots hold a list, headed by slot 0, whose nodes are the slots of `order`. */
  ghost predicate Linked(m: seq<Section>, order: seq<nat>) {
    && order != [] && order[0] == 0
    && InBounds(m, order)
    && (forall j, k :: 0 <= j < k < |order| ==> order[j] != order[k])
    && (forall k :: 0 <= k < |order| ==> Node(m, order, k))
    && (forall i :: 0 <= i < |m| && i !in order ==> Unused(m[i]))
  }

  /** The sections in list order. */
  ghost function View(m: seq<Section>, order: seq<nat>): (secs: seq<Sec>)
    requires InBounds(m, order)
    ensures |secs| == |order| && forall k :: 0 <= k < |order| ==> secs[k] == SecOf(m[order[k]])
  {
    seq(|order|, k requires 0 <= k < |order| => SecOf(m[order[k]]))
  }

  /** In a list of two or more sections a slot is unlinked exactly when both its links are NULL. */
  lemma UnusedIsUnlinked(m: seq<Section>, order: seq<nat>, i: nat)
    requires Linked(m, order) && i < |m| && |order| > 1
    ensures Unused(m[i]) <==> i !in order
  {
    if i in order {
      var k :| 0 <= k < |order| && order[k] == i;
      assert Node(m, order, k);
    }
  }

  /** The first unused slot from `i` on. */
  function FirstUnused(m: seq<Section>, i: nat): (r: nat)
    requires i <= |m|
    ensures i <= r <= |m| && (r < |m| ==> Unused(m[r]))
    ensures forall j :: i <= j < r ==> !Unused(m[j])
    decreases |m| - i
  {
    if i == |m| || Unused(m[i]) then i else FirstUnused(m, i + 1)
  }

  /** The slot `pmm_new_section` hands out when its index stands at `next`; NULL once the index has
      passed the end of the area, whatever slots are unused. */
  function PickSlot(m: seq<Section>, next: nat): Pointer {
    if next >= |m| then Null
    else if Unused(m[next]) then Slot(next)
    else
      var j := FirstUnused(m, 0);
      if j < |m| then Slot(j) else Null
  }

  /** `count` calls of `pmm_new_section`, each slot being linked before the next call, succeed. */
  predicate CanPick(m: seq<Section>, next: nat, count: nat)
    decreases count
  {
    count == 0 ||
    var p := PickSlot(m, next);
    p.Slot? && p.index < |m| && CanPick(m[p.index := m[p.index].(prev := Slot(0))], p.index + 1, count - 1)
  }

  /** The two arrays have the same slots in use. */
  ghost predicate SameUse(m: seq<Section>, m': seq<Section>) {
    |m| == |m'| && forall i :: 0 <= i < |m| ==> (Unused(m[i]) <==> Unused(m'[i]))
  }

  lemma {:induction false} FirstUnusedSameUse(m: seq<Section>, m': seq<Section>, i: nat)
    requires SameUse(m, m') && i <= |m|
    ensures FirstUnused(m, i) == FirstUnused(m', i)
    decreases |m| - i
  {
    if i < |m| && !Unused(m[i]) {
      FirstUnusedSameUse(m, m', i + 1);
    }
  }

  lemma {:induction false} CanPickSameUse(m: seq<Section>, m': seq<Section>, next: nat, count: nat)
    requires SameUse(m, m')
    ensures PickSlot(m, next) == PickSlot(m', next)
    ensures CanPick(m, next, count) == CanPick(m', next, count)
    decreases count
  {
    FirstUnusedSameUse(m, m', 0);
    if count > 0 {
      var p := PickSlot(m, next);
      if p.Slot? && p.index < |m| {
        CanPickSameUse(m[p.index := m[p.index].(prev := Slot(0))], m'[p.index := m'[p.index].(prev := Slot(0))],
                       p.index + 1, count - 1);
      }
    }
  }

  /** The data of one node changed, its links did not. */
  lemma Rewritten(m: seq<Section>, m': seq<Section>, order: seq<nat>, k: nat, s: Section)
    requires Linked(m, order) && k < |order| && m' == m[order[k] := s]
    requires s.prev == m[order[k]].prev && s.next == m[order[k]].next
    ensures Linked(m', order) && View(m', order) == View(m, order)[k := SecOf(s)] && SameUse(m, m')
  {
    forall j | 0 <= j < |order| ensures Node(m', order, j) {
      assert Node(m, order, j);
    }
  }

  /** Outside the nodes around position `k` no link changed. */
  ghost predicate LinksKept(m: seq<Section>, m': seq<Section>, i: nat)
    requires i < |m| == |m'|
  {
    m'[i].prev == m[i].prev && m'[i].next == m[i].next
  }

  /** `m'` is `m` with node `k` unlinked. */
  ghost predicate Unlinks(m: seq<Section>, m': seq<Section>, order: seq<nat>, k: nat)
    requires Linked(m, order)
  {
    && 0 < k < |order| && |m'| == |m|
    && Unused(m'[order[k]])
    && m'[order[k - 1]].next == NextIn(order, k) && m'[order[k - 1]].prev == m[order[k - 1]].prev
    && (k + 1 < |order| ==>
          m'[order[k + 1]].prev == Slot(order[k - 1]) && m'[order[k + 1]].next == m[order[k + 1]].next)
    && forall i :: 0 <= i < |m| && i != order[k] && i != order[k - 1] && (k + 1 < |order| ==> i != order[k + 1]) ==>
         LinksKept(m, m', i)
  }

  lemma TakenOut(m: seq<Section>, m': seq<Section>, order: seq<nat>, k: nat)
    requires Linked(m, order) && Unlinks(m, m', order, k)
    ensures Linked(m', Removed(order, k))
  {
    hide Node, LinksKept, Unused;
    var o := Removed(order, k);
    OrderWithout(order, k);
    forall j | 0 <= j < |o| ensures Node(m', o, j) {
      TakenOutNode(m, m', order, k, o, j);
    }
    forall i | 0 <= i < |m'| && i !in o ensures Unused(m'[i]) {
      InOrder(order, k);
      TakenOutRest(m, m', order, k, i);
    }
  }

  lemma TakenOutRest(m: seq<Section>, m': seq<Section>, order: seq<nat>, k: nat, i: nat)
    requires Linked(m, order) && Unlinks(m, m', order, k) && i < |m| && (i in order ==> i == order[k])
    ensures Unused(m'[i])
  {
    if i != order[k] {
      assert order[k - 1] in order && (k + 1 < |order| ==> order[k + 1] in order);
      assert LinksKept(m, m', i);
    }
  }

  lemma TakenOutNode(m: seq<Section>, m': seq<Section>, order: seq<nat>, k: nat, o: seq<nat>, j: nat)
    requires Linked(m, order) && Unlinks(m, m', order, k) && j < |o| == |order| - 1
    requires forall j :: 0 <= j < |o| ==> o[j] == if j < k then order[j] else order[j + 1]
    ensures Node(m', o, j)
  {
    var p := if j < k then j else j + 1;
    assert Node(m, order, p);
    assert o[j] == order[p] && order[p] != order[k];
    assert j > 0 ==> o[j - 1] == if j - 1 < k then order[j - 1] else order[j];
    assert j + 1 < |o| ==> o[j + 1] == if j + 1 < k then order[j + 1] else order[j + 2];
    if p != k - 1 && p != k + 1 {
      assert order[p] != order[k - 1] && (k + 1 < |order| ==> order[p] != order[k + 1]);
      assert LinksKept(m, m', order[p]);
    }
  }

  /** `m'` is `m` with the unused slot `n` linked in behind node `k`. */
  ghost predicate Links(m: seq<Section>, m': seq<Section>, order: seq<nat>, k: nat, n: nat)
    requires Linked(m, order)
  {
    && k < |order| && |m'| == |m| && n < |m| && n !in order
    && m'[n].prev == Slot(order[k]) && m'[n].next == NextIn(order, k)
    && m'[order[k]].next == Slot(n) && m'[order[k]].prev == m[order[k]].prev
    && (k + 1 < |order| ==> m'[order[k + 1]].prev == Slot(n) && m'[order[k + 1]].next == m[order[k + 1]].next)
    && forall i :: 0 <= i < |m| && i != n && i != order[k] && (k + 1 < |order| ==> i != order[k + 1]) ==>
         LinksKept(m, m', i)
  }

  lemma PutIn(m: seq<Section>, m': seq<Section>, order: seq<nat>, k: nat, n: nat)
    requires Linked(m, order) && Links(m, m', order, k, n)
    ensures Linked(m', Inserted(order, k, n))
  {
    var o := Inserted(order, k, n);
    OrderWith(order, k, n);
    forall j | 0 <= j < |o| ensures Node(m', o, j) {
      PutInNode(m, m', order, k, n, o, j);
    }
    assert forall i :: 0 <= i < |m| && i !in o ==> LinksKept(m, m', i);
  }

  lemma PutInNode(m: seq<Section>, m': seq<Section>, order: seq<nat>, k: nat, n: nat, o: seq<nat>, j: nat)
    requires Linked(m, order) && Links(m, m', order, k, n) && j < |o| == |order| + 1
    requires forall j :: 0 <= j < |o| ==> o[j] == if j <= k then order[j] else if j == k + 1 then n else order[j - 1]
    ensures Node(m', o, j)
  {
    if j == k + 1 {
      assert o[k] == order[k] && (k + 2 < |o| ==> o[k + 2] == order[k + 1]);
    } else {
      var p := if j <= k then j else j - 1;
      assert Node(m, order, p);
      assert order[p] in order;
      assert o[j] == order[p];
      assert j > 0 ==> o[j - 1] == if j - 1 <= k then order[j - 1] else if j - 1 == k + 1 then n else order[j - 2];
      assert j + 1 < |o| ==> o[j + 1] == if j + 1 <= k then order[j + 1] else if j == k then n else order[j];
      if p != k && p != k + 1 {
        assert order[p] != order[k] && (k + 1 < |order| ==> order[p] != order[k + 1]);
        assert LinksKept(m, m', order[p]);
      }
    }
  }

  /** Part of the list was exchanged, and the data of the other nodes did not change. */
  lemma ViewSwap(m: seq<Section>, m': seq<Section>, a: seq<nat>, was: seq<nat>, now: seq<nat>, b: seq<nat>,
                 secs: seq<Sec>, i: nat, j: nat)
    requires |m| == |m'| && InBounds(m, a) && InBounds(m, was) && InBounds(m, now) && InBounds(m, b)
    requires forall x :: x in a || x in b ==> SecOf(m'[x]) == SecOf(m[x])
    requires i == |a| && j == i + |was| && InBounds(m, a + was + b) && secs == View(m, a + was + b)
    ensures InBounds(m', a + now + b)
    ensures View(m', a + now + b) == Replace(secs, i, j, View(m', now))
  {
    hide View, SecOf;
    ViewConcat(m, a, was);
    ViewConcat(m, a + was, b);
    ViewKept(m, m', a);
    ViewKept(m, m', b);
    ViewConcat(m', a, now);
    ViewConcat(m', a + now, b);
    ViewLengths(m, a, was);
    assert secs[..i] == View(m, a);
    assert secs[j..] == View(m, b);
  }

  lemma ViewConcat(m: seq<Section>, a: seq<nat>, b: seq<nat>)
    requires InBounds(m, a) && InBounds(m, b)
    ensures InBounds(m, a + b) && View(m, a + b) == View(m, a) + View(m, b)
  {
  }

  lemma ViewKept(m: seq<Section>, m': seq<Section>, a: seq<nat>)
    requires InBounds(m, a) && |m| == |m'| && forall x :: x in a ==> SecOf(m'[x]) == SecOf(m[x])
    ensures View(m', a) == View(m, a)
  {
  }

  lemma ViewLengths(m: seq<Section>, a: seq<nat>, b: seq<nat>)
    requires InBounds(m, a) && InBounds(m, b)
    ensures |View(m, a)| == |a| && |View(m, b)| == |b|
  {
  }

  /** A list cut in three. */
  lemma Slices(m: seq<Section>, order: seq<nat>, i: nat, j: nat)
    requires Linked(m, order) && i <= j <= |order|
    ensures InBounds(m, order) && InBounds(m, order[..i]) && InBounds(m, order[i..j]) && InBounds(m, order[j..])
    ensures InBounds(m, order[..i] + order[i..j] + order[j..])
    ensures View(m, order[..i] + order[i..j] + order[j..]) == View(m, order)
    ensures forall x :: x in order[..i] || x in order[j..] ==> x in order && x < |m| && x !in order[i..j]
  {
    assert order[..i] + order[i..j] + order[j..] == order;
  }

  /** The data of nodes outside a stretch of the list is untouched when only that stretch was written. */
  lemma OutsideKept(m: seq<Section>, m': seq<Section>, order: seq<nat>, i: nat, j: nat, p: nat, q: nat)
    requires Linked(m, order) && |m'| == |m| && i <= p < j <= |order| && q < |m| && (q !in order || q in order[i..j])
    requires forall x :: 0 <= x < |m| && x != order[p] && x != q ==> SecOf(m'[x]) == SecOf(m[x])
    ensures forall x :: x in order[..i] || x in order[j..] ==> x < |m| && SecOf(m'[x]) == SecOf(m[x])
    ensures InBounds(m, order[..i]) && InBounds(m, order[i..j]) && InBounds(m, order[j..])
  {
    Slices(m, order, i, j);
    InSlice(order, i, j, p);
    hide Linked, View, InBounds;
    Outside(m, m', order[..i], order[i..j], order[j..], order, order[p], q);
  }

  lemma Outside(m: seq<Section>, m': seq<Section>, a: seq<nat>, mid: seq<nat>, b: seq<nat>, order: seq<nat>, p: nat,
                q: nat)
    requires |m'| == |m| && p in mid && (q !in order || q in mid)
    requires forall x :: x in a || x in b ==> x in order && x < |m| && x !in mid
    requires forall x :: 0 <= x < |m| && x != p && x != q ==> SecOf(m'[x]) == SecOf(m[x])
    ensures forall x :: x in a || x in b ==> x < |m| && SecOf(m'[x]) == SecOf(m[x])
  {
  }

  lemma ViewExchanged(m: seq<Section>, m': seq<Section>, order: seq<nat>, i: nat, j: nat, now: seq<nat>, p: nat, q: nat)
    requires Linked(m, order) && |m'| == |m| && i <= p < j <= |order| && q < |m| && (q !in order || q in order[i..j])
    requires forall x :: 0 <= x < |m| && x != order[p] && x != q ==> SecOf(m'[x]) == SecOf(m[x])
    requires InBounds(m, now)
    ensures InBounds(m', Replace(order, i, j, now))
    ensures View(m', Replace(order, i, j, now)) == Replace(View(m, order), i, j, View(m', now))
  {
    OutsideKept(m, m', order, i, j, p, q);
    Slices(m, order, i, j);
    hide Linked, Replace, View, InBounds, SecOf;
    ViewSwap(m, m', order[..i], order[i..j], now, order[j..], View(m, order), i, j);
  }

  /** The list after `PutIn`, when only the data of node `k` and of the new node changed. */
  lemma ViewPutIn(m: seq<Section>, m': seq<Section>, order: seq<nat>, k: nat, n: nat)
    requires Linked(m, order) && Links(m, m', order, k, n)
    requires forall i :: 0 <= i < |m| && i != n && i != order[k] ==> SecOf(m'[i]) == SecOf(m[i])
    ensures Linked(m', Inserted(order, k, n))
    ensures View(m', Inserted(order, k, n)) == Replace(View(m, order), k, k + 1, [SecOf(m'[order[k]]), SecOf(m'[n])])
  {
    PutIn(m, m', order, k, n);
    ViewExchanged(m, m', order, k, k + 1, [order[k], n], k, n);
    InsertedIs(order, k, n);
    hide Inserted, Replace, Linked, Links;
    assert View(m', [order[k], n]) == [SecOf(m'[order[k]]), SecOf(m'[n])];
  }

  /** A new section behind the last one. */
  lemma Appended(m: seq<Section>, m': seq<Section>, order: seq<nat>, k: nat, n: nat)
    requires Linked(m, order) && Links(m, m', order, k, n) && k + 1 == |order|
    requires forall i :: 0 <= i < |m| && i != n ==> SecOf(m'[i]) == SecOf(m[i])
    ensures Linked(m', order + [n]) && View(m', order + [n]) == View(m, order) + [SecOf(m'[n])]
  {
    ViewPutIn(m, m', order, k, n);
    hide Linked, Links, View;
    assert Inserted(order, k, n) == order + [n];
    assert View(m, order)[k] == SecOf(m'[order[k]]);
    assert View(m, order) == View(m, order)[..k] + [View(m, order)[k]];
  }

  /** A new section in front of the last one. */
  lemma GapInserted(m: seq<Section>, m': seq<Section>, order: seq<nat>, k: nat, n: nat)
    requires Linked(m, order) && Links(m, m', order, k, n) && k + 2 == |order|
    requires forall i :: 0 <= i < |m| && i != n ==> SecOf(m'[i]) == SecOf(m[i])
    ensures Linked(m', Inserted(order, k, n))
    ensures View(m', Inserted(order, k, n)) == Replace(View(m, order), k, k + 1, [View(m, order)[k], SecOf(m'[n])])
    ensures |Inserted(order, k, n)| == |order| + 1 && Inserted(order, k, n)[k + 2] == order[k + 1]
    ensures forall i :: i in Inserted(order, k, n) ==> i in order || i == n
  {
    ViewPutIn(m, m', order, k, n);
    hide Linked, Links, Replace;
  }

  /** The list after `TakenOut`, when only the data of the node before changed. */
  lemma ViewTakenBack(m: seq<Section>, m': seq<Section>, order: seq<nat>, k: nat)
    requires Linked(m, order) && Unlinks(m, m', order, k)
    requires forall i :: 0 <= i < |m| && i != order[k] && i != order[k - 1] ==> SecOf(m'[i]) == SecOf(m[i])
    ensures Linked(m', Removed(order, k))
    ensures View(m', Removed(order, k)) == Replace(View(m, order), k - 1, k + 1, [SecOf(m'[order[k - 1]])])
  {
    TakenOut(m, m', order, k);
    InSlice(order, k - 1, k + 1, k);
    ViewExchanged(m, m', order, k - 1, k + 1, [order[k - 1]], k - 1, order[k]);
    RemovedIs(order, k);
    hide Removed, Replace, Linked, Unlinks;
    assert View(m', [order[k - 1]]) == [SecOf(m'[order[k - 1]])];
  }

  /** The list after `TakenOut`, when only the data of the node behind changed. */
  lemma ViewTakenFront(m: seq<Section>, m': seq<Section>, order: seq<nat>, k: nat)
    requires Linked(m, order) && Unlinks(m, m', order, k) && k + 1 < |order|
    requires forall i :: 0 <= i < |m| && i != order[k] && i != order[k + 1] ==> SecOf(m'[i]) == SecOf(m[i])
    ensures Linked(m', Removed(order, k))
    ensures View(m', Removed(order, k)) == Replace(View(m, order), k, k + 2, [SecOf(m'[order[k + 1]])])
  {
    TakenOut(m, m', order, k);
    InSlice(order, k, k + 2, k + 1);
    ViewExchanged(m, m', order, k, k + 2, [order[k + 1]], k, order[k + 1]);
    RemovedIs(order, k);
    hide Removed, Replace, Linked, Unlinks;
    assert View(m', [order[k + 1]]) == [SecOf(m'[order[k + 1]])];
  }

  /** What `pmm_section_split` of node `k` at `at` does to the slots, the list and the index. */
  ghost predicate SplitTo(m: seq<Section>, m': seq<Section>, order: seq<nat>, order': seq<nat>,
                          next: nat, next': nat, k: nat, at: nat)
    requires Linked(m, order) && k < |order|
  {
    var s := View(m, order)[k];
    if at >= End(s) then m' == m && order' == order && next' == next
    else
      var p := PickSlot(m, next);
      && Linked(m', order')
      && p.Slot? && p.index < |m| == |m'| && next' == p.index + 1 && order' == Inserted(order, k, p.index)
      && SameUse(m', m[p.index := m'[p.index]]) && !Unused(m'[p.index])
      && View(m', order') == Replace(View(m, order), k, k + 1,
                               [Sec(s.start, Minus(s.pages, PagesBetween(at, End(s))), s.kind),
                                Sec(at, if s.start <= at then Minus(s.pages, PagesBetween(s.start, at)) else 0,
                                    s.kind)])
  }

  /** The node at slot `n` was linked in and its data and that of node `k` were written. */
  lemma SplitDone(m: seq<Section>, m1: seq<Section>, m2: seq<Section>, order: seq<nat>, k: nat, n: nat, next: nat,
                  at: nat)
    requires Linked(m, order) && Links(m, m1, order, k, n) && |order| > 1 && |m2| == |m1|
    requires PickSlot(m, next) == Slot(n)
    requires forall i :: 0 <= i < |m1| ==> LinksKept(m1, m2, i) && SecOf(m1[i]) == SecOf(m[i])
    requires forall i :: 0 <= i < |m1| && i != n && i != order[k] ==> m2[i] == m1[i]
    requires var s := SecOf(m[order[k]]);
             && s.start <= at < End(s)
             && SecOf(m2[n]) == Sec(at, Minus(s.pages, PagesBetween(s.start, at)), s.kind)
             && SecOf(m2[order[k]]) == Sec(s.start, Minus(s.pages, PagesBetween(at, End(s))), s.kind)
    ensures SplitTo(m, m2, order, Inserted(order, k, n), next, n + 1, k, at)
  {
    SameLinksLinks(m, m1, m2, order, k, n);
    ViewPutIn(m, m2, order, k, n);
    LinkedUse(m, m2, order, k, n);
    hide Replace, Inserted, Links, Linked, SameUse, Unused, Minus, PagesBetween;
  }

  lemma SameLinksLinks(m: seq<Section>, m1: seq<Section>, m': seq<Section>, order: seq<nat>, k: nat, n: nat)
    requires Linked(m, order) && Links(m, m1, order, k, n) && |m'| == |m1|
    requires forall i :: 0 <= i < |m1| ==> LinksKept(m1, m', i)
    ensures Links(m, m', order, k, n)
  {
    assert LinksKept(m1, m', n) && LinksKept(m1, m', order[k]);
    assert k + 1 < |order| ==> LinksKept(m1, m', order[k + 1]);
    forall i | 0 <= i < |m| && LinksKept(m, m1, i) ensures LinksKept(m, m', i) {
      assert LinksKept(m1, m', i);
    }
  }

  /** Linking a node in uses up its slot and no other. */
  lemma LinkedUse(m: seq<Section>, m': seq<Section>, order: seq<nat>, k: nat, n: nat)
    requires Linked(m, order) && Links(m, m', order, k, n) && |order| > 1
    ensures SameUse(m', m[n := m'[n]]) && !Unused(m'[n])
  {
    var o := Inserted(order, k, n);
    PutIn(m, m', order, k, n);
    OrderWith(order, k, n);
    forall i | 0 <= i < |m| ensures Unused(m'[i]) <==> Unused(m[n := m'[n]][i]) {
      UnusedIsUnlinked(m, order, i);
      UnusedIsUnlinked(m', o, i);
    }
  }

  /** `pmm_section_combine_next` of node `k`. */
  ghost predicate CombinesNext(m: seq<Section>, m': seq<Section>, order: seq<nat>, order': seq<nat>, k: nat)
    requires Linked(m, order) && Linked(m', order') && k < |order|
  {
    var secs := View(m, order);
    if k + 1 == |secs| || secs[k].kind != secs[k + 1].kind then order' == order && m' == m
    else
      && order' == Removed(order, k)
      && View(m', order') == Replace(secs, k, k + 2,
           [Sec(secs[k].start, secs[k + 1].pages + secs[k].pages, secs[k + 1].kind)])
  }

  /** Node `k` took in the node behind it. */
  ghost predicate TakesInNext(m: seq<Section>, m': seq<Section>, order: seq<nat>, order': seq<nat>, k: nat)
    requires Linked(m, order) && Linked(m', order') && k + 1 < |order|
  {
    var secs := View(m, order);
    && order' == Removed(order, k + 1)
    && View(m', order') == Replace(secs, k, k + 2, [Fuse(secs[k], secs[k + 1])])
  }

  /** `pmm_section_combine_prev` of node `k`. */
  ghost predicate CombinesPrev(m: seq<Section>, m': seq<Section>, order: seq<nat>, order': seq<nat>, k: nat)
    requires Linked(m, order) && Linked(m', order') && k < |order|
  {
    var secs := View(m, order);
    if k == 0 || secs[k].kind != secs[k - 1].kind then order' == order && m' == m
    else
      && order' == Removed(order, k)
      && View(m', order') == Replace(secs, k - 1, k + 1, [Fuse(secs[k - 1], secs[k])])
  }

  // ---------------------------------------------------------------- the manager

  class Manager {
    const slots: array<Section>
    /** `_pmm_section_head`, the slot tried first for a new section. */
    var next: nat
    ghost var order: seq<nat>

    ghost predicate Valid()
      reads this, slots
    {
      Linked(slots[..], order)
    }

    ghost function Contents(): seq<Sec>
      requires Valid()
      reads this, slots
    {
      View(slots[..], order)
    }

    /** `pmm_section_manager_create` and the first section: the first megabyte, in slot 0. */
    constructor (capacity: nat)
      requires capacity > 0
      ensures Valid() && fresh(slots) && slots.Length == capacity
      ensures Contents() == [Sec(0, 0x100, Bad)] && Building(slots[..], order, next)
    {
      slots := new Section[capacity](_ => Cleared());
      next, order := 1, [0];
      new;
      slots[0] := Section(Null, Null, 0, 0x100, Bad);
      assert Node(slots[..], order, 0);
    }

    /** The new last section in `pmm_start`. */
    method Append(current: nat, s: Sec, ghost k: nat) returns (added: nat)
      requires Valid() && k + 1 == |order| && order[k] == current
      requires Building(slots[..], order, next) && next < slots.Length
      modifies this`next, this`order, slots
      ensures Valid() && Building(slots[..], order, next)
      ensures order == old(order) + [added] && Contents() == old(Contents()) + [s]
    {
      ghost var m := slots[..];
      assert Node(m, order, k) && current in order;
      var newSection := NewSection();
      added := newSection.index;
      slots[current] := slots[current].(next := newSection);
      slots[added] := slots[added].(prev := Slot(current));
      slots[added] := slots[added].(next := Null);
      slots[added] := slots[added].(start := s.start, free := s.kind, pages := s.pages);
      hide Linked, View, Links;
      Appended(m, slots[..], order, k, added);
      order := order + [added];
    }

    /** The section for a gap in `pmm_start`, between the last section and the one before it. */
    method InsertGap(current: nat, s: Sec, ghost k: nat)
      requires Valid() && k + 2 == |order| && order[k + 1] == current
      requires Building(slots[..], order, next) && next < slots.Length
      modifies this`next, this`order, slots
      ensures Valid() && Building(slots[..], order, next)
      ensures |order| == old(|order|) + 1 && order[k + 2] == current
      ensures Contents() == Replace(old(Contents()), k, k + 1, [old(Contents())[k], s])
    {
      ghost var m := slots[..];
      DistinctNodes(m, order, k + 1);
      var previous := slots[current].prev.index;
      var newSection := NewSection();
      var gap := newSection.index;
      slots[previous] := slots[previous].(next := newSection);
      slots[gap] := slots[gap].(prev := slots[current].prev);
      slots[gap] := slots[gap].(next := Slot(current));
      slots[gap] := slots[gap].(start := s.start, pages := s.pages, free := s.kind);
      slots[current] := slots[current].(prev := slots[previous].next);
      hide Linked, View, Links, Replace;
      GapInserted(m, slots[..], order, k, gap);
      order := Inserted(order, k, gap);
    }

    /** `pmm_section_manager_reindex`. */
    method Reindex()
      modifies this`next
      ensures next == if FirstUnused(slots[..], 0) < slots.Length then FirstUnused(slots[..], 0) else 0
    {
      next := 0;
      var i := 0;
      while i < slots.Length
        invariant 0 <= i <= slots.Length && next == 0
        invariant FirstUnused(slots[..], 0) == FirstUnused(slots[..], i)
      {
        if slots[i].prev.Null? && slots[i].next.Null? {
          next := i;
          return;
        }
        i := i + 1;
      }
    }

    method NewSection() returns (p: Pointer)
      modifies this`next
      ensures p == PickSlot(slots[..], old(next))
      ensures p.Slot? ==> p.index < slots.Length && next == p.index + 1 && Unused(slots[p.index])
      ensures old(next) >= slots.Length ==> p == Null && next == old(next)
      ensures old(next) < slots.Length && Unused(slots[old(next)]) ==> p == Slot(old(next))
      ensures old(next) < slots.Length && !Unused(slots[old(next)]) ==>
        if p.Slot? then forall i :: 0 <= i < p.index ==> !Unused(slots[i])
        else next == 0 && forall i :: 0 <= i < slots.Length ==> !Unused(slots[i])
    {
      if next >= slots.Length {
        return Null;
      }
      p := Slot(next);
      if !slots[next].prev.Null? || !slots[next].next.Null? {
        Reindex();
        p := Slot(next);
        if !slots[next].prev.Null? || !slots[next].next.Null? {
          return Null;
        }
      }
      next := next + 1;
    }

    method DeleteSection(i: nat)
      requires i < slots.Length
      modifies slots
      ensures slots[..] == old(slots[..])[i := Section(Null, Null, 0, 0, Used)]
    {
      slots[i] := Cleared();
    }

    /** The linking half of `pmm_section_split`: a new node behind node `k`. */
    method LinkAfter(target: nat, ghost k: nat)
      requires Valid() && |order| > 1 && k < |order| && order[k] == target && CanPick(slots[..], next, 1)
      modifies this`next, slots
      ensures PickSlot(old(slots[..]), old(next)).Slot?
      ensures var n := PickSlot(old(slots[..]), old(next)).index;
              && n < slots.Length && next == n + 1 && slots[target].next == Slot(n)
              && Links(old(slots[..]), slots[..], order, k, n)
              && forall i :: 0 <= i < slots.Length ==> SecOf(slots[i]) == old(SecOf(slots[i]))
    {
      ghost var m := slots[..];
      assert Node(m, order, k);
      var spare;
      if slots[target].next.Slot? {
        var after := slots[target].next.index;
        spare := NewSection();
        UnusedIsUnlinked(m, order, spare.index);
        assert after == order[k + 1] && after in order && target in order && after != target;
        slots[after] := slots[after].(prev := spare);
        slots[spare.index] := slots[spare.index].(prev := Slot(target));
        slots[spare.index] := slots[spare.index].(next := slots[target].next);
        slots[target] := slots[target].(next := slots[after].prev);
      } else {
        spare := NewSection();
        UnusedIsUnlinked(m, order, spare.index);
        slots[target] := slots[target].(next := spare);
        slots[spare.index] := slots[spare.index].(prev := Slot(target));
      }
    }

    /** `pmm_section_split`: node `k` keeps what lies below `at`, a new node behind it gets the rest. */
    method Split(target: nat, at: nat, ghost k: nat)
      requires Valid() && |order| > 1 && k < |order| && order[k] == target
      requires at < End(Contents()[k]) ==> Contents()[k].start <= at && CanPick(slots[..], next, 1)
      modifies this`next, this`order, slots
      ensures Valid() && SplitTo(old(slots[..]), slots[..], old(order), order, old(next), next, k, at)
    {
      if at >= slots[target].start + slots[target].pages * 0x1000 {
        return;
      }
      ghost var m, was, next0 := slots[..], order, next;
      LinkAfter(target, k);
      ghost var m1 := slots[..];
      var q := slots[target].next.index;
      assert target in was && q !in was;
      hide Linked, Links, View, Minus, PagesBetween, CanPick, PickSlot, Inserted, SplitTo;
      var t := slots[target];
      slots[q] := slots[q].(free := t.free, pages := Minus(t.pages, PagesBetween(t.start, at)), start := at);
      slots[target] := t.(pages := Minus(t.pages, PagesBetween(at, t.start + t.pages * 0x1000)));
      SplitDone(m, m1, slots[..], was, k, q, next0, at);
      SplitIsLinked(m, slots[..], was, Inserted(was, k, q), next0, q + 1, k, at);
      order := Inserted(order, k, q);
    }

    /** `pmm_section_combine_next`: the section behind takes node `k` in when their states agree. */
    method CombineNext(target: nat, ghost k: nat)
      requires Valid() && k < |order| && order[k] == target
      requires k + 1 < |order| && Contents()[k].kind == Contents()[k + 1].kind ==> k > 0
      modifies this`order, slots
      ensures Valid() && CombinesNext(old(slots[..]), slots[..], old(order), order, k)
    {
      hide View, Replace, Removed, Unlinks, Node, CombinesNext;
      ghost var m := slots[..];
      DistinctNodes(m, order, k);
      NodeData(m, order, k);
      if slots[target].next.Null? || slots[target].free != slots[slots[target].next.index].free {
        NothingNext(m, order, k);
        return;
      }
      hide Linked;
      var n := slots[target].next.index;
      var p := slots[target].prev.index;
      slots[n] := slots[n].(start := slots[target].start, pages := slots[n].pages + slots[target].pages,
                            prev := slots[target].prev);
      slots[p] := slots[p].(next := slots[target].next);
      ghost var sp, sn := slots[p], slots[n];
      DeleteSection(target);
      assert slots[..] == m[p := sp][n := sn][target := Cleared()];
      MergedFront(m, order, k, sp, sn);
      order := Removed(order, k);
    }

    /** `pmm_section_combine_prev`: the section before takes node `k` in when their states agree. */
    method CombinePrev(target: nat, ghost k: nat)
      requires Valid() && k < |order| && order[k] == target
      requires k > 0 && Contents()[k].kind == Contents()[k - 1].kind ==> k + 1 < |order|
      modifies this`order, slots
      ensures Valid() && CombinesPrev(old(slots[..]), slots[..], old(order), order, k)
    {
      hide View, Replace, Removed, Unlinks, Node, CombinesPrev;
      ghost var m := slots[..];
      DistinctNodes(m, order, k);
      NodeData(m, order, k);
      if slots[target].prev.Null? || slots[target].free != slots[slots[target].prev.index].free {
        NothingPrev(m, order, k);
        return;
      }
      hide Linked;
      var p := slots[target].prev.index;
      var n := slots[target].next.index;
      slots[p] := slots[p].(pages := slots[p].pages + slots[target].pages);
      slots[p] := slots[p].(next := slots[target].next);
      slots[n] := slots[n].(prev := slots[target].prev);
      ghost var sp, sn := slots[p], slots[n];
      DeleteSection(target);
      assert slots[..] == m[p := sp][n := sn][target := Cleared()];
      MergedPrev(m, order, k, sp, sn);
      order := Removed(order, k);
    }

    /** The unlinking of an empty section in `pmm_alloc_page`. */
    method Unlink(target: nat, ghost k: nat)
      requires Valid() && 0 < k < |order| - 1 && order[k] == target
      modifies this`order, slots
      ensures Valid() && order == Removed(old(order), k)
      ensures Contents() == Without(old(Contents()), k)
    {
      ghost var m := slots[..];
      assert Node(m, order, k);
      var n := slots[target].next.index;
      var p := slots[target].prev.index;
      DistinctNodes(m, order, k);
      ghost var secs := Contents();
      assert secs[k - 1] == SecOf(m[p]);
      hide Linked, View, Replace, Removed, Unlinks, Node;
      slots[n] := slots[n].(prev := slots[target].prev);
      slots[p] := slots[p].(next := slots[target].next);
      ghost var sp, sn := slots[p], slots[n];
      DeleteSection(target);
      assert slots[..] == m[p := sp][n := sn][target := Cleared()];
      MergedBack(m, order, k, sp, sn);
      ReplaceSame(secs, k);
      order := Removed(order, k);
    }

    /** New data for node `k`; its links stay. */
    method Store(i: nat, s: Sec, ghost k: nat)
      requires Valid() && k < |order| && order[k] == i
      modifies slots
      ensures Valid() && Contents() == old(Contents())[k := s] && SameUse(old(slots[..]), slots[..])
    {
      ghost var m := slots[..];
      slots[i] := slots[i].(start := s.start, pages := s.pages, free := s.kind);
      Rewritten(m, slots[..], order, k, slots[i]);
    }

    /** The first page of node `k` goes over to the node before it. */
    method GrowPrevious(i: nat, ghost k: nat)
      requires Valid() && 0 < k < |order| && order[k] == i
      modifies slots
      ensures Valid()
      ensures Contents() == FirstMoved(old(Contents()), k)
    {
      hide Linked, View, Replace, FirstMoved;
      DistinctNodes(slots[..], order, k);
      NodeData(slots[..], order, k);
      ghost var secs := Contents();
      var p := slots[i].prev.index;
      Store(p, Sec(slots[p].start, slots[p].pages + 1, slots[p].free), k - 1);
      NodeData(slots[..], order, k);
      Store(i, Sec(slots[i].start + 0x1000, Less(slots[i].pages), slots[i].free), k);
      FirstMovedIs(secs, k);
    }

    /** The last page of node `k` goes over to the node behind it. */
    method GrowNext(i: nat, ghost k: nat)
      requires Valid() && k + 1 < |order| && order[k] == i && Contents()[k + 1].start >= 0x1000
      modifies slots
      ensures Valid()
      ensures Contents() == LastMoved(old(Contents()), k)
    {
      hide Linked, View, Replace, LastMoved;
      DistinctNodes(slots[..], order, k);
      NodeData(slots[..], order, k);
      ghost var secs := Contents();
      var n := slots[i].next.index;
      Store(n, Sec(slots[n].start - 0x1000, slots[n].pages + 1, slots[n].free), k + 1);
      NodeData(slots[..], order, k);
      Store(i, Sec(slots[i].start, Less(slots[i].pages), slots[i].free), k);
      LastMovedIs(secs, k);
    }

    /** The first page of node `k` is split off and put in the state `kind`. */
    method TurnFirst(i: nat, kind: Kind, ghost k: nat)
      requires Valid() && |order| > 1 && k < |order| && order[k] == i && Contents()[k].pages > 0
      requires Contents()[k].pages > 1 ==> CanPick(slots[..], next, 1)
      modifies this`next, this`order, slots
      ensures Valid() && k < |order| && order[k] == i
      ensures Contents() == FirstTurned(old(Contents()), k, kind)
    {
      hide Linked, View, Replace, SplitTo, CanPick, FirstTurned, FirstSplit;
      ghost var m, was, secs, next0 := slots[..], order, Contents(), next;
      NodeData(m, was, k);
      Split(i, slots[i].start + 0x1000, k);
      SplitFront(m, slots[..], was, order, next0, next, k);
      ghost var r := Contents();
      NodeData(slots[..], order, k);
      Store(i, SecOf(slots[i]).(kind := kind), k);
      RecolourFirst(secs, k, kind);
    }

    /** The end of the scan of `pmm_alloc_page`: the free section at node `k` gives its first page. */
    method TakeFirst(i: nat, ghost k: nat)
      requires Valid() && 0 < k < |order| && order[k] == i && Contents()[k].pages > 0
      requires Contents()[k - 1].kind != Used && Contents()[k].pages > 1 ==> CanPick(slots[..], next, 1)
      modifies this`next, this`order, slots
      ensures Valid() && Contents() == TakenFirst(old(Contents()), k)
    {
      hide Linked, View, FirstMoved, FirstTurned, CanPick;
      DistinctNodes(slots[..], order, k);
      NodeData(slots[..], order, k);
      if slots[slots[i].prev.index].free == Used {
        GrowPrevious(i, k);
      } else {
        TurnFirst(i, Used, k);
      }
    }

    /** `pmm_alloc_page`: the first page of the lowest free section, or NULL; not `ok` where the scan
        unlinks the last section and follows its NULL link. */
    method AllocPage() returns (ok: bool, base: nat)
      requires Valid() && Formed(Contents())
      requires AllocSplits(Contents()) ==> CanPick(slots[..], next, 1)
      modifies this`next, this`order, slots
      ensures Valid() && (ok <==> !ScanReadsNull(old(Contents())))
      ensures ok ==> (Contents(), base) == AllocSecs(old(Contents()))
    {
      hide Linked, View, Formed, AllocSecs, Cleaned, DropEmpty, FirstFree, Scanning, Replace, AllocSplits, TakePage,
        TakenFirst, CanPick, KindAt, Removed, Without, Chain, ScanReadsNull;
      ghost var secs, m0 := Contents(), slots[..];
      ghost var k, i := 0, 0;
      ok, base := true, 0;
      var selected := Slot(0);
      ScanStart(m0, order);
      while selected.Slot?
        invariant Valid() && next == old(next) && Scanning(slots[..], order, secs, k, i, selected)
        invariant AllocSplits(secs) ==> CanPick(slots[..], next, 1)
        decreases |secs| - k
      {
        ghost var m, was := slots[..], order;
        ScanFacts(m, order, secs, k, i, selected);
        var s := slots[selected.index];
        if s.pages == 0 {
          if s.next.Null? {
            ScanStops(m, order, secs, k, i, selected);
            return false, 0;
          }
          Unlink(selected.index, i);
          ScanDrop(m, slots[..], was, order, secs, k, i, selected);
          MoreUnused(m, slots[..], was, order, i, next);
          selected := slots[s.prev.index].next;
          k := k + 1;
          continue;
        }
        if s.free == Free {
          base := s.start;
          ScanTake(m, was, secs, k, i, selected);
          TakeFirst(selected.index, i);
          return;
        }
        ScanPass(m, order, secs, k, i, selected);
        selected := slots[selected.index].next;
        k, i := k + 1, i + 1;
      }
      ScanEnd(slots[..], order, secs, k, i);
    }

    /** The part of `pmm_free_page` for a page that starts section `k`. */
    method FreeFirst(selected: nat, ghost k: nat)
      requires Valid() && 0 < k < |order| && order[k] == selected && (k == |order| - 1 ==> Contents()[k].pages > 1)
      requires Contents()[k].pages > 0 && Contents()[k].kind != Free
      requires |FreeAt(Contents(), k, Contents()[k].start)| > |Contents()| ==> CanPick(slots[..], next, 1)
      modifies this`next, this`order, slots
      ensures Valid() && Contents() == FreeAt(old(Contents()), k, old(Contents())[k].start)
    {
      hide Linked, View, FreeAt, FirstMoved, FirstTurned, CanPick;
      ghost var m, secs := slots[..], Contents();
      DistinctNodes(m, order, k);
      NodeData(m, order, k);
      FreeFirstIs(secs, k);
      var p := slots[selected].prev.index;
      if slots[selected].pages == 1 {
        var n := slots[selected].next.index;
        if slots[p].free == Free && slots[n].free == Free {
          CombineNext(selected, k);
          CombineNext(p, k - 1);
        } else if slots[p].free == Free {
          CombinePrev(selected, k);
        } else if slots[n].free == Free {
          CombineNext(selected, k);
        } else {
          Store(selected, SecOf(slots[selected]).(kind := Free), k);
        }
      } else if slots[p].free == Free {
        GrowPrevious(selected, k);
      } else {
        TurnFirst(selected, Free, k);
      }
    }

    /** A split inside section `k`, after which the search stands at the new section. */
    method CutAt(selected: nat, page: nat, ghost k: nat, ghost more: nat) returns (behind: nat)
      requires Valid() && |order| > 1 && k < |order| && order[k] == selected
      requires Inside(Contents()[k], page) && CanPick(slots[..], next, more + 1)
      modifies this`next, this`order, slots
      ensures Valid() && k + 1 < |order| && order[k] == selected && order[k + 1] == behind < slots.Length
      ensures Contents() == CutIn(old(Contents()), k, page) && CanPick(slots[..], next, more)
    {
      hide Linked, View, SplitTo, CutIn, Inside, CanPick;
      ghost var m, was, next0 := slots[..], order, next;
      NodeData(m, was, k);
      InsideEnd(Contents()[k], page);
      OneOfMore(m, next, more);
      Split(selected, page, k);
      SplitInside(m, slots[..], was, order, next0, next, k, page, more);
      DistinctNodes(slots[..], order, k);
      behind := slots[selected].next.index;
    }

    /** The part of `pmm_free_page` for the last page of section `k`. */
    method FreeLastOf(selected: nat, page: nat, ghost k: nat) returns (now: nat, ghost j: nat)
      requires Valid() && k + 1 < |order| && order[k] == selected && Formed(Contents()) && page % 0x1000 == 0
      requires Contents()[k].kind != Free && Contents()[k].start < page && Contents()[k + 1].start == page + 0x1000
      requires |FreeAt(Contents(), k, page)| > |Contents()| ==> CanPick(slots[..], next, 1)
      modifies this`next, this`order, slots
      ensures Valid() && Contents() == FreeAt(old(Contents()), k, page)
      ensures j < |order| && order[j] == now && j == k + |Contents()| - |old(Contents())|
    {
      hide Linked, View, Formed, FreeAt, LastMoved, FirstTurned, CutIn, CanPick;
      ghost var m, secs := slots[..], Contents();
      DistinctNodes(m, order, k);
      NodeData(m, order, k);
      FreeLastIs(secs, k, page);
      var n := slots[selected].next.index;
      now, j := selected, k;
      if slots[n].free == Free {
        GrowNext(selected, k);
      } else {
        now := CutAt(selected, page, k, 0);
        j := k + 1;
        TurnFirst(now, Free, k + 1);
      }
    }

    /** The part of `pmm_free_page` for a page inside section `k`, which is not FREE. */
    method FreeWithin(selected: nat, page: nat, ghost k: nat) returns (now: nat, ghost j: nat)
      requires Valid() && k + 1 < |order| && order[k] == selected && Formed(Contents()) && page % 0x1000 == 0
      requires Contents()[k].kind != Free && Contents()[k].start < page < Contents()[k + 1].start
      requires |FreeAt(Contents(), k, page)| > |Contents()| ==> CanPick(slots[..], next, 1)
      modifies this`next, this`order, slots
      ensures Valid() && Contents() == FreeAt(old(Contents()), k, page)
      ensures j < |order| && order[j] == now && Ahead(Contents(), page, j, Free)
    {
      hide Linked, View, Formed, FreeAt, Ahead, CanPick;
      ghost var secs := Contents();
      NodeData(slots[..], order, k);
      DistinctNodes(slots[..], order, k);
      FreeAhead(secs, page, k);
      FreeInTheMiddle(secs, page, k);
      var n := slots[selected].next.index;
      now, j := selected, k;
      if slots[n].start - 0x1000 == page {
        now, j := FreeLastOf(selected, page, k);
      }
    }

    /** `pmm_free_page`; not `ok` where it follows the NULL link behind the last section. */
    method FreePage(page: nat) returns (ok: bool)
      requires Valid() && Formed(Contents()) && page % 0x1000 == 0 && 0 < page
      requires !FreeReadsNull(Contents(), page) ==>
                 CanPick(slots[..], next, Extra(Contents(), FreeSecs(Contents(), page)))
      modifies this`next, this`order, slots
      ensures Valid() && (ok <==> !FreeReadsNull(old(Contents()), page))
      ensures ok ==> Contents() == FreeSecs(old(Contents()), page)
    {
      hide Linked, View, Formed, FreeSecs, FreeAt, Find, Searching, Past, Ahead, CanPick, FreeReadsNull, Extra, Holds,
        LockSecs, LockAt;
      ghost var secs := Contents();
      ghost var k, done := 0, false;
      var selected := Slot(0);
      SearchStart(slots[..], order, page);
      while selected.Slot?
        invariant Valid() && (done || selected.Slot?)
        invariant done ==> !FreeReadsNull(secs, page)
        invariant done ==> Contents() == FreeSecs(secs, page) && Past(slots[..], order, page, k, selected, Free)
        invariant !done ==> Searching(slots[..], order, secs, page, k, selected)
        invariant !done && !FreeReadsNull(secs, page) ==> CanPick(slots[..], next, Extra(secs, FreeSecs(secs, page)))
        decreases !done, |order| - k
      {
        if done {
          PastFacts(slots[..], order, page, k, selected, Free);
        } else {
          FreeFacts(slots[..], order, secs, page, k, selected);
        }
        var s := slots[selected.index];
        if s.start == page {
          if s.free == Free {
            return true;
          }
          if s.pages == 1 && s.next.Null? {
            return false;
          }
          CanPickFewer(slots[..], next, secs, FreeSecs(secs, page));
          FreeFirst(selected.index, k);
          return true;
        }
        if s.start < page && s.next.Null? {
          return false;
        }
        if s.start < page && slots[s.next.index].start > page {
          if s.free == Free {
            return true;
          }
          CanPickFewer(slots[..], next, secs, FreeSecs(secs, page));
          done := true;
          var now;
          now, k := FreeWithin(selected.index, page, k);
          selected := Slot(now);
        }
        if done {
          PastNext(slots[..], order, page, k, Free);
        } else {
          SearchNext(slots[..], order, secs, page, k, selected);
        }
        selected := slots[selected.index].next;
        k := k + 1;
      }
      return true;
    }

    /** The part of `pmm_lock_page` for a one-page section: it turns USED and joins its USED neighbours. */
    method LockSingle(selected: nat, ghost k: nat)
      requires Valid() && 0 < k < |order| - 1 && order[k] == selected && Contents()[k].pages == 1
      requires Formed(Contents())
      modifies this`order, slots
      ensures Valid() && Contents() == LockAt(old(Contents()), k, old(Contents())[k].start)
    {
      hide Linked, View, LockAt, Formed, Replace, Removed;
      ghost var m, secs, was := slots[..], Contents(), order;
      DistinctNodes(m, was, k);
      NodeData(m, was, k);
      LockSingleIs(secs, k);
      var p, n := slots[selected].prev.index, slots[selected].next.index;
      Store(selected, SecOf(slots[selected]).(kind := Used), k);
      DistinctNodes(slots[..], was, k);
      NodeData(slots[..], was, k);
      if slots[p].free == Used && slots[n].free == Used {
        CombineNext(selected, k);
        RemovedFront(was, k);
        CombineNext(p, k - 1);
      } else if slots[p].free == Used {
        CombinePrev(selected, k);
      } else if slots[n].free == Used {
        CombineNext(selected, k);
      }
    }

    /** The part of `pmm_lock_page` for a page that starts section `k`. */
    method LockFirst(selected: nat, ghost k: nat)
      requires Valid() && 0 < k < |order| && order[k] == selected && Formed(Contents())
      requires k == |order| - 1 ==> Contents()[k].pages != 1
      requires |LockAt(Contents(), k, Contents()[k].start)| > |Contents()| ==> CanPick(slots[..], next, 1)
      modifies this`next, this`order, slots
      ensures Valid() && Contents() == LockAt(old(Contents()), k, old(Contents())[k].start)
    {
      hide Linked, View, LockAt, Formed, FirstMoved, FirstTurned, CanPick;
      ghost var m, secs, was := slots[..], Contents(), order;
      DistinctNodes(m, was, k);
      NodeData(m, was, k);
      LockFirstIs(secs, k);
      if slots[selected].pages == 1 {
        LockSingle(selected, k);
      } else if slots[selected].free != Used {
        if slots[slots[selected].prev.index].free == Used {
          GrowPrevious(selected, k);
        } else {
          TurnFirst(selected, Used, k);
        }
      }
    }

    /** The part of `pmm_lock_page` for a page inside section `k`, which is not USED. */
    method LockWithin(selected: nat, page: nat, ghost k: nat) returns (now: nat, ghost j: nat)
      requires Valid() && k + 1 < |order| && order[k] == selected && Formed(Contents()) && page % 0x1000 == 0
      requires Contents()[k].kind != Used && Contents()[k].start < page < Contents()[k + 1].start
      requires CanPick(slots[..], next, Extra(Contents(), LockAt(Contents(), k, page)))
      modifies this`next, this`order, slots
      ensures Valid() && Contents() == LockAt(old(Contents()), k, page)
      ensures j < |order| && order[j] == now && Ahead(Contents(), page, j, Used)
    {
      hide Linked, View, Formed, LockAt, Ahead, LastMoved, FirstTurned, CutIn, CanPick, Inside;
      ghost var secs := Contents();
      NodeData(slots[..], order, k);
      DistinctNodes(slots[..], order, k);
      LockAhead(secs, page, k);
      LockWithinIs(secs, k, page);
      var n := slots[selected].next.index;
      now, j := selected, k;
      if slots[n].start - 0x1000 == page {
        if slots[n].free == Used {
          GrowNext(selected, k);
        } else {
          now := CutAt(selected, page, k, 0);
          j := k + 1;
          NodeData(slots[..], order, k + 1);
          Store(now, SecOf(slots[now]).(kind := Used), k + 1);
        }
      } else {
        now := CutAt(selected, page, k, 1);
        j := k + 1;
        TurnFirst(now, Used, k + 1);
      }
    }

    /** `pmm_lock_page`; not `ok` where it follows the NULL link behind the last section. */
    method LockPage(page: nat) returns (ok: bool)
      requires Valid() && Formed(Contents()) && page % 0x1000 == 0 && 0 < page
      requires !ReadsNull(Contents(), page) ==> CanPick(slots[..], next, Extra(Contents(), LockSecs(Contents(), page)))
      modifies this`next, this`order, slots
      ensures Valid() && (ok <==> !ReadsNull(old(Contents()), page))
      ensures ok ==> Contents() == LockSecs(old(Contents()), page)
    {
      hide Linked, View, Formed, LockSecs, LockAt, Find, Searching, Past, Ahead, CanPick, ReadsNull, Extra, Holds,
        FreeSecs, FreeAt;
      ghost var secs := Contents();
      ghost var k, done := 0, false;
      var selected := Slot(0);
      SearchStart(slots[..], order, page);
      while selected.Slot?
        invariant Valid() && (done || selected.Slot?)
        invariant done ==> !ReadsNull(secs, page)
        invariant done ==> Contents() == LockSecs(secs, page) && Past(slots[..], order, page, k, selected, Used)
        invariant !done ==> Searching(slots[..], order, secs, page, k, selected)
        invariant !done && !ReadsNull(secs, page) ==> CanPick(slots[..], next, Extra(secs, LockSecs(secs, page)))
        decreases !done, |order| - k
      {
        if done {
          PastFacts(slots[..], order, page, k, selected, Used);
        } else {
          LockFacts(slots[..], order, secs, page, k, selected);
        }
        var s := slots[selected.index];
        if s.start == page {
          if s.pages == 1 && s.next.Null? {
            return false;
          }
          if s.pages != 1 && s.free == Used {
            LockUsed(secs, k, page);
            return true;
          }
          CanPickFewer(slots[..], next, secs, LockSecs(secs, page));
          LockFirst(selected.index, k);
          return true;
        }
        if s.start < page && s.next.Null? {
          return false;
        }
        if s.start < page && slots[s.next.index].start > page {
          if s.free == Used {
            LockUsed(secs, k, page);
            return true;
          }
          done := true;
          var now;
          now, k := LockWithin(selected.index, page, k);
          selected := Slot(now);
        }
        if done {
          PastNext(slots[..], order, page, k, Used);
        } else {
          SearchNext(slots[..], order, secs, page, k, selected);
        }
        selected := slots[selected.index].next;
        k := k + 1;
      }
      return true;
    }

    /** The merge step of `pmm_recombine`: node `k` takes in the node behind it. */
    method TakeInNext(current: nat, ghost k: nat)
      requires Valid() && k + 1 < |order| && order[k] == current
      modifies this`order, slots
      ensures Valid() && TakesInNext(old(slots[..]), slots[..], old(order), order, k)
    {
      hide Linked, View, Replace, Removed, Unlinks, Node, TakesInNext;
      ghost var m := slots[..];
      DistinctNodes(m, order, k);
      DistinctNodes(m, order, k + 1);
      var n := slots[current].next.index;
      slots[current] := slots[current].(pages := slots[current].pages + slots[n].pages);
      if slots[n].next.Slot? {
        slots[current] := slots[current].(next := slots[n].next);
        var nn := slots[current].next.index;
        DeleteSection(slots[nn].prev.index);
        slots[nn] := slots[nn].(prev := Slot(current));
        assert slots[..] == m[current := slots[current]][nn := slots[nn]][n := Cleared()];
        TakenInMiddle(m, order, k, slots[current], slots[nn]);
      } else {
        DeleteSection(n);
        slots[current] := slots[current].(next := Null);
        assert slots[..] == m[current := slots[current]][n := Cleared()];
        TakenInLast(m, order, k, slots[current]);
      }
      order := Removed(order, k + 1);
    }

    /** `pmm_lock_pages` on free pages; only the first of them may take new slots. It is not `ok` when
        one of them makes `pmm_lock_page` follow the NULL link. */
    method LockPages(page: nat, count: nat) returns (ok: bool)
      requires Valid() && Formed(Contents()) && page % 0x1000 == 0
      requires AllOf(Contents(), page, page + count * 0x1000, Free)
      requires count > 0 && !ReadsNull(Contents(), page) ==>
                 CanPick(slots[..], next, Extra(Contents(), LockSecs(Contents(), page)))
      modifies this`next, this`order, slots
      ensures Valid() && (ok <==> !ManyReadNull(old(Contents()), page, count))
      ensures ok ==> Contents() == LockMany(old(Contents()), page, count)
    {
      hide Linked, View, Formed, LockSecs, KindAt, CanPick, LockMany, Lockable, ReadsNull, ManyReadNull;
      ghost var secs := Contents();
      for i := 0 to count
        invariant Valid() && Formed(Contents())
        invariant AllOf(Contents(), page + i * 0x1000, page + count * 0x1000, Free)
        invariant LockMany(Contents(), page + i * 0x1000, count - i) == LockMany(secs, page, count)
        invariant ManyReadNull(Contents(), page + i * 0x1000, count - i) <==> ManyReadNull(secs, page, count)
        invariant i < count && !ReadsNull(Contents(), page + i * 0x1000) ==>
                    CanPick(slots[..], next, Extra(Contents(), LockSecs(Contents(), page + i * 0x1000)))
      {
        ghost var was := Contents();
        var p := page + i * 0x1000;
        LockManyStep(was, p, count - i);
        FreePageLockable(was, p);
        ok := LockPage(p);
        if !ok {
          return;
        }
        LockReadsNull(was, p);
        LockSets(was, p);
        if i + 1 < count && !ReadsNull(Contents(), p + 0x1000) {
          FreePageLockable(Contents(), p + 0x1000);
          LockReadsNull(Contents(), p + 0x1000);
          LockNextTakesNoSlot(Contents(), p + 0x1000);
          CanPickNone(slots[..], next, Contents(), LockSecs(Contents(), p + 0x1000));
        }
      }
      LockManyNone(Contents(), page + count * 0x1000);
      LockNoneReadsNull(Contents(), page + count * 0x1000);
      return true;
    }

    /** `pmm_recombine`. */
    method Recombine()
      requires Valid()
      modifies this`order, slots
      ensures Valid() && Contents() == Merged(old(Contents()))
      ensures forall i :: i in order ==> i in old(order)
    {
      hide Linked, View, Merged, Pass;
      ghost var secs := Contents();
      var iteration, detected := 0, false;
      while !(!detected && iteration > 0)
        invariant Valid() && iteration >= 0 && Merged(Contents()) == Merged(secs)
        invariant iteration > 0 && !detected ==> Alternating(Contents())
        invariant forall i :: i in order ==> i in old(order)
        decreases |order|, detected || iteration == 0
      {
        MergedOfPass(Contents());
        PassShrinks(Contents());
        detected := RecombineOnce();
        iteration := iteration + 1;
      }
      AlternatingIsMerged(Contents());
    }

    /** One pass over the list. */
    method RecombineOnce() returns (detected: bool)
      requires Valid()
      modifies this`order, slots
      ensures Valid() && Contents() == Pass(old(Contents()))
      ensures |order| == |Pass(old(Contents()))| && (detected <==> |order| < |old(order)|)
      ensures forall i :: i in order ==> i in old(order)
    {
      hide Linked, View, Pass, TakesInNext, Passing;
      ghost var secs, k := Contents(), 0;
      detected := false;
      var current := Slot(0);
      PassStart(slots[..], order);
      while current.Slot?
        invariant Valid() && Passing(slots[..], order, secs, k, current)
        invariant |order| <= |secs| && (detected <==> |order| < |secs|)
        invariant forall i :: i in order ==> i in old(order)
        decreases |secs| + |order| - k
      {
        PassFacts(slots[..], order, secs, k, current);
        if slots[current.index].next.Null? {
          return;
        }
        if slots[current.index].free != slots[slots[current.index].next.index].free {
          PassOver(slots[..], order, secs, k, current);
          current := slots[current.index].next;
          k := k + 1;
          continue;
        }
        detected := true;
        ghost var m, was := slots[..], order;
        TakeInNext(current.index, k);
        PassFused(m, slots[..], was, order, secs, k, current);
        TakesInNextKeeps(m, slots[..], was, order, k);
        current := slots[current.index].next;
        k := k + 1;
      }
      PassEnd(slots[..], order, secs, k);
    }

    /** The search and lock of `pmm_alloc_pool`; not `ok` where locking follows the NULL link. */
    method AllocPool(count: nat) returns (ok: bool, base: nat)
      requires Valid() && Formed(Contents())
      requires var k := FirstFit(Contents(), 0, count);
               k < |Contents()| && count > 0 && !ReadsNull(Contents(), Contents()[k].start) ==>
                 CanPick(slots[..], next, Extra(Contents(), LockSecs(Contents(), Contents()[k].start)))
      modifies this`next, this`order, slots
      ensures Valid() && (ok <==> !PoolReadsNull(old(Contents()), count))
      ensures ok ==> Contents() == PoolSecs(old(Contents()), count).0
      ensures ok ==> base == match PoolSecs(old(Contents()), count).1 case Some(b) => b case None => 0
    {
      hide Linked, View, Formed, LockSecs, LockMany, KindAt, CanPick, FirstFit, Merged, ReadsNull,
        ManyReadNull, PoolReadsNull, Stretch;
      ghost var secs, k := Contents(), 0;
      var section := Slot(0);
      FitStart(slots[..], order, count);
      hide Fitting;
      while section.Slot?
        invariant Valid() && Fitting(slots[..], order, secs, count, k, section)
        invariant slots[..] == old(slots[..]) && next == old(next)
        decreases |secs| - k
      {
        FitFacts(slots[..], order, secs, count, k, section);
        var s := slots[section.index];
        if s.pages >= count && s.free == Free {
          FitIsFree(secs, k, count);
          ok := LockPages(s.start, count);
          return ok, s.start;
        }
        FitNext(slots[..], order, secs, count, k, section);
        section := s.next;
        k := k + 1;
      }
      FitNone(slots[..], order, secs, count, k);
      Recombine();
      return true, 0;
    }
  }

  /** `FreeAt` for a page that starts a section, case by case. */
  lemma FreeFirstIs(secs: seq<Sec>, k: nat)
    requires 0 < k < |secs| && (k == |secs| - 1 ==> secs[k].pages > 1) && secs[k].pages > 0 && secs[k].kind != Free
    ensures FreeAt(secs, k, secs[k].start) ==
      if secs[k].pages == 1 && (secs[k - 1].kind == Free || secs[k + 1].kind == Free) then secs
      else if secs[k].pages == 1 then secs[k := secs[k].(kind := Free)]
      else if secs[k - 1].kind == Free then FirstMoved(secs, k)
      else FirstTurned(secs, k, Free)
    ensures secs[k].pages > 1 ==> |FirstTurned(secs, k, Free)| == |secs| + 1
  {
    assert Replace(secs, k, k + 1, [secs[k].(kind := Free)]) == secs[k := secs[k].(kind := Free)];
  }

  // ---------------------------------------------------------------- cutting a section

  predicate Inside(s: Sec, page: nat) {
    s.start < page < End(s) && s.start % 0x1000 == 0 && page % 0x1000 == 0
  }

  lemma InsideEnd(s: Sec, page: nat)
    requires Inside(s, page)
    ensures s.start < page < End(s)
    ensures Minus(s.pages, PagesBetween(page, End(s))) == PagesBetween(s.start, page) <= s.pages
    ensures Minus(s.pages, PagesBetween(s.start, page)) == s.pages - PagesBetween(s.start, page)
  {
    assert End(s) - page == s.pages * 0x1000 - (page - s.start);
  }

  /** Section `k` cut in two at `page`. */
  ghost function CutIn(secs: seq<Sec>, k: nat, page: nat): seq<Sec>
    requires k < |secs| && Inside(secs[k], page)
  {
    var d := PagesBetween(secs[k].start, page);
    Replace(secs, k, k + 1, [Sec(secs[k].start, d, secs[k].kind), Sec(page, Minus(secs[k].pages, d), secs[k].kind)])
  }

  lemma OneOfMore(m: seq<Section>, next: nat, more: nat)
    requires CanPick(m, next, more + 1)
    ensures CanPick(m, next, 1)
    ensures PickSlot(m, next).Slot? && PickSlot(m, next).index < |m|
    ensures var p := PickSlot(m, next).index; CanPick(m[p := m[p].(prev := Slot(0))], p + 1, more)
  {
  }

  lemma SplitInside(m: seq<Section>, m': seq<Section>, order: seq<nat>, order': seq<nat>, next: nat, next': nat,
                    k: nat, page: nat, more: nat)
    requires Linked(m, order) && Linked(m', order') && k < |order| && Inside(View(m, order)[k], page)
    requires SplitTo(m, m', order, order', next, next', k, page) && CanPick(m, next, more + 1)
    ensures k + 1 < |order'| && order'[k] == order[k] && View(m', order') == CutIn(View(m, order), k, page)
    ensures CanPick(m', next', more)
  {
    var s := View(m, order)[k];
    InsideEnd(s, page);
    var p := PickSlot(m, next).index;
    OneOfMore(m, next, more);
    InsertedBehind(order, k, p);
    CanPickSameUse(m', m[p := m[p].(prev := Slot(0))], next', more);
    hide Linked, View, Replace, Minus, PagesBetween, Inserted, CanPick, PickSlot;
  }

  /** `FreeAt` for the last page of a section, case by case. */
  lemma FreeLastIs(secs: seq<Sec>, k: nat, page: nat)
    requires Formed(secs) && k + 1 < |secs| && page % 0x1000 == 0
    requires secs[k].kind != Free && secs[k].start < page && secs[k + 1].start == page + 0x1000
    ensures Inside(secs[k], page) && secs[k + 1].start >= 0x1000
    ensures |LastMoved(secs, k)| == |secs|
    ensures |CutIn(secs, k, page)| == |secs| + 1 && CutIn(secs, k, page)[k + 1].pages == 1
    ensures |FirstTurned(CutIn(secs, k, page), k + 1, Free)| == |secs| + 1
    ensures FreeAt(secs, k, page) ==
      if secs[k + 1].kind == Free then LastMoved(secs, k) else FirstTurned(CutIn(secs, k, page), k + 1, Free)
  {
    Around(secs, k);
    hide Formed;
    var s := secs[k];
    AlignedGap(s.start, page);
    var d := PagesBetween(s.start, page);
    assert d == s.pages - 1;
    var c := CutIn(secs, k, page);
    assert c[k + 1] == Sec(page, 1, s.kind);
    assert FirstTurned(c, k + 1, Free) == Replace(secs, k, k + 1, [Sec(s.start, d, s.kind), Sec(page, 1, Free)]);
  }

  /** The section at `k` turned USED. */
  ghost function Usable(secs: seq<Sec>, k: nat): seq<Sec>
    requires k < |secs|
  {
    secs[k := secs[k].(kind := Used)]
  }

  /** The section at `k` turned USED and taken in by the section behind it. */
  ghost function UsableNext(secs: seq<Sec>, k: nat): seq<Sec>
    requires k + 1 < |secs|
  {
    var n := secs[k + 1];
    Replace(Usable(secs, k), k, k + 2, [Sec(secs[k].start, n.pages + secs[k].pages, n.kind)])
  }

  /** `LockAt` for a one-page section, as the joins it is made of. */
  lemma LockSingleIs(secs: seq<Sec>, k: nat)
    requires 0 < k < |secs| - 1 && secs[k].pages == 1 && Formed(secs)
    ensures secs[k - 1].kind == Used ==> k > 1
    ensures |Usable(secs, k)| == |secs| && Usable(secs, k)[k] == secs[k].(kind := Used)
    ensures Usable(secs, k)[k - 1] == secs[k - 1] && Usable(secs, k)[k + 1] == secs[k + 1]
    ensures |UsableNext(secs, k)| == |secs| - 1 && UsableNext(secs, k)[k - 1] == secs[k - 1]
    ensures UsableNext(secs, k)[k] == Sec(secs[k].start, secs[k + 1].pages + 1, secs[k + 1].kind)
    ensures LockAt(secs, k, secs[k].start) ==
      if secs[k - 1].kind == Used && secs[k + 1].kind == Used then
        Replace(UsableNext(secs, k), k - 1, k + 1,
                [Sec(secs[k - 1].start, secs[k + 1].pages + 1 + secs[k - 1].pages, secs[k + 1].kind)])
      else if secs[k - 1].kind == Used then
        Replace(Usable(secs, k), k - 1, k + 1, [Fuse(secs[k - 1], secs[k].(kind := Used))])
      else if secs[k + 1].kind == Used then UsableNext(secs, k)
      else Usable(secs, k)
  {
    hide Replace, Formed;
    Around(secs, k);
    var p, s, n := secs[k - 1], secs[k], secs[k + 1];
    var one, x := s.(kind := Used), Sec(s.start, n.pages + s.pages, n.kind);
    TwoJoins(secs, k, one, x, Sec(p.start, p.pages + 1 + n.pages, n.kind));
    OneJoin(secs, k, one, Grown(p), x);
  }

  lemma TwoJoins(secs: seq<Sec>, k: nat, one: Sec, x: Sec, y: Sec)
    requires 0 < k < |secs| - 1
    ensures var two := Replace(secs[k := one], k, k + 2, [x]);
            && |two| == |secs| - 1 && two[k - 1] == secs[k - 1] && two[k] == x
            && Replace(two, k - 1, k + 1, [y]) == Replace(secs, k - 1, k + 2, [y])
  {
  }

  lemma OneJoin(secs: seq<Sec>, k: nat, one: Sec, y: Sec, z: Sec)
    requires 0 < k < |secs| - 1
    ensures Replace(secs[k := one], k - 1, k + 1, [y]) == Replace(secs, k - 1, k + 1, [y])
    ensures Replace(secs[k := one], k, k + 2, [z]) == Replace(secs, k, k + 2, [z])
    ensures secs[k := one] == Replace(secs, k, k + 1, [one])
  {
  }

  /** `LockAt` for a page that starts a section, case by case. */
  lemma LockFirstIs(secs: seq<Sec>, k: nat)
    requires 0 < k < |secs| && Formed(secs) && (k == |secs| - 1 ==> secs[k].pages != 1)
    ensures secs[k].pages == 0 ==> secs[k].kind == Free && secs[k - 1].kind == Used
    ensures secs[k].pages != 1 ==>
              LockAt(secs, k, secs[k].start) == (if secs[k].kind == Used then secs
                                                 else if secs[k - 1].kind == Used then FirstMoved(secs, k)
                                                 else FirstTurned(secs, k, Used))
    ensures secs[k].pages > 1 ==> |FirstTurned(secs, k, Used)| == |secs| + 1
  {
    Around(secs, k);
  }

  /** How many slots an operation takes. */
  function Extra(was: seq<Sec>, now: seq<Sec>): nat {
    if |now| > |was| then |now| - |was| else 0
  }

  lemma CanPickFewer(m: seq<Section>, next: nat, was: seq<Sec>, now: seq<Sec>)
    requires CanPick(m, next, Extra(was, now))
    ensures |now| > |was| ==> CanPick(m, next, 1)
  {
  }

  lemma LockUsed(secs: seq<Sec>, k: nat, page: nat)
    ensures k < |secs| && secs[k].kind == Used && (secs[k].start == page ==> secs[k].pages != 1) ==>
              LockAt(secs, k, page) == secs
  {
  }

  /** `LockAt` for a page inside a section, case by case. */
  lemma LockWithinIs(secs: seq<Sec>, k: nat, page: nat)
    requires Formed(secs) && k + 1 < |secs| && page % 0x1000 == 0
    requires secs[k].kind != Used && secs[k].start < page < secs[k + 1].start
    ensures Inside(secs[k], page) && secs[k + 1].start >= 0x1000
    ensures |CutIn(secs, k, page)| == |secs| + 1 && CutIn(secs, k, page)[k + 1].pages > 0
    ensures secs[k + 1].start == page + 0x1000 && secs[k + 1].kind == Used ==>
              LockAt(secs, k, page) == LastMoved(secs, k) && |LastMoved(secs, k)| == |secs|
    ensures secs[k + 1].start == page + 0x1000 && secs[k + 1].kind != Used ==>
              var c := CutIn(secs, k, page);
              LockAt(secs, k, page) == c[k + 1 := c[k + 1].(kind := Used)]
    ensures secs[k + 1].start != page + 0x1000 ==>
              var c := CutIn(secs, k, page);
              && LockAt(secs, k, page) == FirstTurned(c, k + 1, Used) && c[k + 1].pages > 1
              && |FirstTurned(c, k + 1, Used)| == |secs| + 2
  {
    Around(secs, k);
    hide Formed, Replace, LockAt, CutIn, FirstTurned;
    var s, n := secs[k], secs[k + 1];
    AlignedGap(s.start, page);
    var d := PagesBetween(s.start, page);
    LockWithinForm(secs, k, page, d);
    LastMovedForm(secs, k);
    CutInIs(secs, k, page, d);
    if n.start == page + 0x1000 {
      assert d == s.pages - 1;
      CutLast(secs, k, page, d);
    } else {
      CutMiddle(secs, k, page, d);
    }
  }

  lemma LockWithinForm(secs: seq<Sec>, k: nat, page: nat, d: nat)
    requires k + 1 < |secs| && secs[k].kind != Used && secs[k].start < page < secs[k + 1].start
    requires d == PagesBetween(secs[k].start, page) < secs[k].pages
    ensures var s, n := secs[k], secs[k + 1];
            LockAt(secs, k, page) ==
              if n.start != page + 0x1000 then
                Replace(secs, k, k + 1, [Sec(s.start, d, s.kind), Sec(page, 1, Used),
                                         Sec(page + 0x1000, s.pages - d - 1, s.kind)])
              else if n.kind == Used then
                Replace(secs, k, k + 2, [Sec(s.start, d, s.kind), Sec(page, n.pages + 1, Used)])
              else
                Replace(secs, k, k + 1, [Sec(s.start, d, s.kind), Sec(page, 1, Used)])
  {
    hide Replace, PagesBetween;
  }

  lemma LastMovedForm(secs: seq<Sec>, k: nat)
    requires k + 1 < |secs| && secs[k + 1].start >= 0x1000 && secs[k].pages > 0
    ensures LastMoved(secs, k) == Replace(secs, k, k + 2,
              [Sec(secs[k].start, secs[k].pages - 1, secs[k].kind),
               Sec(secs[k + 1].start - 0x1000, secs[k + 1].pages + 1, secs[k + 1].kind)])
    ensures |LastMoved(secs, k)| == |secs|
  {
  }

  lemma CutInIs(secs: seq<Sec>, k: nat, page: nat, d: nat)
    requires k < |secs| && Inside(secs[k], page) && d == PagesBetween(secs[k].start, page) < secs[k].pages
    ensures CutIn(secs, k, page)
         == Replace(secs, k, k + 1, [Sec(secs[k].start, d, secs[k].kind), Sec(page, secs[k].pages - d, secs[k].kind)])
    ensures |CutIn(secs, k, page)| == |secs| + 1
    ensures CutIn(secs, k, page)[k + 1] == Sec(page, secs[k].pages - d, secs[k].kind)
  {
  }

  lemma CutLast(secs: seq<Sec>, k: nat, page: nat, d: nat)
    requires k < |secs|
    ensures var s := secs[k];
            var c := Replace(secs, k, k + 1, [Sec(s.start, d, s.kind), Sec(page, 1, s.kind)]);
            && |c| == |secs| + 1
            && c[k + 1 := c[k + 1].(kind := Used)]
               == Replace(secs, k, k + 1, [Sec(s.start, d, s.kind), Sec(page, 1, Used)])
  {
  }

  lemma CutMiddle(secs: seq<Sec>, k: nat, page: nat, d: nat)
    requires k < |secs| && d + 1 < secs[k].pages
    ensures var s := secs[k];
            var c := Replace(secs, k, k + 1, [Sec(s.start, d, s.kind), Sec(page, s.pages - d, s.kind)]);
            && |c| == |secs| + 1
            && FirstTurned(c, k + 1, Used)
               == Replace(secs, k, k + 1, [Sec(s.start, d, s.kind), Sec(page, 1, Used),
                                           Sec(page + 0x1000, s.pages - d - 1, s.kind)])
            && |FirstTurned(c, k + 1, Used)| == |secs| + 2
  {
  }

  // ---------------------------------------------------------------- the page search

  /** The search for `page` has passed the first `k` sections and stands at the next. */
  ghost predicate Searching(m: seq<Section>, order: seq<nat>, secs: seq<Sec>, page: nat, k: nat, selected: Pointer) {
    && Linked(m, order) && Formed(secs) && View(m, order) == secs
    && page % 0x1000 == 0 && 0 < page
    && k < |order| && selected == Slot(order[k])
    && Find(secs, 0, page) == Find(secs, k, page) && secs[k].start <= page
  }

  /** Behind section `k` every section starts above the page, but the next may be one of the state
      `kind` that starts at it. */
  ghost predicate Ahead(secs: seq<Sec>, page: nat, k: nat, kind: Kind) {
    forall i :: k < i < |secs| ==>
      || secs[i].start > page
      || (i == k + 1 && secs[i].start == page && secs[i].kind == kind && (kind == Used ==> secs[i].pages > 1))
  }

  /** The page was dealt with; the walk goes on to the end of the list. */
  ghost predicate Past(m: seq<Section>, order: seq<nat>, page: nat, k: nat, selected: Pointer, kind: Kind) {
    && Linked(m, order) && 0 < k <= |order| && Ahead(View(m, order), page, k - 1, kind)
    && selected == (if k < |order| then Slot(order[k]) else Null)
  }

  lemma SearchStart(m: seq<Section>, order: seq<nat>, page: nat)
    requires Linked(m, order) && Formed(View(m, order)) && page % 0x1000 == 0 && 0 < page
    ensures Searching(m, order, View(m, order), page, 0, Slot(0))
  {
  }

  /** What is known of the section the search stands at. */
  lemma SearchFacts(m: seq<Section>, order: seq<nat>, secs: seq<Sec>, page: nat, k: nat, selected: Pointer)
    requires Searching(m, order, secs, page, k, selected)
    ensures Linked(m, order) && View(m, order) == secs && Formed(secs) && page % 0x1000 == 0
    ensures k < |order| == |secs| && selected == Slot(order[k]) && order[k] < |m| && SecOf(m[order[k]]) == secs[k]
    ensures k == |order| - 1 ==> m[order[k]].next == Null
    ensures k < |order| - 1 ==>
              && m[order[k]].next == Slot(order[k + 1]) && order[k + 1] < |m| && SecOf(m[order[k + 1]]) == secs[k + 1]
    ensures Holds(secs, k, page) ==>
              && Find(secs, 0, page) == k && FreeSecs(secs, page) == FreeAt(secs, k, page)
              && LockSecs(secs, page) == LockAt(secs, k, page)
    ensures secs[k].start <= page && (secs[k].start == page ==> k > 0)
    ensures secs[k].kind == Free && Holds(secs, k, page) ==> FreeAt(secs, k, page) == secs
    ensures secs[k].kind != Free ==> secs[k].pages > 0
    ensures page < secs[|secs| - 1].start ==> k < |order| - 1
    ensures Find(secs, 0, page) >= k
  {
    DistinctNodes(m, order, k);
    NodeData(m, order, k);
    Around(secs, k);
  }

  /** What `pmm_lock_page` needs to know of the section it stands at. */
  lemma LockFacts(m: seq<Section>, order: seq<nat>, secs: seq<Sec>, page: nat, k: nat, selected: Pointer)
    requires Searching(m, order, secs, page, k, selected)
    ensures Linked(m, order) && View(m, order) == secs && Formed(secs) && page % 0x1000 == 0
    ensures k < |order| == |secs| && selected == Slot(order[k]) && order[k] < |m| && SecOf(m[order[k]]) == secs[k]
    ensures k == |order| - 1 ==> m[order[k]].next == Null
    ensures k < |order| - 1 ==>
              && m[order[k]].next == Slot(order[k + 1]) && order[k + 1] < |m| && SecOf(m[order[k + 1]]) == secs[k + 1]
    ensures Holds(secs, k, page) ==> LockSecs(secs, page) == LockAt(secs, k, page)
    ensures Holds(secs, k, page)
            <==> secs[k].start == page || (k < |order| - 1 && secs[k].start < page < secs[k + 1].start)
    ensures secs[k].start <= page && (secs[k].start == page ==> k > 0) && (secs[k].kind != Free ==> secs[k].pages > 0)
    ensures Holds(secs, k, page) && !(k == |order| - 1 && secs[k].pages == 1) ==> !ReadsNull(secs, page)
    ensures k == |order| - 1 && (secs[k].start < page || secs[k].pages == 1) ==> ReadsNull(secs, page)
  {
    hide Linked, View, Formed, LockSecs, LockAt, Find, FreeSecs, FreeAt;
    SearchFacts(m, order, secs, page, k, selected);
  }

  /** What `pmm_free_page` needs to know of it. */
  lemma FreeFacts(m: seq<Section>, order: seq<nat>, secs: seq<Sec>, page: nat, k: nat, selected: Pointer)
    requires Searching(m, order, secs, page, k, selected)
    ensures Linked(m, order) && View(m, order) == secs && Formed(secs) && page % 0x1000 == 0
    ensures k < |order| == |secs| && selected == Slot(order[k]) && order[k] < |m| && SecOf(m[order[k]]) == secs[k]
    ensures k == |order| - 1 ==> m[order[k]].next == Null
    ensures k < |order| - 1 ==>
              && m[order[k]].next == Slot(order[k + 1]) && order[k + 1] < |m| && SecOf(m[order[k + 1]]) == secs[k + 1]
    ensures Holds(secs, k, page) ==> FreeSecs(secs, page) == FreeAt(secs, k, page)
    ensures Holds(secs, k, page) && secs[k].kind == Free ==> FreeSecs(secs, page) == secs
    ensures Holds(secs, k, page)
            <==> secs[k].start == page || (k < |order| - 1 && secs[k].start < page < secs[k + 1].start)
    ensures secs[k].start <= page && (secs[k].start == page ==> k > 0) && (secs[k].kind != Free ==> secs[k].pages > 0)
    ensures Holds(secs, k, page) && (k < |order| - 1 || secs[k].pages != 1 || secs[k].kind == Free) ==>
              !FreeReadsNull(secs, page)
    ensures k == |order| - 1 && (secs[k].start < page || (secs[k].pages == 1 && secs[k].kind != Free)) ==>
              FreeReadsNull(secs, page)
  {
    hide Linked, View, Formed, LockSecs, LockAt, Find, FreeSecs, FreeAt;
    SearchFacts(m, order, secs, page, k, selected);
  }

  lemma SearchNext(m: seq<Section>, order: seq<nat>, secs: seq<Sec>, page: nat, k: nat, selected: Pointer)
    requires Searching(m, order, secs, page, k, selected) && k + 1 < |order| && !Holds(secs, k, page)
    ensures order[k] < |m| && Searching(m, order, secs, page, k + 1, m[order[k]].next)
  {
    DistinctNodes(m, order, k);
  }

  lemma PastFacts(m: seq<Section>, order: seq<nat>, page: nat, k: nat, selected: Pointer, kind: Kind)
    requires Past(m, order, page, k, selected, kind) && selected.Slot?
    ensures k < |order| && selected == Slot(order[k]) && order[k] < |m|
    ensures m[order[k]].start >= page && Ahead(View(m, order), page, k, kind)
    ensures m[order[k]].start == page ==> m[order[k]].free == kind && (kind == Used ==> m[order[k]].pages > 1)
  {
    NodeData(m, order, k);
  }

  lemma PastNext(m: seq<Section>, order: seq<nat>, page: nat, k: nat, kind: Kind)
    requires Linked(m, order) && k < |order| && Ahead(View(m, order), page, k, kind)
    ensures order[k] < |m| && Past(m, order, page, k + 1, m[order[k]].next, kind)
  {
    DistinctNodes(m, order, k);
  }

  lemma {:induction false} StartsAbove(secs: seq<Sec>, page: nat, k: nat)
    requires Formed(secs) && (k < |secs| ==> secs[k].start > page)
    ensures forall i :: k <= i < |secs| ==> secs[i].start > page
  {
    ChainOf(secs);
    forall i | k <= i < |secs| ensures secs[i].start > page {
      StartsBefore(secs, k, i);
    }
  }

  /** After `pmm_lock_page` dealt with a page inside a section, the walk finds no more to do. */
  lemma LockAhead(secs: seq<Sec>, page: nat, k: nat)
    requires Formed(secs) && k + 1 < |secs| && page % 0x1000 == 0
    requires secs[k].start < page < secs[k + 1].start && secs[k].kind != Used
    ensures var r := LockAt(secs, k, page);
            |r| >= |secs| && Ahead(r, page, k + (if |r| > |secs| then 1 else 0), Used)
  {
    hide Replace, KindAt, SetsPage, Chain, Touching, KeepsEnd, PagesBetween;
    Around(secs, k);
    LockInside(secs, k, page);
    var s, n, r := secs[k], secs[k + 1], LockAt(secs, k, page);
    var before := Sec(s.start, PagesBetween(s.start, page), s.kind);
    if n.start == page + 0x1000 && n.kind == Used {
      ReplacedAt(secs, k, k + 2, [before, Sec(page, n.pages + 1, Used)]);
    } else if n.start == page + 0x1000 {
      ReplacedAt(secs, k, k + 1, [before, Sec(page, 1, Used)]);
    } else {
      var behind := Sec(page + 0x1000, Less(Minus(s.pages, PagesBetween(s.start, page))), s.kind);
      ReplacedAt(secs, k, k + 1, [before, Sec(page, 1, Used), behind]);
    }
    StartsAbove(r, page, k + 2);
  }

  /** What stands behind the first section of a replacement. */
  lemma ReplacedAt(secs: seq<Sec>, k: nat, j: nat, mid: seq<Sec>)
    requires k < j <= |secs| && 2 <= |mid| <= 3
    ensures var r := Replace(secs, k, j, mid);
            && |r| == |secs| - (j - k) + |mid| && r[k + 1] == mid[1]
            && (k + 2 < |r| ==> r[k + 2] == if |mid| == 3 then mid[2] else secs[j])
  {
  }

  lemma FreeInTheMiddle(secs: seq<Sec>, page: nat, k: nat)
    requires k + 1 < |secs| && secs[k].start < page
    ensures secs[k + 1].start != page + 0x1000 ==> FreeAt(secs, k, page) == secs
  {
  }

  /** After `pmm_free_page` dealt with a page inside a section, the walk finds no more to do. */
  lemma FreeAhead(secs: seq<Sec>, page: nat, k: nat)
    requires Formed(secs) && k + 1 < |secs| && page % 0x1000 == 0
    requires secs[k].start < page < secs[k + 1].start && secs[k].kind != Free
    ensures var r := FreeAt(secs, k, page); |r| >= |secs| && Ahead(r, page, k + |r| - |secs|, Free)
  {
    hide Replace, KindAt, SetsPage, Chain, Touching, KeepsEnd, PagesBetween;
    Around(secs, k);
    var s, n, r := secs[k], secs[k + 1], FreeAt(secs, k, page);
    var before := Sec(s.start, PagesBetween(s.start, page), s.kind);
    if n.start == page + 0x1000 {
      FreeInside(secs, k, page);
      if n.kind == Free {
        ReplacedAt(secs, k, k + 2, [before, Sec(page, n.pages + 1, Free)]);
      } else {
        ReplacedAt(secs, k, k + 1, [before, Sec(page, 1, Free)]);
      }
      StartsAbove(r, page, k + 2);
    } else {
      StartsAbove(secs, page, k + 1);
    }
  }

  lemma CanPickNone(m: seq<Section>, next: nat, was: seq<Sec>, now: seq<Sec>)
    requires |now| <= |was|
    ensures CanPick(m, next, Extra(was, now))
  {
  }

  lemma LockManyStep(secs: seq<Sec>, page: nat, count: nat)
    requires count > 0
    ensures LockMany(secs, page, count) == LockMany(LockSecs(secs, page), page + 0x1000, count - 1)
    ensures ManyReadNull(secs, page, count)
            <==> ReadsNull(secs, page) || ManyReadNull(LockSecs(secs, page), page + 0x1000, count - 1)
  {
  }

  lemma LockNoneReadsNull(secs: seq<Sec>, page: nat)
    ensures !ManyReadNull(secs, page, 0)
  {
  }

  // ---------------------------------------------------------------- the passes of pmm_recombine

  /** A pass over `secs` has dealt with the first `k` nodes of the list. */
  ghost predicate Passing(m: seq<Section>, order: seq<nat>, secs: seq<Sec>, k: nat, current: Pointer) {
    && Linked(m, order) && k <= |order|
    && View(m, order)[..k] + Pass(View(m, order)[k..]) == Pass(secs)
    && current == if k < |order| then Slot(order[k]) else Null
  }

  lemma PassStart(m: seq<Section>, order: seq<nat>)
    requires Linked(m, order)
    ensures Passing(m, order, View(m, order), 0, Slot(0))
  {
    assert View(m, order)[0..] == View(m, order);
  }

  lemma PassFacts(m: seq<Section>, order: seq<nat>, secs: seq<Sec>, k: nat, current: Pointer)
    requires Passing(m, order, secs, k, current) && current.Slot?
    ensures Linked(m, order) && k < |order| && current == Slot(order[k]) && order[k] < |m|
    ensures k + 1 == |order| ==> m[order[k]].next == Null && View(m, order) == Pass(secs)
    ensures k + 1 < |order| ==> m[order[k]].next == Slot(order[k + 1]) && order[k + 1] < |m|
  {
    DistinctNodes(m, order, k);
    if k + 1 == |order| {
      assert View(m, order)[k..] == [View(m, order)[k]];
      assert View(m, order) == View(m, order)[..k] + [View(m, order)[k]];
    }
  }

  lemma PassOver(m: seq<Section>, order: seq<nat>, secs: seq<Sec>, k: nat, current: Pointer)
    requires Passing(m, order, secs, k, current) && k + 1 < |order| && order[k] < |m| && order[k + 1] < |m|
    requires m[order[k]].free != m[order[k + 1]].free
    ensures Passing(m, order, secs, k + 1, m[order[k]].next)
  {
    DistinctNodes(m, order, k);
    NodeData(m, order, k);
    PassedOver(View(m, order), k);
  }

  lemma PassedOver(v: seq<Sec>, k: nat)
    requires k + 1 < |v| && v[k].kind != v[k + 1].kind
    ensures v[..k + 1] + Pass(v[k + 1..]) == v[..k] + Pass(v[k..])
  {
    assert v[k..][1..] == v[k + 1..] && v[..k + 1] == v[..k] + [v[k]];
    assert v[..k] + ([v[k]] + Pass(v[k + 1..])) == v[..k] + [v[k]] + Pass(v[k + 1..]);
  }

  lemma PassFused(m: seq<Section>, m': seq<Section>, order: seq<nat>, order': seq<nat>, secs: seq<Sec>, k: nat,
                  current: Pointer)
    requires Passing(m, order, secs, k, current) && k + 1 < |order| && order[k] < |m| && order[k + 1] < |m|
    requires m[order[k]].free == m[order[k + 1]].free
    requires Linked(m', order') && TakesInNext(m, m', order, order', k)
    ensures |order'| == |order| - 1 && order[k] < |m'| && Passing(m', order', secs, k + 1, m'[order[k]].next)
  {
    RemovedFront(order, k + 1);
    NodeData(m, order, k);
    DistinctNodes(m', order', k);
    var v, v' := View(m, order), View(m', order');
    FusedPass(v, k);
  }

  lemma FusedPass(v: seq<Sec>, k: nat)
    requires k + 1 < |v| && v[k].kind == v[k + 1].kind
    ensures var v' := Replace(v, k, k + 2, [Fuse(v[k], v[k + 1])]);
            |v'| == |v| - 1 && v'[..k + 1] + Pass(v'[k + 1..]) == v[..k] + Pass(v[k..])
  {
    var f := Fuse(v[k], v[k + 1]);
    var v' := Replace(v, k, k + 2, [f]);
    assert v[k..][2..] == v[k + 2..] && v'[k + 1..] == v[k + 2..] && v'[..k + 1] == v[..k] + [f];
    assert v[..k] + ([f] + Pass(v[k + 2..])) == v[..k] + [f] + Pass(v[k + 2..]);
  }

  lemma PassEnd(m: seq<Section>, order: seq<nat>, secs: seq<Sec>, k: nat)
    requires Passing(m, order, secs, k, Null)
    ensures Linked(m, order) && View(m, order) == Pass(secs)
  {
    var v := View(m, order);
    assert v[..k] == v && v[k..] == [];
  }

  lemma TakesInNextKeeps(m: seq<Section>, m': seq<Section>, order: seq<nat>, order': seq<nat>, k: nat)
    requires Linked(m, order) && Linked(m', order') && k + 1 < |order| && TakesInNext(m, m', order, order', k)
    ensures forall i :: i in order' ==> i in order
  {
  }

  // ---------------------------------------------------------------- building the list at boot

  /** Slots are handed out in turn: the used ones are those below `next`. */
  ghost predicate Building(m: seq<Section>, order: seq<nat>, next: nat) {
    && next == |order| && forall i :: i in order ==> i < next
  }

  /** While the slots from `next` on are unlinked, that many calls of `pmm_new_section` succeed. */
  lemma {:induction false} CanPickUnlinked(m: seq<Section>, next: nat, count: nat)
    requires next + count <= |m| && forall i :: next <= i < |m| ==> Unused(m[i])
    ensures CanPick(m, next, count)
    decreases count
  {
    if count > 0 {
      CanPickUnlinked(m[next := m[next].(prev := Slot(0))], next + 1, count - 1);
    }
  }

  // ---------------------------------------------------------------- the search of pmm_alloc_pool

  ghost predicate Fitting(m: seq<Section>, order: seq<nat>, secs: seq<Sec>, count: nat, k: nat, section: Pointer) {
    && Linked(m, order) && View(m, order) == secs && Formed(secs)
    && k <= |order| && FirstFit(secs, 0, count) == FirstFit(secs, k, count)
    && section == if k < |order| then Slot(order[k]) else Null
  }

  lemma FitStart(m: seq<Section>, order: seq<nat>, count: nat)
    requires Linked(m, order) && Formed(View(m, order))
    ensures Fitting(m, order, View(m, order), count, 0, Slot(0))
  {
  }

  lemma FitFacts(m: seq<Section>, order: seq<nat>, secs: seq<Sec>, count: nat, k: nat, section: Pointer)
    requires Fitting(m, order, secs, count, k, section) && section.Slot?
    ensures k < |secs| == |order| && section == Slot(order[k]) && order[k] < |m| && SecOf(m[order[k]]) == secs[k]
    ensures Formed(secs) && View(m, order) == secs && Linked(m, order)
    ensures Fits(secs[k], count) ==>
              && FirstFit(secs, 0, count) == k
              && PoolSecs(secs, count) == (LockMany(secs, secs[k].start, count), Some(secs[k].start))
              && (PoolReadsNull(secs, count) <==> ManyReadNull(secs, secs[k].start, count))
  {
    NodeData(m, order, k);
  }

  lemma FitNext(m: seq<Section>, order: seq<nat>, secs: seq<Sec>, count: nat, k: nat, section: Pointer)
    requires Fitting(m, order, secs, count, k, section) && k < |order| == |secs| && order[k] < |m|
    requires !Fits(secs[k], count)
    ensures Fitting(m, order, secs, count, k + 1, m[order[k]].next)
  {
    DistinctNodes(m, order, k);
  }

  lemma FitNone(m: seq<Section>, order: seq<nat>, secs: seq<Sec>, count: nat, k: nat)
    requires Fitting(m, order, secs, count, k, Null)
    ensures View(m, order) == secs && Linked(m, order) && PoolSecs(secs, count) == (Merged(secs), None)
    ensures !PoolReadsNull(secs, count)
  {
  }

  // ---------------------------------------------------------------- the scan of pmm_alloc_page

  /** The scan has passed the first `k` sections of `secs` and stands at node `i` of what is left. */
  ghost predicate Scanning(m: seq<Section>, order: seq<nat>, secs: seq<Sec>, k: nat, i: nat, selected: Pointer) {
    && Linked(m, order) && Formed(secs) && k <= |secs|
    && View(m, order) == Cleaned(secs, k) && i == |DropEmpty(secs[..k])|
    && FirstFree(secs, 0) == FirstFree(secs, k)
    && if k < |secs| then i < |order| && selected == Slot(order[i])
       else selected == Null && secs[|secs| - 1].pages > 0
  }

  lemma ScanStart(m: seq<Section>, order: seq<nat>)
    requires Linked(m, order) && Formed(View(m, order))
    ensures Scanning(m, order, View(m, order), 0, 0, Slot(0))
  {
    assert Cleaned(View(m, order), 0) == View(m, order);
  }

  lemma ScanFacts(m: seq<Section>, order: seq<nat>, secs: seq<Sec>, k: nat, i: nat, selected: Pointer)
    requires Scanning(m, order, secs, k, i, selected) && selected.Slot?
    ensures k < |secs| && Linked(m, order) && |order| > 1 && Formed(View(m, order))
    ensures i < |order| && selected == Slot(order[i]) && order[i] < |m|
    ensures SecOf(m[order[i]]) == secs[k] == View(m, order)[i]
    ensures m[order[i]].next.Null? <==> k == |secs| - 1
    ensures i == |order| - 1 <==> k == |secs| - 1
    ensures secs[k].pages == 0 || secs[k].kind == Free ==>
              && 0 < i && m[order[i]].prev == Slot(order[i - 1]) && order[i - 1] < |m|
              && m[order[i - 1]].free == View(m, order)[i - 1].kind
  {
    hide FirstFree;
    CleanedFormed(secs, k);
    CleanedStep(secs, k);
    CleanedLength(secs, k);
    hide Formed, Cleaned, DropEmpty, Chain;
    DistinctNodes(m, order, i);
    NodeData(m, order, i);
    Around(View(m, order), i);
  }

  /** The scan has come to an empty last section. */
  lemma ScanStops(m: seq<Section>, order: seq<nat>, secs: seq<Sec>, k: nat, i: nat, selected: Pointer)
    requires Scanning(m, order, secs, k, i, selected) && k == |secs| - 1 && secs[k].pages == 0
    ensures ScanReadsNull(secs)
  {
    hide Linked, View, Formed, Cleaned, DropEmpty;
    assert FirstFree(secs, k) == FirstFree(secs, k + 1) == |secs|;
  }

  /** An empty section was unlinked; the scan goes on behind the node before it. */
  lemma ScanDrop(m: seq<Section>, m': seq<Section>, order: seq<nat>, order': seq<nat>, secs: seq<Sec>, k: nat, i: nat,
                 selected: Pointer)
    requires Scanning(m, order, secs, k, i, selected) && selected.Slot? && 0 < i < |order| && k < |secs|
    requires secs[k].pages == 0 && k < |secs| - 1
    requires Linked(m', order') && order' == Removed(order, i)
    requires View(m', order') == Without(View(m, order), i)
    ensures order[i - 1] < |m'| && Scanning(m', order', secs, k + 1, i, m'[order[i - 1]].next)
  {
    hide Formed, Cleaned, DropEmpty, Removed, Without, Linked;
    CleanedStep(secs, k);
    assert !Takeable(secs[k]);
    CleanedLength(secs, k + 1);
    RemovedFront(order, i);
    DistinctNodes(m', order', i - 1);
  }

  /** A section that is neither empty nor FREE is passed. */
  lemma ScanPass(m: seq<Section>, order: seq<nat>, secs: seq<Sec>, k: nat, i: nat, selected: Pointer)
    requires Scanning(m, order, secs, k, i, selected) && selected.Slot? && k < |secs|
    requires secs[k].pages > 0 && secs[k].kind != Free && selected.index < |m|
    ensures Scanning(m, order, secs, k + 1, i + 1, m[selected.index].next)
  {
    CleanedStep(secs, k);
    CleanedLength(secs, k + 1);
    DistinctNodes(m, order, i);
  }

  /** The free section the scan stops at gives its first page. */
  lemma ScanTake(m: seq<Section>, order: seq<nat>, secs: seq<Sec>, k: nat, i: nat, selected: Pointer)
    requires Scanning(m, order, secs, k, i, selected) && k < |secs| && Takeable(secs[k])
    ensures var c := View(m, order);
            && 0 < i < |c| && c[i] == secs[k] && AllocSecs(secs).1 == secs[k].start
            && (AllocSplits(secs) <==> c[i - 1].kind != Used && c[i].pages > 1)
            && AllocSecs(secs).0 == TakenFirst(c, i) && !ScanReadsNull(secs)
  {
    AllocForm(secs, k);
    hide Formed, AllocSecs, AllocSplits, TakenFirst, DropEmpty;
  }

  lemma AllocForm(secs: seq<Sec>, k: nat)
    requires Formed(secs) && k == FirstFree(secs, 0) < |secs|
    ensures var c, i := Cleaned(secs, k), |DropEmpty(secs[..k])|;
            && 0 < i < |c| && c[i] == secs[k] && AllocSecs(secs).1 == secs[k].start
            && (AllocSplits(secs) <==> c[i - 1].kind != Used && c[i].pages > 1)
            && AllocSecs(secs).0 == TakenFirst(c, i)
  {
    hide Formed, Replace, TakePage, DropEmpty, Cleaned, AllocSecs, Grown, Behead;
    AllocIsTake(secs, k);
    var c, i := Cleaned(secs, k), |DropEmpty(secs[..k])|;
    TakeIsReplace(c, i);
    assert c[..i][i - 1] == c[i - 1];
  }

  ghost function TakenFirst(c: seq<Sec>, i: nat): seq<Sec>
    requires 0 < i < |c|
  {
    if c[i - 1].kind == Used then FirstMoved(c, i) else FirstTurned(c, i, Used)
  }

  lemma ScanEnd(m: seq<Section>, order: seq<nat>, secs: seq<Sec>, k: nat, i: nat)
    requires Scanning(m, order, secs, k, i, Null)
    ensures View(m, order) == AllocSecs(secs).0 && AllocSecs(secs).1 == 0
    ensures !ScanReadsNull(secs)
  {
    assert secs[..k] == secs && secs[k..] == [];
  }

  /** Removing a node leaves at least as many slots unused. */
  lemma MoreUnused(m: seq<Section>, m': seq<Section>, order: seq<nat>, order': seq<nat>, k: nat, next: nat)
    requires Linked(m, order) && Linked(m', order') && |m'| == |m| && |order| > 1
    requires 0 < k < |order| && order' == Removed(order, k)
    ensures CanPick(m, next, 1) ==> CanPick(m', next, 1)
  {
    OrderWithout(order, k);
    forall i | 0 <= i < |m| && Unused(m[i]) ensures Unused(m'[i]) {
      UnusedIsUnlinked(m, order, i);
    }
  }

  /** A deleted slot. */
  function Cleared(): Section {
    Section(Null, Null, 0, 0, Used)
  }

  /** Node `k` deleted and its two neighbours made to point at each other. */
  lemma Bypassed(m: seq<Section>, order: seq<nat>, k: nat, sp: Section, sn: Section)
    requires Linked(m, order) && 0 < k < |order| - 1
    requires sp.next == m[order[k]].next && sp.prev == m[order[k - 1]].prev
    requires sn.prev == m[order[k]].prev && sn.next == m[order[k + 1]].next
    ensures Unlinks(m, m[order[k - 1] := sp][order[k + 1] := sn][order[k] := Cleared()], order, k)
  {
    DistinctNodes(m, order, k);
  }

  /** The list when node `k` was bypassed and only the node behind got new data. */
  lemma MergedAhead(m: seq<Section>, order: seq<nat>, k: nat, sp: Section, sn: Section)
    requires Linked(m, order) && 0 < k < |order| - 1
    requires sp.next == m[order[k]].next && sp.prev == m[order[k - 1]].prev && SecOf(sp) == SecOf(m[order[k - 1]])
    requires sn.prev == m[order[k]].prev && sn.next == m[order[k + 1]].next
    ensures var m' := m[order[k - 1] := sp][order[k + 1] := sn][order[k] := Cleared()];
            && Linked(m', Removed(order, k))
            && View(m', Removed(order, k)) == Replace(View(m, order), k, k + 2, [SecOf(sn)])
  {
    DistinctNodes(m, order, k);
    Bypassed(m, order, k, sp, sn);
    ViewTakenFront(m, m[order[k - 1] := sp][order[k + 1] := sn][order[k] := Cleared()], order, k);
  }

  lemma MergedFront(m: seq<Section>, order: seq<nat>, k: nat, sp: Section, sn: Section)
    requires Linked(m, order) && 0 < k < |order| - 1 && m[order[k]].free == m[order[k + 1]].free
    requires sp.next == m[order[k]].next && sp.prev == m[order[k - 1]].prev && SecOf(sp) == SecOf(m[order[k - 1]])
    requires sn.prev == m[order[k]].prev && sn.next == m[order[k + 1]].next
    requires SecOf(sn) == Sec(m[order[k]].start, m[order[k + 1]].pages + m[order[k]].pages, m[order[k + 1]].free)
    ensures var m' := m[order[k - 1] := sp][order[k + 1] := sn][order[k] := Cleared()];
            Linked(m', Removed(order, k)) && CombinesNext(m, m', order, Removed(order, k), k)
  {
    hide Linked, Removed, Replace;
    DistinctNodes(m, order, k);
    NodeData(m, order, k);
    MergedAhead(m, order, k, sp, sn);
  }

  /** The list when node `k` was bypassed and only the node before it got new data. */
  lemma MergedBack(m: seq<Section>, order: seq<nat>, k: nat, sp: Section, sn: Section)
    requires Linked(m, order) && 0 < k < |order| - 1
    requires sp.next == m[order[k]].next && sp.prev == m[order[k - 1]].prev
    requires sn.prev == m[order[k]].prev && sn.next == m[order[k + 1]].next && SecOf(sn) == SecOf(m[order[k + 1]])
    ensures var m' := m[order[k - 1] := sp][order[k + 1] := sn][order[k] := Cleared()];
            && Linked(m', Removed(order, k))
            && View(m', Removed(order, k)) == Replace(View(m, order), k - 1, k + 1, [SecOf(sp)])
  {
    DistinctNodes(m, order, k);
    Bypassed(m, order, k, sp, sn);
    ViewTakenBack(m, m[order[k - 1] := sp][order[k + 1] := sn][order[k] := Cleared()], order, k);
  }

  lemma MergedPrev(m: seq<Section>, order: seq<nat>, k: nat, sp: Section, sn: Section)
    requires Linked(m, order) && 0 < k < |order| - 1 && m[order[k]].free == m[order[k - 1]].free
    requires sp.next == m[order[k]].next && sp.prev == m[order[k - 1]].prev
    requires SecOf(sp) == Fuse(SecOf(m[order[k - 1]]), SecOf(m[order[k]]))
    requires sn.prev == m[order[k]].prev && sn.next == m[order[k + 1]].next && SecOf(sn) == SecOf(m[order[k + 1]])
    ensures var m' := m[order[k - 1] := sp][order[k + 1] := sn][order[k] := Cleared()];
            Linked(m', Removed(order, k)) && CombinesPrev(m, m', order, Removed(order, k), k)
  {
    hide Linked, Removed, Replace;
    DistinctNodes(m, order, k);
    NodeData(m, order, k);
    MergedBack(m, order, k, sp, sn);
  }

  lemma TakenInMiddle(m: seq<Section>, order: seq<nat>, k: nat, sp: Section, sn: Section)
    requires Linked(m, order) && k + 2 < |order|
    requires sp.next == m[order[k + 1]].next && sp.prev == m[order[k]].prev
    requires SecOf(sp) == Fuse(SecOf(m[order[k]]), SecOf(m[order[k + 1]]))
    requires sn.prev == m[order[k + 1]].prev && sn.next == m[order[k + 2]].next && SecOf(sn) == SecOf(m[order[k + 2]])
    ensures var m' := m[order[k] := sp][order[k + 2] := sn][order[k + 1] := Cleared()];
            Linked(m', Removed(order, k + 1)) && TakesInNext(m, m', order, Removed(order, k + 1), k)
  {
    hide Linked, Removed, Replace;
    DistinctNodes(m, order, k);
    DistinctNodes(m, order, k + 1);
    NodeData(m, order, k);
    NodeData(m, order, k + 1);
    MergedBack(m, order, k + 1, sp, sn);
  }

  /** The last node deleted. */
  lemma TakenInLast(m: seq<Section>, order: seq<nat>, k: nat, sp: Section)
    requires Linked(m, order) && k + 2 == |order|
    requires sp.next == Null && sp.prev == m[order[k]].prev
    requires SecOf(sp) == Fuse(SecOf(m[order[k]]), SecOf(m[order[k + 1]]))
    ensures var m' := m[order[k] := sp][order[k + 1] := Cleared()];
            Linked(m', Removed(order, k + 1)) && TakesInNext(m, m', order, Removed(order, k + 1), k)
  {
    DistinctNodes(m, order, k + 1);
    var m' := m[order[k] := sp][order[k + 1] := Cleared()];
    assert Unlinks(m, m', order, k + 1);
    NodeData(m, order, k);
    hide Linked, Removed, Replace, Unlinks;
    ViewTakenBack(m, m', order, k + 1);
  }

  lemma NodeData(m: seq<Section>, order: seq<nat>, k: nat)
    requires Linked(m, order) && k < |order|
    ensures order[k] < |m| && View(m, order)[k] == SecOf(m[order[k]])
    ensures k > 0 ==> View(m, order)[k - 1] == SecOf(m[order[k - 1]])
    ensures k + 1 < |order| ==> View(m, order)[k + 1] == SecOf(m[order[k + 1]])
  {
  }

  lemma NothingNext(m: seq<Section>, order: seq<nat>, k: nat)
    requires Linked(m, order) && k < |order|
    requires k + 1 == |order| || m[order[k]].free != m[order[k + 1]].free
    ensures CombinesNext(m, m, order, order, k)
  {
  }

  lemma NothingPrev(m: seq<Section>, order: seq<nat>, k: nat)
    requires Linked(m, order) && k < |order|
    requires k == 0 || m[order[k]].free != m[order[k - 1]].free
    ensures CombinesPrev(m, m, order, order, k)
  {
  }

  lemma DistinctNodes(m: seq<Section>, order: seq<nat>, k: nat)
    requires Linked(m, order) && k < |order|
    ensures order[k] < |m|
    ensures k > 0 ==> order[k - 1] < |m| && order[k - 1] != order[k] && m[order[k]].prev == Slot(order[k - 1])
    ensures k + 1 < |order| ==>
              && order[k + 1] < |m| && order[k + 1] != order[k] && m[order[k]].next == Slot(order[k + 1])
              && m[order[k + 1]].prev == Slot(order[k])
    ensures k > 0 && k + 1 < |order| ==> order[k - 1] != order[k + 1]
    ensures k == 0 ==> m[order[k]].prev == Null
    ensures k + 1 == |order| ==> m[order[k]].next == Null
  {
    assert Node(m, order, k) && (k + 1 < |order| ==> Node(m, order, k + 1));
  }

  lemma ReplaceSame(secs: seq<Sec>, k: nat)
    requires 0 < k < |secs|
    ensures Replace(secs, k - 1, k + 1, [secs[k - 1]]) == Without(secs, k)
  {
  }

  /** The first page of section `k` moved to the section before it. */
  ghost function FirstMoved(secs: seq<Sec>, k: nat): seq<Sec>
    requires 0 < k < |secs|
  {
    Replace(secs, k - 1, k + 1, [Grown(secs[k - 1]), Behead(secs[k])])
  }

  /** The last page of section `k` moved to the section behind it. */
  ghost function LastMoved(secs: seq<Sec>, k: nat): seq<Sec>
    requires k + 1 < |secs| && secs[k + 1].start >= 0x1000
  {
    Replace(secs, k, k + 2, [secs[k].(pages := Less(secs[k].pages)),
                             Sec(secs[k + 1].start - 0x1000, secs[k + 1].pages + 1, secs[k + 1].kind)])
  }

  /** The first page of section `k` in the state `kind`, on its own. */
  ghost function FirstTurned(secs: seq<Sec>, k: nat, kind: Kind): seq<Sec>
    requires k < |secs|
  {
    Replace(secs, k, k + 1, if secs[k].pages == 1 then [secs[k].(kind := kind)]
                            else [Sec(secs[k].start, 1, kind), Behead(secs[k])])
  }

  lemma FirstMovedIs(secs: seq<Sec>, k: nat)
    requires 0 < k < |secs|
    ensures secs[k - 1 := Grown(secs[k - 1])][k := Behead(secs[k])] == FirstMoved(secs, k)
  {
  }

  lemma LastMovedIs(secs: seq<Sec>, k: nat)
    requires k + 1 < |secs| && secs[k + 1].start >= 0x1000
    ensures secs[k + 1 := Sec(secs[k + 1].start - 0x1000, secs[k + 1].pages + 1, secs[k + 1].kind)]
              [k := secs[k].(pages := Less(secs[k].pages))] == LastMoved(secs, k)
  {
  }

  /** The list after the first page of section `k` was split off. */
  ghost function FirstSplit(secs: seq<Sec>, k: nat): seq<Sec>
    requires k < |secs|
  {
    if secs[k].pages == 1 then secs
    else Replace(secs, k, k + 1, [Sec(secs[k].start, 1, secs[k].kind), Behead(secs[k])])
  }

  lemma SplitFront(m: seq<Section>, m': seq<Section>, order: seq<nat>, order': seq<nat>, next: nat, next': nat, k: nat)
    requires Linked(m, order) && Linked(m', order') && k < |order| && View(m, order)[k].pages > 0
    requires SplitTo(m, m', order, order', next, next', k, View(m, order)[k].start + 0x1000)
    ensures k < |order'| && order'[k] == order[k] && View(m', order') == FirstSplit(View(m, order), k)
  {
    var s := View(m, order)[k];
    hide Linked, View, PickSlot, SameUse, Replace;
    FirstPageApart(s);
    hide Minus, PagesBetween, Unused;
    if s.pages > 1 {
      InsertedBehind(order, k, PickSlot(m, next).index);
      hide Inserted;
    }
  }

  lemma FirstPageApart(s: Sec)
    requires s.pages > 0
    ensures s.start + 0x1000 >= End(s) <==> s.pages == 1
    ensures s.pages > 1 ==>
              && Minus(s.pages, PagesBetween(s.start + 0x1000, End(s))) == 1
              && Sec(s.start + 0x1000, Minus(s.pages, PagesBetween(s.start, s.start + 0x1000)), s.kind) == Behead(s)
  {
    assert s.pages > 1 ==> PagesBetween(s.start + 0x1000, End(s)) == s.pages - 1;
  }

  lemma RecolourFirst(secs: seq<Sec>, k: nat, kind: Kind)
    requires k < |secs| && secs[k].pages > 0
    ensures k < |FirstSplit(secs, k)|
    ensures FirstSplit(secs, k)[k := FirstSplit(secs, k)[k].(kind := kind)] == FirstTurned(secs, k, kind)
  {
  }

  lemma SplitIsLinked(m: seq<Section>, m': seq<Section>, order: seq<nat>, order': seq<nat>,
                      next: nat, next': nat, k: nat, at: nat)
    requires Linked(m, order) && k < |order| && SplitTo(m, m', order, order', next, next', k, at)
    ensures Linked(m', order')
  {
  }
}

/** The four-level tree of paging tables as it lies in physical memory. */
module PageTree {
  import opened Wrappers
  import opened Descriptors

  /** Physical memory seen as paging tables: the word at an index of the page at an address. */
  type Memory = (Word, Index) -> Word

  function Write(m: Memory, table: Word, index: Index, w: Word): Memory {
    (t, i) => if t == table && i == index then w else m(t, i)
  }

  function Zeroed(m: Memory, table: Word): Memory {
    (t, i) => if t == table then Word(0) else m(t, i)
  }

  /** Where a table hangs in the tree: the indices that lead to it from the root. */
  datatype Place =
    | Pml4
    | Pdp(i4: Index)
    | Pd(i4: Index, i3: Index)
    | Pt(i4: Index, i3: Index, i2: Index)

  predicate Upper(p: Place) {
    !p.Pt?
  }

  function Below(p: Place, i: Index): Place
    requires Upper(p)
  {
    match p
    case Pml4 => Pdp(i)
    case Pdp(i4) => Pd(i4, i)
    case Pd(i4, i3) => Pt(i4, i3, i)
  }

  /** The place above, with the index that leads down again. */
  function Above(p: Place): (q: Place)
    requires !p.Pml4?
    ensures Upper(q) && Depth(q) + 1 == Depth(p) && Below(q, Last(p)) == p
  {
    match p
    case Pdp(_) => Pml4
    case Pd(i4, _) => Pdp(i4)
    case Pt(i4, i3, _) => Pd(i4, i3)
  }

  function Last(p: Place): Index
    requires !p.Pml4?
  {
    match p
    case Pdp(i4) => i4
    case Pd(_, i3) => i3
    case Pt(_, _, i2) => i2
  }

  function Depth(p: Place): nat {
    match p
    case Pml4 => 0
    case Pdp(_) => 1
    case Pd(_, _) => 2
    case Pt(_, _, _) => 3
  }

  function Child(m: Memory, table: Option<Word>, i: Index): Option<Word> {
    if table.Some? && Present(m(table.value, i)) then Some(GetAddress(m(table.value, i))) else None
  }

  /** The table found by following present descriptors from the root to a place. */
  function TableOf(m: Memory, root: Word, p: Place): Option<Word>
    decreases Depth(p)
  {
    if p.Pml4? then Some(root) else Child(m, TableOf(m, root, Above(p)), Last(p))
  }

  /** The descriptor at an index of the table at a place; zero where there is no table. */
  function Slot(m: Memory, root: Word, p: Place, i: Index): Word {
    match TableOf(m, root, p)
    case Some(t) => m(t, i)
    case None => Word(0)
  }

  function PtOf(x: Indexer): Place {
    Pt(x.pml4, x.pml3, x.pml2)
  }

  /** The last-level descriptor of a page. */
  function LeafAt(m: Memory, root: Word, x: Indexer): Word {
    Slot(m, root, PtOf(x), x.pml1)
  }

  /** The frame a virtual address is translated to; zero, which is NULL, for none. */
  function WalkOf(m: Memory, root: Word, virt: Word): Word {
    GetAddress(LeafAt(m, root, Assign(virt)))
  }

  /** No table hangs at two places; absent upper-level entries are zero. */
  ghost predicate Tree(m: Memory, root: Word) {
    && GetAddress(root) == root
    && (forall p, q :: TableOf(m, root, p).Some? && TableOf(m, root, p) == TableOf(m, root, q) ==> p == q)
    && (forall p, i :: Upper(p) && !Present(Slot(m, root, p, i)) ==> Slot(m, root, p, i) == Word(0))
    && (forall p, i :: Clean(Slot(m, root, p, i)))
  }

  ghost predicate IsTable(m: Memory, root: Word, t: Word) {
    exists p :: TableOf(m, root, p) == Some(t)
  }

  /** Seen from the root, `m'` differs from `m` in the word of one slot. */
  ghost predicate OneSlot(m: Memory, m': Memory, root: Word, p: Place, i: Index, w: Word) {
    forall q, j :: Slot(m', root, q, j) == if q == p && j == i then w else Slot(m, root, q, j)
  }

  ghost predicate SameTables(m: Memory, m': Memory, root: Word) {
    forall q :: TableOf(m', root, q) == TableOf(m, root, q)
  }

  /** The tables of `m'` are those of `m` and the table `f` at the place `n`. */
  ghost predicate OneTable(m: Memory, m': Memory, root: Word, n: Place, f: Word) {
    forall q :: TableOf(m', root, q) == if q == n then Some(f) else TableOf(m, root, q)
  }

  lemma BelowIsChild(m: Memory, root: Word, p: Place, i: Index)
    requires Upper(p)
    ensures TableOf(m, root, Below(p, i)) == Child(m, TableOf(m, root, p), i)
  {
  }

  lemma RootTable(m: Memory, root: Word)
    ensures TableOf(m, root, Pml4) == Some(root)
  {
  }

  /** The walk, level by level. */
  lemma PathTables(m: Memory, root: Word, x: Indexer)
    ensures TableOf(m, root, Pdp(x.pml4)) == Child(m, Some(root), x.pml4)
    ensures TableOf(m, root, Pd(x.pml4, x.pml3)) == Child(m, TableOf(m, root, Pdp(x.pml4)), x.pml3)
    ensures TableOf(m, root, PtOf(x)) == Child(m, TableOf(m, root, Pd(x.pml4, x.pml3)), x.pml2)
  {
  }

  lemma SlotOfTable(m: Memory, root: Word, p: Place, i: Index)
    requires TableOf(m, root, p).Some?
    ensures m(TableOf(m, root, p).value, i) == Slot(m, root, p, i)
  {
  }

  lemma ChildOfSlot(m: Memory, root: Word, p: Place, i: Index)
    requires TableOf(m, root, p).Some?
    ensures Child(m, TableOf(m, root, p), i)
         == if Present(Slot(m, root, p, i)) then Some(GetAddress(Slot(m, root, p, i))) else None
  {
  }

  /** Overwriting a present upper-level entry without moving its address. */
  lemma WidenEntry(m: Memory, m': Memory, root: Word, p: Place, i: Index, w: Word)
    requires Tree(m, root) && Upper(p) && TableOf(m, root, p).Some?
    requires Present(Slot(m, root, p, i)) && Present(w) && Clean(w)
    requires GetAddress(w) == GetAddress(Slot(m, root, p, i))
    requires m' == Write(m, TableOf(m, root, p).value, i, w)
    ensures Tree(m', root) && SameTables(m, m', root) && OneSlot(m, m', root, p, i, w)
  {
    hide GetAddress, Present, Clean, Tree, OneSlot;
    forall q ensures TableOf(m', root, q) == TableOf(m, root, q) {
      WidenEntryAt(m, m', root, p, i, w, q);
    }
    SlotWritten(m, m', root, p, i, w);
    SameTablesKeepsTree(m, m', root, p, i, w);
  }

  lemma {:induction false} WidenEntryAt(m: Memory, m': Memory, root: Word, p: Place, i: Index, w: Word, q: Place)
    requires TableOf(m, root, p).Some? && Present(Slot(m, root, p, i)) && Present(w)
    requires GetAddress(w) == GetAddress(Slot(m, root, p, i))
    requires m' == Write(m, TableOf(m, root, p).value, i, w)
    ensures TableOf(m', root, q) == TableOf(m, root, q)
    decreases Depth(q)
  {
    hide GetAddress, Present;
    if !q.Pml4? {
      WidenEntryAt(m, m', root, p, i, w, Above(q));
    }
  }

  /** Writing into a last-level table disturbs no upper level. */
  lemma WriteLeaf(m: Memory, m': Memory, root: Word, p: Place, i: Index, w: Word)
    requires Tree(m, root) && p.Pt? && TableOf(m, root, p).Some? && Clean(w)
    requires m' == Write(m, TableOf(m, root, p).value, i, w)
    ensures Tree(m', root) && SameTables(m, m', root) && OneSlot(m, m', root, p, i, w)
  {
    hide GetAddress, Present, Clean, Tree, OneSlot;
    forall q ensures TableOf(m', root, q) == TableOf(m, root, q) {
      WriteLeafAt(m, m', root, p, i, w, q);
    }
    SlotWritten(m, m', root, p, i, w);
    SameTablesKeepsTree(m, m', root, p, i, w);
  }

  lemma {:induction false} WriteLeafAt(m: Memory, m': Memory, root: Word, p: Place, i: Index, w: Word, q: Place)
    requires Tree(m, root) && p.Pt? && TableOf(m, root, p).Some?
    requires m' == Write(m, TableOf(m, root, p).value, i, w)
    ensures TableOf(m', root, q) == TableOf(m, root, q)
    decreases Depth(q)
  {
    hide GetAddress, Present, Clean, Tree;
    if !q.Pml4? {
      WriteLeafAt(m, m', root, p, i, w, Above(q));
      Unshared(m, root, p, Above(q));
    }
  }

  /** A zeroed page from outside the tree, linked in at an absent entry. */
  lemma LinkTable(m: Memory, m': Memory, root: Word, p: Place, i: Index, w: Word, f: Word)
    requires Tree(m, root) && Upper(p) && TableOf(m, root, p).Some?
    requires !Present(Slot(m, root, p, i)) && !IsTable(m, root, f)
    requires Present(w) && Clean(w) && GetAddress(w) == f
    requires m' == Write(Zeroed(m, f), TableOf(m, root, p).value, i, w)
    ensures Tree(m', root) && OneTable(m, m', root, Below(p, i), f) && OneSlot(m, m', root, p, i, w)
  {
    hide GetAddress, Present, Clean, Tree, OneSlot, IsTable;
    forall q ensures TableOf(m', root, q) == if q == Below(p, i) then Some(f) else TableOf(m, root, q) {
      LinkTableAt(m, m', root, p, i, w, f, q);
    }
    SlotLinked(m, m', root, p, i, w, f);
    OneTableKeepsTree(m, m', root, p, i, w, f);
  }

  lemma {:induction false} LinkTableAt(m: Memory, m': Memory, root: Word, p: Place, i: Index, w: Word, f: Word,
                                       q: Place)
    requires Tree(m, root) && Upper(p) && TableOf(m, root, p).Some?
    requires !Present(Slot(m, root, p, i)) && !IsTable(m, root, f)
    requires Present(w) && GetAddress(w) == f
    requires m' == Write(Zeroed(m, f), TableOf(m, root, p).value, i, w)
    ensures TableOf(m', root, q) == if q == Below(p, i) then Some(f) else TableOf(m, root, q)
    decreases Depth(q)
  {
    hide GetAddress, Present, Clean, Tree, IsTable;
    if !q.Pml4? {
      var up := Above(q);
      LinkTableAt(m, m', root, p, i, w, f, up);
      NotTable(m, root, f, up);
      if up == Below(p, i) {
        BelowIsChild(m, root, p, i);
        NotTable(m, root, f, p);
        ZeroWord();
      } else if up != p {
        Unshared(m, root, p, up);
      }
    }
  }

  lemma Unshared(m: Memory, root: Word, p: Place, q: Place)
    requires Tree(m, root) && TableOf(m, root, p).Some? && p != q
    ensures TableOf(m, root, p) != TableOf(m, root, q)
  {
    hide GetAddress, Present, Clean, TableOf, Slot;
  }

  lemma NotTable(m: Memory, root: Word, f: Word, q: Place)
    requires !IsTable(m, root, f)
    ensures TableOf(m, root, q) != Some(f)
  {
  }

  lemma SlotWritten(m: Memory, m': Memory, root: Word, p: Place, i: Index, w: Word)
    requires Tree(m, root) && SameTables(m, m', root) && TableOf(m, root, p).Some?
    requires m' == Write(m, TableOf(m, root, p).value, i, w)
    ensures OneSlot(m, m', root, p, i, w)
  {
    hide GetAddress, Present, Clean, Tree, TableOf;
    forall q, j
      ensures Slot(m', root, q, j) == if q == p && j == i then w else Slot(m, root, q, j)
    {
      if q != p {
        Unshared(m, root, p, q);
      }
    }
  }

  lemma SlotLinked(m: Memory, m': Memory, root: Word, p: Place, i: Index, w: Word, f: Word)
    requires Tree(m, root) && Upper(p) && OneTable(m, m', root, Below(p, i), f)
    requires TableOf(m, root, p).Some? && !Present(Slot(m, root, p, i)) && !IsTable(m, root, f)
    requires m' == Write(Zeroed(m, f), TableOf(m, root, p).value, i, w)
    ensures OneSlot(m, m', root, p, i, w)
  {
    hide GetAddress, Present, Clean, Tree, IsTable, TableOf;
    BelowIsChild(m, root, p, i);
    forall q, j
      ensures Slot(m', root, q, j) == if q == p && j == i then w else Slot(m, root, q, j)
    {
      NotTable(m, root, f, q);
      NotTable(m, root, f, p);
      if q != p {
        Unshared(m, root, p, q);
      }
    }
  }

  lemma SameTablesKeepsTree(m: Memory, m': Memory, root: Word, p: Place, i: Index, w: Word)
    requires Tree(m, root) && SameTables(m, m', root) && OneSlot(m, m', root, p, i, w)
    requires Clean(w) && (Upper(p) ==> Present(w))
    ensures Tree(m', root)
  {
    hide GetAddress, Present, Clean, TableOf, Slot;
  }

  lemma OneTableKeepsTree(m: Memory, m': Memory, root: Word, p: Place, i: Index, w: Word, f: Word)
    requires Tree(m, root) && Upper(p) && OneTable(m, m', root, Below(p, i), f) && OneSlot(m, m', root, p, i, w)
    requires Clean(w) && Present(w) && !IsTable(m, root, f)
    ensures Tree(m', root)
  {
    hide GetAddress, Present, Clean, TableOf, Slot;
  }

  // ---------------------------------------------------------------- whole operations

  /** Tables stay where they are and upper-level entries only gain bits. */
  ghost predicate Grows(m: Memory, m': Memory, root: Word) {
    && (forall p :: TableOf(m, root, p).Some? ==> TableOf(m', root, p) == TableOf(m, root, p))
    && (forall p, i :: Upper(p) ==> Within(Slot(m, root, p, i), Slot(m', root, p, i)))
  }

  lemma GrowsTransitive(m: Memory, m': Memory, m'': Memory, root: Word)
    requires Grows(m, m', root) && Grows(m', m'', root)
    ensures Grows(m, m'', root)
  {
    hide Within, TableOf, Slot;
    forall p, i | Upper(p) ensures Within(Slot(m, root, p, i), Slot(m'', root, p, i)) {
      WithinTransitive(Slot(m, root, p, i), Slot(m', root, p, i), Slot(m'', root, p, i));
    }
  }

  /** No upper-level entry gains a flag that was not asked for. */
  ghost predicate GainsOnly(m: Memory, m': Memory, root: Word, flags: Word) {
    forall p, i :: Upper(p) ==> GainsAtMost(Slot(m, root, p, i), Slot(m', root, p, i), flags)
  }

  lemma GainsOnlyOn(m: Memory, m': Memory, m'': Memory, root: Word, flags: Word)
    requires GainsOnly(m, m', root, flags) && GainsOnly(m', m'', root, flags)
    ensures GainsOnly(m, m'', root, flags)
  {
    hide GainsAtMost, Slot;
    forall p, i | Upper(p) ensures GainsAtMost(Slot(m, root, p, i), Slot(m'', root, p, i), flags) {
      GainsOn(Slot(m, root, p, i), Slot(m', root, p, i), Slot(m'', root, p, i), flags);
    }
  }

  lemma GainsOnlyKernel(m: Memory, m': Memory, root: Word, flags: Word)
    requires GainsOnly(m, m', root, Low(KernelPage()))
    ensures GainsOnly(m, m', root, flags)
  {
    hide GainsAtMost, Slot, Low, KernelPage;
    forall p, i | Upper(p) ensures GainsAtMost(Slot(m, root, p, i), Slot(m', root, p, i), flags) {
      GainsKernel(Slot(m, root, p, i), Slot(m', root, p, i), flags);
    }
  }

  lemma OneSlotGains(m: Memory, m': Memory, root: Word, p: Place, i: Index, w: Word, flags: Word)
    requires OneSlot(m, m', root, p, i, w) && (Upper(p) ==> GainsAtMost(Slot(m, root, p, i), w, flags))
    ensures GainsOnly(m, m', root, flags)
  {
    hide GainsAtMost, Slot;
    forall q, j | Upper(q) ensures GainsAtMost(Slot(m, root, q, j), Slot(m', root, q, j), flags) {
      GainsFlags(Slot(m, root, q, j), flags);
    }
  }

  lemma NoneGained(m: Memory, m': Memory, root: Word, flags: Word)
    requires forall p, i :: Upper(p) ==> Slot(m', root, p, i) == Slot(m, root, p, i)
    ensures GainsOnly(m, m', root, flags)
  {
    hide GainsAtMost, Slot;
    forall q, j | Upper(q) ensures GainsAtMost(Slot(m, root, q, j), Slot(m', root, q, j), flags) {
      GainsFlags(Slot(m, root, q, j), flags);
    }
  }

  /** The upper-level entries on the way to a page. */
  predicate OnPath(x: Indexer, p: Place, i: Index) {
    || (p == Pml4 && i == x.pml4) || (p == Pdp(x.pml4) && i == x.pml3)
    || (p == Pd(x.pml4, x.pml3) && i == x.pml2)
  }

  /** All three upper-level entries on the way to a page carry the flags `f`. */
  ghost predicate PathHas(m: Memory, root: Word, x: Indexer, f: Word) {
    && Within(f, Slot(m, root, Pml4, x.pml4))
    && Within(f, Slot(m, root, Pdp(x.pml4), x.pml3))
    && Within(f, Slot(m, root, Pd(x.pml4, x.pml3), x.pml2))
  }

  /** The rights of every page are those of its last-level descriptor. */
  ghost predicate LeavesDecide(m: Memory, root: Word) {
    forall x :: PathHas(m, root, x, Low(LeafAt(m, root, x)))
  }

  lemma PathKeeps(m: Memory, m': Memory, root: Word, x: Indexer, f: Word)
    requires Grows(m, m', root) && PathHas(m, root, x, f)
    ensures PathHas(m', root, x, f)
  {
    hide Within, TableOf, Slot;
    WithinTransitive(f, Slot(m, root, Pml4, x.pml4), Slot(m', root, Pml4, x.pml4));
    WithinTransitive(f, Slot(m, root, Pdp(x.pml4), x.pml3), Slot(m', root, Pdp(x.pml4), x.pml3));
    WithinTransitive(f, Slot(m, root, Pd(x.pml4, x.pml3), x.pml2), Slot(m', root, Pd(x.pml4, x.pml3), x.pml2));
  }

  /** Some page of `pages` has the indices `x`. */
  ghost predicate Names(pages: seq<Word>, x: Indexer) {
    exists t :: t in pages && Assign(t) == x
  }

  /** `pages` became tables, each mapped to itself, and no other translation changed. */
  ghost predicate Extends(m: Memory, m': Memory, root: Word, pages: seq<Word>) {
    && Grows(m, m', root)
    && (forall p :: TableOf(m', root, p).Some? ==>
          TableOf(m', root, p) == TableOf(m, root, p) || TableOf(m', root, p).value in pages)
    && (forall t :: t in pages ==> LeafAt(m', root, Assign(t)) == Leaf(t, KernelPage()))
    && (forall y :: !Names(pages, y) ==> LeafAt(m', root, y) == LeafAt(m, root, y))
  }

  /** As `Extends`, and the last-level descriptor of `x` became `w`. */
  ghost predicate Maps(m: Memory, m': Memory, root: Word, pages: seq<Word>, x: Indexer, w: Word) {
    && Grows(m, m', root) && TableOf(m', root, PtOf(x)).Some?
    && (forall p :: TableOf(m', root, p).Some? ==>
          TableOf(m', root, p) == TableOf(m, root, p) || TableOf(m', root, p).value in pages)
    && LeafAt(m', root, x) == w
    && (forall t :: t in pages && Assign(t) != x ==> LeafAt(m', root, Assign(t)) == Leaf(t, KernelPage()))
    && (forall y :: y != x && !Names(pages, y) ==> LeafAt(m', root, y) == LeafAt(m, root, y))
  }

  /** The pages an allocator will hand out: usable, all different, none of them a table, and
      each one's own page either unmapped or mapped to itself. */
  ghost predicate Ready(m: Memory, root: Word, pages: seq<Word>) {
    && (forall i, j :: 0 <= i < j < |pages| ==> pages[i] != pages[j])
    && (forall f :: f in pages ==>
          && UsableFrame(f) && !IsTable(m, root, f)
          && GetAddress(LeafAt(m, root, Assign(f))) in {Word(0), f})
  }

  /** The three places a page's tables hang at. */
  predicate Covers(places: set<Place>, x: Indexer) {
    Pdp(x.pml4) in places && Pd(x.pml4, x.pml3) in places && PtOf(x) in places
  }

  ghost function Absent(m: Memory, root: Word, places: set<Place>): set<Place> {
    set p | p in places && TableOf(m, root, p).None?
  }

  /** The last-level descriptor of `x` was zeroed, and nothing else of the tree changed. */
  ghost predicate Clears(m: Memory, m': Memory, root: Word, x: Indexer) {
    && SameTables(m, m', root)
    && (forall y :: LeafAt(m', root, y) == if y == x then Word(0) else LeafAt(m, root, y))
    && (forall p, i :: Upper(p) ==> Slot(m', root, p, i) == Slot(m, root, p, i))
  }

  /** The descriptor of page `from` moved to page `to`; `pages` became identity-mapped tables. */
  ghost predicate Moves(m: Memory, m': Memory, root: Word, pages: seq<Word>, from: Indexer, to: Indexer) {
    var d := LeafAt(m, root, from);
    && Grows(m, m', root) && TableOf(m', root, PtOf(to)).Some?
    && (forall p :: TableOf(m', root, p).Some? ==>
          TableOf(m', root, p) == TableOf(m, root, p) || TableOf(m', root, p).value in pages)
    && LeafAt(m', root, to)
       == NewLeafEntry(if to == from then Word(0) else LeafAt(m, root, to), GetAddress(d), Low(d))
    && (forall t :: t in pages && Assign(t) != to ==> LeafAt(m', root, Assign(t)) == Leaf(t, KernelPage()))
    && (forall y :: y != to && !Names(pages, y) ==>
          LeafAt(m', root, y) == if y == from then Word(0) else LeafAt(m, root, y))
  }
}

/** What each write of `paging_map_page` does to the tree and to every translation. */
module PageSteps {
  import opened Wrappers
  import opened Descriptors
  import opened PageTree

  /** The state every operation starts from and leaves behind. */
  ghost predicate Sound(m: Memory, root: Word, frames: seq<Word>) {
    Tree(m, root) && Ready(m, root, frames) && LeavesDecide(m, root)
  }

  lemma SoundParts(m: Memory, root: Word, frames: seq<Word>)
    requires Sound(m, root, frames)
    ensures Tree(m, root) && Ready(m, root, frames) && LeavesDecide(m, root)
  {
  }

  lemma SameLeavesKeepSound(m: Memory, m': Memory, root: Word, frames: seq<Word>, f: seq<Word>)
    requires Sound(m, root, f + frames) && Tree(m', root) && Grows(m, m', root)
    requires forall p :: TableOf(m', root, p).Some? ==>
               TableOf(m', root, p) == TableOf(m, root, p) || TableOf(m', root, p).value in f
    requires forall x :: LeafAt(m', root, x) == LeafAt(m, root, x)
    ensures Sound(m', root, frames)
  {
    hide GetAddress, Low, Within, Assign, UsableFrame, Tree, TableOf, LeafAt, Grows, PathHas;
    var all := f + frames;
    assert forall i :: 0 <= i < |frames| ==> frames[i] == all[|f| + i];
    forall g | g in frames ensures g in all && g !in f {
      var k :| 0 <= k < |frames| && frames[k] == g;
      assert all[|f| + k] == g;
      assert forall i :: 0 <= i < |f| ==> all[i] == f[i];
    }
    forall x ensures PathHas(m', root, x, Low(LeafAt(m', root, x))) {
      PathKeeps(m, m', root, x, Low(LeafAt(m, root, x)));
    }
  }

  /** The upper-level entry was present: it only gains the flags. */
  lemma WidenStep(m: Memory, m': Memory, root: Word, p: Place, i: Index, flags: Word, frames: seq<Word>)
    requires Sound(m, root, frames) && Upper(p) && TableOf(m, root, p).Some?
    requires Present(Slot(m, root, p, i)) && Sixteen(flags) && Within(High(flags), Slot(m, root, p, i))
    requires m' == Write(m, TableOf(m, root, p).value, i, OrFlags(Slot(m, root, p, i), flags))
    ensures Sound(m', root, frames) && Extends(m, m', root, [])
    ensures TableOf(m', root, Below(p, i)) == Some(GetAddress(Slot(m, root, p, i)))
    ensures Within(flags, Slot(m', root, p, i)) && SameTables(m, m', root)
    ensures OneSlot(m, m', root, p, i, OrFlags(Slot(m, root, p, i), flags)) && GainsOnly(m, m', root, flags)
  {
    hide GainsAtMost, GetAddress, Low, High, Sixteen, Present, Clean, Within, Assign, UsableFrame, Leaf, OrFlags,
      Slot, TableOf;
    var e := Slot(m, root, p, i);
    var w := OrFlags(e, flags);
    OrFlagsGrows(e, flags);
    OrFlagsIncludes(e, flags);
    OrFlagsKeepsFrame(e, flags);
    FlagsKeepClean(e, flags);
    WithinPresent(e, w);
    WidenEntry(m, m', root, p, i, w);
    GainsFlags(e, flags);
    OneSlotGains(m, m', root, p, i, w, flags);
    BelowIsChild(m', root, p, i);
    ChildOfSlot(m', root, p, i);
    WithinReflexive();
    SameLeavesKeepSound(m, m', root, frames, []);
  }

  /** The entry was absent: a zeroed frame is linked in. */
  lemma LinkStep(m: Memory, m': Memory, root: Word, p: Place, i: Index, flags: Word, f: Word, frames: seq<Word>)
    requires Sound(m, root, [f] + frames) && Upper(p) && TableOf(m, root, p).Some?
    requires !Present(Slot(m, root, p, i)) && Low(flags) == flags
    requires m' == Write(Zeroed(m, f), TableOf(m, root, p).value, i, NewTableEntry(Slot(m, root, p, i), f, flags))
    ensures Sound(m', root, frames) && Grows(m, m', root)
    ensures Within(flags, Slot(m', root, p, i)) && OneTable(m, m', root, Below(p, i), f)
    ensures forall x :: LeafAt(m', root, x) == LeafAt(m, root, x)
    ensures GainsOnly(m, m', root, flags)
  {
    hide GetAddress, Low, Present, Clean, Within, Assign, UsableFrame, NewTableEntry, Slot, TableOf, GainsAtMost;
    assert f == ([f] + frames)[0];
    UsableFrameAddress(f);
    var w := NewTableEntry(Slot(m, root, p, i), f, flags);
    NewTableEntryPoints(f, flags);
    LinkTable(m, m', root, p, i, w, f);
    GainsEntry(Slot(m, root, p, i), f, flags);
    OneSlotGains(m, m', root, p, i, w, flags);
    WithinReflexive();
    ZeroWord();
    BelowIsChild(m, root, p, i);
    ChildOfSlot(m, root, p, i);
    SameLeavesKeepSound(m, m', root, frames, [f]);
  }

  lemma OneThenMore(fs: seq<Word>, f: Word, left: seq<Word>, more: seq<Word>, rest: seq<Word>)
    requires fs == [f] + left && left == more + rest
    ensures fs == [f] + more + rest
  {
  }

  lemma NamesConcat(a: seq<Word>, b: seq<Word>, y: Indexer)
    ensures Names(a + b, y) <==> Names(a, y) || Names(b, y)
  {
    hide Assign;
    assert forall t :: t in a + b <==> t in a || t in b;
  }

  /** Linking a frame and then mapping it to itself. */
  lemma LinkThenMap(m: Memory, m1: Memory, m2: Memory, root: Word, n: Place, f: Word, more: seq<Word>)
    requires Grows(m, m1, root) && OneTable(m, m1, root, n, f)
    requires forall x :: LeafAt(m1, root, x) == LeafAt(m, root, x)
    requires Clean(LeafAt(m, root, Assign(f))) && GetAddress(LeafAt(m, root, Assign(f))) in {Word(0), f}
    requires GetAddress(f) == f && forall t :: t in more ==> Assign(t) != Assign(f)
    requires Maps(m1, m2, root, more, Assign(f), NewLeafEntry(LeafAt(m1, root, Assign(f)), f, KernelPage()))
    ensures Extends(m, m2, root, [f] + more) && Grows(m1, m2, root)
  {
    hide GetAddress, Low, Within, Assign, Clean, Leaf, NewLeafEntry, KernelPage, TableOf, LeafAt, Grows;
    GrowsTransitive(m, m1, m2, root);
    MapsToItself(LeafAt(m, root, Assign(f)), f);
    assert f in [f] + more;
    forall y ensures Names([f] + more, y) <==> Names([f], y) || Names(more, y) {
      NamesConcat([f], more, y);
    }
    assert forall y :: y == Assign(f) ==> f in [f] && Names([f], y);
  }

  /** A leaf that is empty or already points at `f` is turned into a kernel mapping of `f`. */
  lemma MapsToItself(d: Word, f: Word)
    requires Clean(d) && GetAddress(f) == f && GetAddress(d) in {Word(0), f}
    ensures NewLeafEntry(d, f, KernelPage()) == Leaf(f, KernelPage())
  {
    hide GetAddress, Clean, Leaf, NewLeafEntry, Within;
    KernelPageIsLow();
    NewLeafEntryPoints(d, f, KernelPage());
    ZeroWord();
    WithinReflexive();
  }

  lemma ExtendsTransitive(m: Memory, m1: Memory, m2: Memory, root: Word, a: seq<Word>, b: seq<Word>)
    requires Extends(m, m1, root, a) && Extends(m1, m2, root, b)
    requires forall s, t :: s in a && t in b ==> Assign(s) != Assign(t)
    ensures Extends(m, m2, root, a + b)
  {
    hide GetAddress, Low, Within, Assign, Leaf, KernelPage, TableOf, LeafAt, Grows;
    GrowsTransitive(m, m1, m2, root);
    forall y ensures Names(a + b, y) <==> Names(a, y) || Names(b, y) {
      NamesConcat(a, b, y);
    }
    forall t | t in a + b ensures LeafAt(m2, root, Assign(t)) == Leaf(t, KernelPage()) {
      if t in a {
        assert !Names(b, Assign(t));
      }
    }
  }

  /** Mapping the identity page of a frame `f` to `f` writes the same word whether the page was
      empty, already mapped to `f`, or mapped to `f` with other flags a moment before. */
  lemma IdentityLeaf(d: Word, f: Word, phys: Word, flags: Word)
    requires Clean(d) && GetAddress(phys) == f && GetAddress(d) in {Word(0), f} && Low(flags) == flags
    ensures NewLeafEntry(d, phys, flags) == Leaf(phys, flags)
    ensures GetAddress(Leaf(phys, flags)) == f
  {
    hide Low, Clean, Leaf, NewLeafEntry;
    WithinOwnAddress(d, phys);
    NewLeafEntryPoints(d, phys, flags);
    LeafFields(phys, flags);
  }

  lemma WithinOwnAddress(d: Word, phys: Word)
    requires GetAddress(d) == Word(0) || GetAddress(d) == GetAddress(phys)
    ensures Within(GetAddress(d), phys)
  {
  }

  /** The word for `x` does not depend on whether a table page was just mapped there. */
  lemma LeafUndisturbed(m: Memory, m3: Memory, root: Word, pages: seq<Word>, frames: seq<Word>,
                        x: Indexer, phys: Word, flags: Word)
    requires Sound(m, root, pages + frames) && Extends(m, m3, root, pages) && Tree(m3, root)
    requires forall f :: f in pages + frames && Assign(f) == x ==> GetAddress(phys) == f
    requires Low(flags) == flags
    ensures NewLeafEntry(LeafAt(m3, root, x), phys, flags) == NewLeafEntry(LeafAt(m, root, x), phys, flags)
  {
    hide GetAddress, Low, Within, Assign, Clean, Leaf, NewLeafEntry, KernelPage, TableOf, Grows, Slot, UsableFrame;
    if Names(pages, x) {
      var f :| f in pages && Assign(f) == x;
      assert f in pages + frames;
      assert LeafAt(m3, root, x) == Leaf(f, KernelPage());
      LeafFields(f, KernelPage());
      UsableFrameAddress(f);
      IdentityLeaf(LeafAt(m, root, x), f, phys, flags);
      IdentityLeaf(LeafAt(m3, root, x), f, phys, flags);
    }
  }

  /** The last-level word is written. */
  lemma LeafStep(m3: Memory, m': Memory, root: Word, frames: seq<Word>, x: Indexer, phys: Word, flags: Word)
    requires Sound(m3, root, frames) && TableOf(m3, root, PtOf(x)).Some?
    requires PathHas(m3, root, x, flags) && Low(flags) == flags
    requires forall f :: f in frames && Assign(f) == x ==> GetAddress(phys) == f
    requires m' == Write(m3, TableOf(m3, root, PtOf(x)).value, x.pml1, NewLeafEntry(LeafAt(m3, root, x), phys, flags))
    ensures Sound(m', root, frames) && SameTables(m3, m', root) && Grows(m3, m', root)
    ensures LeafAt(m', root, x) == NewLeafEntry(LeafAt(m3, root, x), phys, flags)
    ensures forall y :: y != x ==> LeafAt(m', root, y) == LeafAt(m3, root, y)
    ensures GainsOnly(m3, m', root, flags)
  {
    hide GainsAtMost, GetAddress, Low, Within, Assign, Clean, Leaf, NewLeafEntry, KernelPage, TableOf, Slot,
      UsableFrame;
    var w := NewLeafEntry(LeafAt(m3, root, x), phys, flags);
    NewLeafEntryClean(LeafAt(m3, root, x), phys, flags);
    NewLeafEntryFlags(LeafAt(m3, root, x), phys, flags);
    WriteLeaf(m3, m', root, PtOf(x), x.pml1, w);
    OneSlotGains(m3, m', root, PtOf(x), x.pml1, w, flags);
    WithinReflexive();
    forall f | f in frames && Assign(f) == x ensures GetAddress(w) == f {
      IdentityLeaf(LeafAt(m3, root, x), f, phys, flags);
    }
    LeafWritten(m3, m', root, frames, x, w);
  }

  /** Writing one last-level word keeps the state sound when the flags fit the path and the
      identity pages of free frames stay identity pages. */
  lemma LeafWritten(m: Memory, m': Memory, root: Word, frames: seq<Word>, x: Indexer, w: Word)
    requires Sound(m, root, frames) && Tree(m', root) && PathHas(m, root, x, Low(w))
    requires SameTables(m, m', root) && OneSlot(m, m', root, PtOf(x), x.pml1, w)
    requires forall f :: f in frames && Assign(f) == x ==> GetAddress(w) in {Word(0), f}
    ensures Sound(m', root, frames)
  {
    hide GetAddress, Low, Within, Assign, Clean, TableOf, Slot, UsableFrame;
    assert forall f :: IsTable(m', root, f) ==> IsTable(m, root, f);
    forall y ensures PathHas(m', root, y, Low(LeafAt(m', root, y))) {
      assert LeafAt(m', root, y) == if y == x then w else LeafAt(m, root, y);
      assert PathHas(m, root, y, Low(LeafAt(m, root, y)));
    }
  }

  lemma LinkFillsPlace(m: Memory, m': Memory, root: Word, n: Place, f: Word, places: set<Place>)
    requires OneTable(m, m', root, n, f) && n in places && TableOf(m, root, n).None?
    ensures |Absent(m, root, places)| == |Absent(m', root, places)| + 1
  {
    assert Absent(m, root, places) == Absent(m', root, places) + {n};
  }

  /** Frames waiting to be handed out have identity pages of their own. */
  lemma ReadyDistinct(m: Memory, root: Word, a: seq<Word>, b: seq<Word>)
    requires Ready(m, root, a + b)
    ensures forall s, t :: s in a && t in b ==> s != t && Assign(s) != Assign(t)
  {
    hide GetAddress, Assign, IsTable, UsableFrame, LeafAt;
    forall s, t | s in a && t in b ensures s != t && Assign(s) != Assign(t) {
      var i :| 0 <= i < |a| && a[i] == s;
      var j :| 0 <= j < |b| && b[j] == t;
      assert (a + b)[i] == s && (a + b)[|a| + j] == t;
      if Assign(s) == Assign(t) {
        UsableFramesDistinct(s, t);
      }
    }
  }

  /** What is known of the frame the allocator is about to return. */
  lemma FirstFrame(m: Memory, root: Word, f: Word, frames: seq<Word>)
    requires Sound(m, root, [f] + frames)
    ensures f != Word(0) && GetAddress(f) == f && !IsTable(m, root, f)
    ensures Clean(LeafAt(m, root, Assign(f))) && GetAddress(LeafAt(m, root, Assign(f))) in {Word(0), f}
    ensures forall g :: g in frames ==> g != f && Assign(g) != Assign(f)
  {
    hide GetAddress, Assign, IsTable, LeafAt;
    assert f == ([f] + frames)[0];
    ReadyDistinct(m, root, [f], frames);
    UsableFrameAddress(f);
    assert f in [f];
    assert Clean(LeafAt(m, root, Assign(f))) by { CleanLeaf(m, root, Assign(f)); }
  }

  lemma CleanLeaf(m: Memory, root: Word, x: Indexer)
    requires Tree(m, root)
    ensures Clean(LeafAt(m, root, x))
  {
    hide Clean, Slot, TableOf;
  }

  lemma AbsentChild(m: Memory, root: Word, p: Place, i: Index, places: set<Place>)
    requires Upper(p) && TableOf(m, root, p).Some? && !Present(Slot(m, root, p, i)) && Below(p, i) in places
    ensures TableOf(m, root, Below(p, i)).None? && |Absent(m, root, places)| > 0
  {
    hide Present, TableOf, Slot;
    BelowIsChild(m, root, p, i);
    ChildOfSlot(m, root, p, i);
    assert Below(p, i) in Absent(m, root, places);
  }

  lemma SameTablesSameAbsent(m: Memory, m': Memory, root: Word, places: set<Place>)
    requires SameTables(m, m', root)
    ensures Absent(m', root, places) == Absent(m, root, places)
  {
  }

  /** A later mapping leaves a table in place and its entry with at least the same flags. */
  lemma EntryKept(m: Memory, m': Memory, root: Word, p: Place, i: Index, flags: Word, table: Word)
    requires Grows(m, m', root) && Upper(p) && Within(flags, Slot(m, root, p, i))
    requires TableOf(m, root, Below(p, i)) == Some(table)
    ensures TableOf(m', root, Below(p, i)) == Some(table) && Within(flags, Slot(m', root, p, i))
  {
    hide Within, TableOf, Slot;
    WithinTransitive(flags, Slot(m, root, p, i), Slot(m', root, p, i));
  }

  /** The three levels of one walk, each extending the tree further, and the final write. */
  lemma ThreeLevels(m0: Memory, m1: Memory, m2: Memory, m3: Memory, root: Word, a: seq<Word>, b: seq<Word>,
                    c: seq<Word>, rest: seq<Word>)
    requires Extends(m0, m1, root, a) && Extends(m1, m2, root, b) && Extends(m2, m3, root, c)
    requires Ready(m0, root, a + b + c + rest)
    ensures Extends(m0, m3, root, a + b + c)
    ensures Grows(m1, m2, root) && Grows(m2, m3, root) && Grows(m1, m3, root)
  {
    hide Ready, TableOf, LeafAt, Grows, Leaf, KernelPage, Assign;
    assert a + b + c + rest == a + (b + c + rest) == (a + b) + (c + rest);
    ReadyDistinct(m0, root, a, b + c + rest);
    ReadyDistinct(m0, root, a + b, c + rest);
    assert forall t :: t in b ==> t in b + c + rest;
    assert forall t :: t in c ==> t in c + rest;
    ExtendsTransitive(m0, m1, m2, root, a, b);
    ExtendsTransitive(m0, m2, m3, root, a + b, c);
    GrowsTransitive(m1, m2, m3, root);
  }

  lemma ExtendsThenLeaf(m0: Memory, m3: Memory, m4: Memory, root: Word, pages: seq<Word>, x: Indexer, w: Word)
    requires Extends(m0, m3, root, pages)
    requires SameTables(m3, m4, root) && Grows(m3, m4, root) && LeafAt(m4, root, x) == w
    requires TableOf(m4, root, PtOf(x)).Some?
    requires forall y :: y != x ==> LeafAt(m4, root, y) == LeafAt(m3, root, y)
    ensures Maps(m0, m4, root, pages, x, w)
  {
    hide TableOf, LeafAt, Grows, Leaf, KernelPage, Assign;
    GrowsTransitive(m0, m3, m4, root);
  }

  /** Overwriting a last-level word with one whose flags fit the path. */
  lemma RewriteLeaf(m: Memory, m': Memory, root: Word, frames: seq<Word>, x: Indexer, w: Word)
    requires Sound(m, root, frames) && TableOf(m, root, PtOf(x)).Some? && Clean(w)
    requires PathHas(m, root, x, Low(w)) && GetAddress(w) in {Word(0), GetAddress(LeafAt(m, root, x))}
    requires m' == Write(m, TableOf(m, root, PtOf(x)).value, x.pml1, w)
    ensures Sound(m', root, frames) && SameTables(m, m', root)
    ensures forall y :: LeafAt(m', root, y) == if y == x then w else LeafAt(m, root, y)
    ensures forall p, i :: Upper(p) ==> Slot(m', root, p, i) == Slot(m, root, p, i)
  {
    hide GetAddress, Low, Within, Assign, Clean, TableOf, Slot, UsableFrame;
    WriteLeaf(m, m', root, PtOf(x), x.pml1, w);
    LeafWritten(m, m', root, frames, x, w);
  }

  lemma EmptyFitsAnywhere(m: Memory, root: Word, x: Indexer)
    ensures PathHas(m, root, x, Low(Word(0)))
  {
    hide TableOf, Slot, Within;
    ZeroWord();
  }

  lemma SameUpperGrows(m: Memory, m': Memory, m'': Memory, root: Word)
    requires Grows(m, m', root) && SameTables(m', m'', root)
    requires forall p, i :: Upper(p) ==> Slot(m'', root, p, i) == Slot(m', root, p, i)
    ensures Grows(m, m'', root)
  {
    hide Within, TableOf, Slot;
  }

  lemma UnmapThenMap(m: Memory, m1: Memory, m2: Memory, root: Word, pages: seq<Word>, from: Indexer, to: Indexer)
    requires SameTables(m, m1, root) && forall p, i :: Upper(p) ==> Slot(m1, root, p, i) == Slot(m, root, p, i)
    requires forall y :: LeafAt(m1, root, y) == if y == from then Word(0) else LeafAt(m, root, y)
    requires Maps(m1, m2, root, pages, to,
                  NewLeafEntry(LeafAt(m1, root, to), GetAddress(LeafAt(m, root, from)), Low(LeafAt(m, root, from))))
    ensures Moves(m, m2, root, pages, from, to)
  {
    hide GetAddress, Low, Within, Assign, Leaf, NewLeafEntry, KernelPage, TableOf, LeafAt, Slot;
    assert Grows(m, m2, root);
  }
}

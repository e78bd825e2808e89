/** Addresses as numbers, the way the page-frame manager counts them, and as the machine words paging
    works on. */
module Addresses {
  import opened Descriptors

  /** The 64-bit word of a number, binary digit by binary digit. */
  function WordOf(n: nat): Word {
    if n == 0 then Word(0) else Shifted(WordOf(n / 2), n % 2 == 1)
  }

  function Shifted(w: Word, odd: bool): Word {
    Word((w.bits << 1) | (if odd then 1 else 0))
  }

  /** Everything below `p` has a word below `b`. */
  ghost predicate AllBelow(p: nat, b: Word) {
    forall n: nat :: n < p ==> Before(WordOf(n), b)
  }

  predicate Roomy(b: Word) {
    b.bits <= 0x0400_0000_0000_0000
  }

  lemma ShiftedBelow(w: Word, odd: bool, b: Word)
    requires Before(w, b) && Roomy(b)
    ensures Before(Shifted(w, odd), Shifted(b, false))
  {
  }

  lemma BelowTwice(p: nat, b: Word)
    requires AllBelow(p, b) && Roomy(b) && p > 0
    ensures AllBelow(2 * p, Shifted(b, false))
  {
    hide Before, Shifted, Roomy;
    forall n: nat | n < 2 * p ensures Before(WordOf(n), Shifted(b, false)) {
      assert Before(WordOf(n / 2), b);
      ShiftedBelow(WordOf(n / 2), n % 2 == 1, b);
      WordShifts(n);
    }
  }

  lemma WordShifts(n: nat)
    ensures WordOf(n) == Shifted(WordOf(n / 2), n % 2 == 1)
  {
  }

  lemma ShiftedBefore(v: Word, w: Word, odd: bool, odd': bool)
    requires Before(v, w) && Roomy(w)
    ensures Before(Shifted(v, odd), Shifted(w, odd'))
  {
  }

  lemma OddAfterEven(w: Word)
    ensures Before(Shifted(w, false), Shifted(w, true))
  {
  }

  lemma BelowSixteenfold(p: nat, k: bv64)
    requires AllBelow(p, Word(k)) && k <= 0x0010_0000_0000_0000 && p > 0
    ensures AllBelow(16 * p, Word(k << 4))
  {
    hide AllBelow, Shifted, Roomy;
    SixteenShifts(k);
    var b := Word(k);
    BelowTwice(p, b);
    BelowTwice(2 * p, Shifted(b, false));
    BelowTwice(4 * p, Shifted(Shifted(b, false), false));
    BelowTwice(8 * p, Shifted(Shifted(Shifted(b, false), false), false));
  }

  lemma SixteenShifts(k: bv64)
    requires k <= 0x0010_0000_0000_0000
    ensures var b := Word(k); var c := Shifted(b, false); var d := Shifted(c, false); var e := Shifted(d, false);
            Roomy(b) && Roomy(c) && Roomy(d) && Roomy(e) && Shifted(e, false) == Word(k << 4)
  {
  }

  /** An address below 2^47 or 2^48 has a word below it too. */
  lemma BelowLimits()
    ensures AllBelow(0x8000_0000_0000, Word(0x8000_0000_0000)) && AllBelow(0x1_0000_0000_0000, Word(0x1_0000_0000_0000))
  {
    OnlyZeroBelowOne();
    hide AllBelow;
    BelowSixteenfold(1, 1);
    BelowSixteenfold(0x10, 0x10);
    BelowSixteenfold(0x100, 0x100);
    BelowSixteenfold(0x1000, 0x1000);
    BelowSixteenfold(0x1_0000, 0x1_0000);
    BelowSixteenfold(0x10_0000, 0x10_0000);
    BelowSixteenfold(0x100_0000, 0x100_0000);
    BelowSixteenfold(0x1000_0000, 0x1000_0000);
    BelowSixteenfold(0x1_0000_0000, 0x1_0000_0000);
    BelowSixteenfold(0x10_0000_0000, 0x10_0000_0000);
    BelowSixteenfold(0x100_0000_0000, 0x100_0000_0000);
    LastShifts();
    BelowTwice(0x1000_0000_0000, Word(0x1000_0000_0000));
    BelowTwice(0x2000_0000_0000, Word(0x2000_0000_0000));
    BelowTwice(0x4000_0000_0000, Word(0x4000_0000_0000));
    BelowTwice(0x8000_0000_0000, Word(0x8000_0000_0000));
  }

  lemma OnlyZeroBelowOne()
    ensures AllBelow(1, Word(1))
  {
  }

  lemma LastShifts()
    ensures Shifted(Word(0x1000_0000_0000), false) == Word(0x2000_0000_0000)
    ensures Shifted(Word(0x2000_0000_0000), false) == Word(0x4000_0000_0000)
    ensures Shifted(Word(0x4000_0000_0000), false) == Word(0x8000_0000_0000)
    ensures Shifted(Word(0x8000_0000_0000), false) == Word(0x1_0000_0000_0000)
    ensures Roomy(Word(0x8000_0000_0000)) && Roomy(Word(0x4000_0000_0000)) && Roomy(Word(0x2000_0000_0000))
    ensures Roomy(Word(0x1000_0000_0000))
  {
  }

  lemma BelowLimitIsRoomy(w: Word)
    requires Before(w, Word(0x1_0000_0000_0000))
    ensures Roomy(w)
  {
  }

  /** The words of addresses are ordered as the addresses are. */
  lemma {:induction false} WordsInOrder(a: nat, b: nat)
    requires a < b < 0x1_0000_0000_0000
    ensures Before(WordOf(a), WordOf(b))
    decreases b
  {
    hide Before, Shifted, Roomy, AllBelow, WordOf;
    WordShifts(a);
    WordShifts(b);
    if a / 2 < b / 2 {
      WordsInOrder(a / 2, b / 2);
      RoomyWord(b / 2);
      ShiftedBefore(WordOf(a / 2), WordOf(b / 2), a % 2 == 1, b % 2 == 1);
    } else {
      OddAfterEven(WordOf(a / 2));
    }
  }

  lemma RoomyWord(n: nat)
    requires n < 0x1_0000_0000_0000
    ensures Roomy(WordOf(n))
  {
    hide Roomy, Before;
    BelowLimits();
    BelowLimitIsRoomy(WordOf(n));
  }

  lemma TwelveShifts(n: nat)
    ensures var s := (w: Word) => Shifted(w, false);
            WordOf(0x1000 * n) == s(s(s(s(s(s(s(s(s(s(s(s(WordOf(n)))))))))))))
  {
    hide Shifted, WordOf;
    Even(n);
    Even(2 * n);
    Even(4 * n);
    Even(8 * n);
    Even(0x10 * n);
    Even(0x20 * n);
    Even(0x40 * n);
    Even(0x80 * n);
    Even(0x100 * n);
    Even(0x200 * n);
    Even(0x400 * n);
    Even(0x800 * n);
  }

  lemma Even(n: nat)
    ensures WordOf(2 * n) == Shifted(WordOf(n), false)
  {
    hide Shifted, WordOf;
    WordShifts(2 * n);
  }

  lemma PageIsAligned(p: nat)
    requires p % 0x1000 == 0
    ensures PageAligned(WordOf(p))
  {
    hide WordOf, Shifted, PageAligned;
    TwelveShifts(p / 0x1000);
    assert p == 0x1000 * (p / 0x1000);
    TwelveZeros(WordOf(p / 0x1000));
  }

  lemma TwelveZeros(w: Word)
    ensures var s := (w: Word) => Shifted(w, false);
            PageAligned(s(s(s(s(s(s(s(s(s(s(s(s(w)))))))))))))
  {
  }

  /** A page of memory below 128 TiB, other than page zero, can be a table. */
  lemma PageIsUsable(p: nat)
    requires 0 < p < 0x8000_0000_0000 && p % 0x1000 == 0
    ensures UsableFrame(WordOf(p))
  {
    hide WordOf, Before, PageAligned, UsableFrame;
    BelowLimits();
    PageIsAligned(p);
    WordsInOrder(0, p);
    UsableWord(WordOf(p));
  }

  lemma UsableWord(w: Word)
    requires Before(WordOf(0), w) && PageAligned(w) && Before(w, Word(0x8000_0000_0000))
    ensures UsableFrame(w)
  {
  }

  function Next(w: Word): Word {
    Word(w.bits + 1)
  }

  lemma EvenNext(w: Word)
    ensures Next(Shifted(w, false)) == Shifted(w, true)
  {
  }

  lemma OddNext(w: Word)
    ensures Next(Shifted(w, true)) == Shifted(Next(w), false)
  {
  }

  lemma {:induction false} WordOfNext(n: nat)
    ensures WordOf(n + 1) == Next(WordOf(n))
  {
    hide Shifted, Next, WordOf;
    WordShifts(n);
    WordShifts(n + 1);
    if n % 2 == 0 {
      EvenNext(WordOf(n / 2));
    } else {
      WordOfNext(n / 2);
      OddNext(WordOf(n / 2));
    }
  }

  /** The loops' step of one page. */
  lemma WordOfNextPage(p: nat)
    requires p % 0x1000 == 0
    ensures WordOf(p + 0x1000) == NextPage(WordOf(p))
  {
    hide WordOf, Shifted, NextPage, Next;
    var q := p / 0x1000;
    TwelveShifts(q);
    TwelveShifts(q + 1);
    assert p == 0x1000 * q && p + 0x1000 == 0x1000 * (q + 1);
    WordOfNext(q);
    NextPageShifts(WordOf(q));
  }

  lemma NextPageShifts(w: Word)
    ensures var s := (w: Word) => Shifted(w, false);
            NextPage(s(s(s(s(s(s(s(s(s(s(s(s(w))))))))))))) == s(s(s(s(s(s(s(s(s(s(s(s(Next(w)))))))))))))
  {
  }
}

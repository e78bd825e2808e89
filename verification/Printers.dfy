/** `utoa`, `itoa` and `__int_str`: numbers written into the caller's buffer. */
module Printers {
  import opened Numerals

  const LOWER: string := "0123456789abcdef"
  const UPPER: string := "0123456789ABCDEF"

  /** The digits of `utoa` and `itoa`. */
  function Lower(): string {
    LOWER
  }

  function Text(ds: seq<nat>, digits: string): (text: string)
    requires forall k :: 0 <= k < |ds| ==> ds[k] < |digits|
    ensures |text| == |ds| && forall k :: 0 <= k < |ds| ==> text[k] == digits[ds[k]]
  {
    seq(|ds|, k requires 0 <= k < |ds| => digits[ds[k]])
  }

  /** A number as `utoa` writes it. */
  function Unsigned(value: nat, base: nat): string
    requires 2 <= base <= 16
  {
    NumeralReads(value, base);
    Text(Numeral(value, base), Lower())
  }

  function Signed(value: int, base: nat): string
    requires 2 <= base <= 16
  {
    if value < 0 then "-" + Unsigned(-value, base) else Unsigned(value, base)
  }

  /** The buffer holds `text`, zero bytes up to `room`, and behind that what it held before. */
  ghost predicate Written(now: seq<char>, was: seq<char>, text: string, room: nat) {
    && |text| <= room <= |now| == |was|
    && now[..|text|] == text
    && (forall i :: |text| <= i < room ==> now[i] == '\0')
    && now[room..] == was[room..]
  }

  /** `text` stands from position `first` on; the rest is as before. */
  ghost predicate Filled(now: seq<char>, was: seq<char>, text: string, first: nat) {
    && first + |text| <= |now| == |was|
    && now == was[..first] + text + was[first + |text|..]
  }

  /** uint8 arithmetic wraps around. */
  function Byte(i: int): nat {
    i % 0x100
  }

  lemma LastDigit(value: nat, base: nat)
    requires base >= 2
    ensures var ds := Numeral(value, base);
            && |ds| >= 1 && ds[|ds| - 1] == value % base
            && (value / base == 0 <==> |ds| == 1)
            && (value / base > 0 ==> ds[..|ds| - 1] == Numeral(value / base, base))
  {
    if value >= base {
      DivSmaller(value, base);
    }
  }

  lemma FitsTable(value: nat, base: nat)
    requires 2 <= base <= 16 && value < TWO_TO_THE_64
    ensures 1 <= |Numeral(value, base)| <= MaxDigits(base)
  {
    TableIsExact(base);
    NumeralLength(value, base, MaxDigits(base));
    NumeralReads(value, base);
  }

  /** The counting loop: `i` ends one above the room the digits leave free. */
  method Leading(value: nat, base: nat, digits: nat) returns (i: nat)
    requires 2 <= base <= 16 && 0 < value < TWO_TO_THE_64 && digits == MaxDigits(base)
    ensures i + |Numeral(value, base)| == digits + 1 && 1 <= i <= digits
  {
    hide MaxDigits, Numeral;
    FitsTable(value, base);
    ghost var n := |Numeral(value, base)|;
    i := digits;
    var tmp := value;
    while i > 0
      invariant 0 <= i <= digits && tmp > 0 && |Numeral(tmp, base)| + digits == n + i
    {
      LastDigit(tmp, base);
      tmp := tmp / base;
      if tmp == 0 {
        break;
      }
      i := i - 1;
    }
    NumeralReads(tmp, base);
  }

  /** The filling loop: digits go in from position `last` down; it ends at `first` exactly, before the
      index could wrap around. */
  method Fill(value: nat, str: array<char>, base: nat, first: nat, last: nat)
    requires 2 <= base <= 16 && 0 < value && last + 1 == first + |Numeral(value, base)|
    requires last < str.Length && last < 0x100
    modifies str
    ensures Filled(str[..], old(str[..]), Unsigned(value, base), first)
  {
    hide Unsigned, Numeral, Lower, Filled, Remaining, Byte;
    ghost var text, was := Unsigned(value, base), str[..];
    FillFrom(value, base);
    var i: nat, tmp: nat := last, value;
    while i >= first
      invariant first <= i <= last && str.Length == |was| && Remaining(value, base, tmp, i + 1 - first)
      invariant forall k :: 0 <= k < first || last < k < |was| ==> str[k] == was[k]
      invariant forall k :: i < k <= last ==> str[k] == text[k - first]
      decreases i
    {
      FillDigit(value, base, tmp, i + 1 - first);
      var character := Lower()[tmp % base];
      tmp := tmp / base;
      str[i] := character;
      if tmp == 0 {
        break;
      }
      NoWrap(i - 1);
      i := Byte(i - 1);
    }
    Assembled(str[..], was, text, first, last);
  }

  /** The digits still to be written are those of `tmp`, the first `count` of the number's. */
  ghost predicate Remaining(value: nat, base: nat, tmp: nat, count: int) {
    && 2 <= base <= 16 && 0 < count <= |Numeral(value, base)|
    && Numeral(tmp, base) == Numeral(value, base)[..count]
  }

  lemma NextDigit(value: nat, base: nat, tmp: nat, count: int)
    requires Remaining(value, base, tmp, count)
    ensures Numeral(value, base)[count - 1] == tmp % base < base
    ensures tmp / base == 0 <==> count == 1
    ensures tmp / base > 0 ==> Remaining(value, base, tmp / base, count - 1)
  {
    LastDigit(tmp, base);
    var ds := Numeral(value, base);
    assert ds[..count][..count - 1] == ds[..count - 1];
  }

  lemma FillFrom(value: nat, base: nat)
    requires 2 <= base <= 16 && value > 0
    ensures Remaining(value, base, value, |Numeral(value, base)|) && |Unsigned(value, base)| == |Numeral(value, base)|
  {
    NumeralReads(value, base);
    assert Numeral(value, base)[..|Numeral(value, base)|] == Numeral(value, base);
  }

  lemma FillDigit(value: nat, base: nat, tmp: nat, count: int)
    requires Remaining(value, base, tmp, count)
    ensures tmp % base < |Lower()| && Unsigned(value, base)[count - 1] == Lower()[tmp % base]
    ensures tmp / base == 0 <==> count == 1
    ensures tmp / base > 0 ==> Remaining(value, base, tmp / base, count - 1)
  {
    NextDigit(value, base, tmp, count);
    NumeralReads(value, base);
  }

  lemma NoWrap(i: nat)
    requires i < 0x100
    ensures Byte(i) == i
  {
  }

  lemma Assembled(now: seq<char>, was: seq<char>, text: string, first: nat, last: nat)
    requires |now| == |was| && last < |was| && last + 1 == first + |text|
    requires forall k :: 0 <= k < first || last < k < |was| ==> now[k] == was[k]
    requires forall k :: first <= k <= last ==> now[k] == text[k - first]
    ensures Filled(now, was, text, first)
  {
  }

  /** `memset` of the first bytes to zero. */
  method Clear(str: array<char>, count: nat)
    requires count <= str.Length
    modifies str
    ensures Written(str[..], old(str[..]), "", count)
  {
    for i := 0 to count
      invariant forall k :: 0 <= k < i ==> str[k] == '\0'
      invariant forall k :: i <= k < str.Length ==> str[k] == old(str[k])
    {
      str[i] := '\0';
    }
  }

  /** `utoa`. */
  method Utoa(value: nat, str: array<char>, base: nat) returns (ok: bool)
    requires value < TWO_TO_THE_64 && base < 0x100
    requires 2 <= base <= 16 ==> str.Length > MaxDigits(base)
    modifies str
    ensures ok <==> 2 <= base <= 16
    ensures !ok ==> str[..] == old(str[..])
    ensures ok ==> Written(str[..], old(str[..]), Unsigned(value, base), MaxDigits(base) + 1)
    ensures ok ==> |Unsigned(value, base)| <= MaxDigits(base)
  {
    hide Unsigned, Numeral, Written, MaxDigits, Filled;
    if base < 2 || base > 16 {
      return false;
    }
    ghost var was := str[..];
    FitsTable(value, base);
    NoZeroByte(value, base);
    var digits := MaxDigits(base);
    Clear(str, digits + 1);
    ghost var cleared := str[..];
    DigitsFit(base);
    if value == 0 {
      str[0] := '0';
      Zero(cleared, str[..], was, base, digits + 1);
      return true;
    }
    var offset := Leading(value, base, digits);
    Fill(value, str, base, 0, Byte(digits - offset));
    FilledIn(cleared, str[..], was, Unsigned(value, base), digits + 1);
    return true;
  }

  /** `itoa`; -2^63 has no positive counterpart and is left out. */
  method Itoa(value: int, str: array<char>, base: nat) returns (ok: bool)
    requires -TWO_TO_THE_63 < value < TWO_TO_THE_63 && base < 0x100
    requires 2 <= base <= 16 ==> str.Length > MaxDigits(base)
    modifies str
    ensures ok <==> 2 <= base <= 16
    ensures !ok ==> str[..] == old(str[..])
    ensures ok ==> Written(str[..], old(str[..]), Signed(value, base), MaxDigits(base) + 1)
  {
    hide Unsigned, Numeral, Written, Signed, MaxDigits, Filled;
    if base < 2 || base > 16 {
      return false;
    }
    SignedIs(value, base);
    ghost var was := str[..];
    var digits := MaxDigits(base);
    Clear(str, digits + 1);
    ghost var cleared := str[..];
    DigitsFit(base);
    if value == 0 {
      str[0] := '0';
      Zero(cleared, str[..], was, base, digits + 1);
      return true;
    }
    var negative := value < 0;
    var magnitude := if negative then -value else value;
    var offset := Leading(magnitude, base, digits);
    if negative {
      Fill(magnitude, str, base, 1, Byte(digits + 1 - offset));
      SignedIn(cleared, str[..], was, Unsigned(magnitude, base), digits + 1);
      str[0] := '-';
    } else {
      Fill(magnitude, str, base, 0, Byte(digits - offset));
      FilledIn(cleared, str[..], was, Unsigned(magnitude, base), digits + 1);
    }
    return true;
  }

  lemma SignedIs(value: int, base: nat)
    requires 2 <= base <= 16
    ensures Signed(value, base) == if value < 0 then "-" + Unsigned(-value, base) else Unsigned(value, base)
    ensures value < 0 ==> |Unsigned(-value, base)| == |Numeral(-value, base)|
    ensures value >= 0 ==> |Unsigned(value, base)| == |Numeral(value, base)|
  {
    NumeralReads(if value < 0 then -value else value, base);
  }

  lemma SignedIn(cleared: seq<char>, now: seq<char>, was: seq<char>, text: string, room: nat)
    requires Written(cleared, was, "", room) && |text| + 1 <= room
    requires Filled(now, cleared, text, 1)
    ensures |now| > 0 && Written(now[0 := '-'], was, "-" + text, room)
  {
    var r := now[0 := '-'];
    assert r == "-" + text + cleared[|text| + 1..];
    FilledIn(cleared, r, was, "-" + text, room);
  }

  lemma Zero(cleared: seq<char>, now: seq<char>, was: seq<char>, base: nat, room: nat)
    requires 2 <= base <= 16 && 1 <= room <= |cleared| && now == cleared[0 := '0']
    requires Written(cleared, was, "", room)
    ensures Written(now, was, Unsigned(0, base), room)
  {
    assert now[room..] == cleared[room..];
    assert Unsigned(0, base) == "0";
    assert now[..1] == "0";
  }

  lemma DigitsFit(base: nat)
    requires 2 <= base <= 16
    ensures 0 < MaxDigits(base) < 0xff
  {
  }

  lemma FilledIn(cleared: seq<char>, now: seq<char>, was: seq<char>, text: string, room: nat)
    requires Written(cleared, was, "", room) && |text| <= room && Filled(now, cleared, text, 0)
    ensures Written(now, was, text, room)
  {
  }

  /** What `itoa` leaves is a C string, ended within the bytes it clears, except for a negative number
      with as many digits as the table allows. */
  lemma ItoaEnds(value: int, base: nat, now: seq<char>, was: seq<char>)
    requires -TWO_TO_THE_63 < value < TWO_TO_THE_63 && 2 <= base <= 16
    requires Written(now, was, Signed(value, base), MaxDigits(base) + 1)
    ensures (exists i :: 0 <= i <= MaxDigits(base) && now[i] == '\0') <==>
              !(value < 0 && |Numeral(-value, base)| == MaxDigits(base))
  {
    var text := Signed(value, base);
    var magnitude := if value < 0 then -value else value;
    FitsTable(magnitude, base);
    NoZeroByte(magnitude, base);
    if |text| <= MaxDigits(base) {
      assert now[|text|] == '\0';
    } else {
      assert forall i :: 0 <= i < |text| ==> now[i] == now[..|text|][i];
    }
  }

  /** What `utoa` leaves is always a C string ended within the bytes it clears: the text and then a zero
      byte, with none inside. */
  lemma UtoaEnds(value: nat, base: nat, now: seq<char>, was: seq<char>)
    requires value < TWO_TO_THE_64 && 2 <= base <= 16
    requires Written(now, was, Unsigned(value, base), MaxDigits(base) + 1)
    ensures var n := |Unsigned(value, base)|;
            && n <= MaxDigits(base) && now[..n] == Unsigned(value, base) && now[n] == '\0'
            && forall i :: 0 <= i < n ==> now[i] != '\0'
  {
    var text := Unsigned(value, base);
    FitsTable(value, base);
    NoZeroByte(value, base);
    assert forall i :: 0 <= i < |text| ==> now[i] == now[..|text|][i];
  }

  lemma NoZeroByte(value: nat, base: nat)
    requires 2 <= base <= 16
    ensures |Unsigned(value, base)| == |Numeral(value, base)|
    ensures forall k :: 0 <= k < |Unsigned(value, base)| ==> Unsigned(value, base)[k] in LOWER
    ensures '\0' !in LOWER
  {
    NumeralReads(value, base);
  }

  /** In base ten that never happens; it can in base 16. */
  lemma ItoaDecimalEnds(value: nat)
    requires value < TWO_TO_THE_63
    ensures |Numeral(value, 10)| < MaxDigits(10)
    ensures |Numeral(0x7fff_ffff_ffff_ffff, 16)| == MaxDigits(16)
  {
    PowersOfTens();
    PowersOfTwos();
    FastPowIs(10, 18);
    OneMore(10, 18);
    NumeralLength(value, 10, 19);
    OneMore(16, 15);
    NumeralLength(0x7fff_ffff_ffff_ffff, 16, 15);
    FitsTable(0x7fff_ffff_ffff_ffff, 16);
  }

  /** A number whose negative has as many digits as the table allows. */
  ghost predicate FillsTable(v: nat, base: nat)
    requires 2 <= base <= 16
  {
    0 < v < TWO_TO_THE_63 && |Numeral(v, base)| == MaxDigits(base)
  }

  /** The bases in which some negative number is left without its end. */
  lemma ItoaBases(base: nat)
    requires 2 <= base <= 16
    ensures (exists v: nat :: FillsTable(v, base)) <==> Pow(base, MaxDigits(base) - 1) < TWO_TO_THE_63
  {
    var p := Pow(base, MaxDigits(base) - 1);
    PowPositive(base, MaxDigits(base) - 1);
    forall v: nat | 0 < v < TWO_TO_THE_63 ensures FillsTable(v, base) <==> v >= p {
      FitsTable(v, base);
      NumeralLength(v, base, MaxDigits(base) - 1);
    }
    assert p < TWO_TO_THE_63 ==> FillsTable(p, base);
  }

  function DigitOf(c: char): nat {
    if '0' <= c <= '9' then (c - '0') as nat
    else if 'a' <= c <= 'f' then (c - 'a') as nat + 10
    else if 'A' <= c <= 'F' then (c - 'A') as nat + 10
    else 0
  }

  function Read(text: string, base: nat): nat {
    Value(seq(|text|, k requires 0 <= k < |text| => DigitOf(text[k])), base)
  }

  /** A digit, its letters in one case. */
  predicate IsDigit(c: char, upper: bool) {
    '0' <= c <= '9' || if upper then 'A' <= c <= 'F' else 'a' <= c <= 'f'
  }

  /** The text reads as the number: digits only, their letters in one case, no needless zero in front. */
  ghost predicate Spells(text: string, value: nat, base: nat, upper: bool) {
    && text != "" && (forall c :: c in text ==> IsDigit(c, upper))
    && Read(text, base) == value && (text[0] == '0' ==> value == 0)
  }

  /** What `utoa` writes reads back as the number. */
  lemma ReadsBack(value: nat, base: nat)
    requires 2 <= base <= 16
    ensures Spells(Unsigned(value, base), value, base, false)
  {
    NumeralReads(value, base);
    TextSpells(Numeral(value, base), value, base, LOWER, false);
  }

  /** So does what `itoa` writes, behind a '-' for a negative number and only then. */
  lemma SignedReadsBack(value: int, base: nat)
    requires 2 <= base <= 16
    ensures var text := Signed(value, base);
            && text != "" && (text[0] == '-' <==> value < 0)
            && (value < 0 ==> Spells(text[1..], -value, base, false))
            && (value >= 0 ==> Spells(text, value, base, false))
  {
    hide Unsigned, Read;
    ReadsBack(if value < 0 then -value else value, base);
    if value >= 0 {
      assert Unsigned(value, base)[0] in Unsigned(value, base);
    }
  }

  /** A numeral written with a table of digits. */
  lemma TextSpells(ds: seq<nat>, value: nat, base: nat, digits: string, upper: bool)
    requires 2 <= base <= 16 && Proper(ds, base) && Value(ds, base) == value && (value > 0 ==> ds[0] != 0)
    requires digits == LOWER || digits == UPPER || (base <= 10 && digits == "0123456789")
    requires base > 10 ==> digits == if upper then UPPER else LOWER
    ensures Spells(Text(ds, digits), value, base, upper)
  {
    hide Value;
    LowerDigits();
    TenDigits();
    var text := Text(ds, digits);
    assert seq(|text|, k requires 0 <= k < |text| => DigitOf(text[k])) == ds;
  }

  lemma TenDigits()
    ensures forall d :: 0 <= d < 10 ==> DigitOf("0123456789"[d]) == d && IsDigit("0123456789"[d], false)
    ensures forall d :: 0 <= d < 10 ==>
              IsDigit("0123456789"[d], true) && IsDigit(LOWER[d], true) && IsDigit(UPPER[d], false)
    ensures forall d :: 0 < d < 10 ==> "0123456789"[d] != '0'
  {
  }

  lemma LowerDigits()
    ensures forall d :: 0 <= d < 16 ==> DigitOf(LOWER[d]) == d && DigitOf(UPPER[d]) == d
    ensures forall d :: 0 <= d < 10 ==> LOWER[d] == UPPER[d]
    ensures forall d :: 0 < d < 16 ==> LOWER[d] != '0' && UPPER[d] != '0'
    ensures forall d :: 0 <= d < 16 ==> IsDigit(LOWER[d], false) && IsDigit(UPPER[d], true)
  {
  }

  // ---------------------------------------------------------------- __int_str

  /** The digits for a base; 17 stands for base 16 in lower case. */
  function DigitsFor(base: nat): string {
    if base == 17 then LOWER else if base == 16 then UPPER else "0123456789"
  }

  function BaseOf(base: nat): nat {
    if base == 17 then 16 else base
  }

  predicate Printable(base: nat) {
    2 <= base <= 10 || base == 16 || base == 17
  }

  function Sign(value: int, plus: bool, space: bool): string {
    if value < 0 then "-" else if plus then "+" else if space then " " else ""
  }

  function Magnitude(value: int): nat {
    if value < 0 then -value else value
  }

  function Body(value: int, base: nat): string
    requires Printable(base)
  {
    NumeralReads(Magnitude(value), BaseOf(base));
    Text(Numeral(Magnitude(value), BaseOf(base)), DigitsFor(base))
  }

  /** Without a sign, `__int_str` and `utoa` write the same. */
  lemma IntStrAgrees(value: nat, base: nat)
    requires 2 <= base <= 10 || base == 17
    ensures Sign(value, false, false) + Body(value, base) == Unsigned(value, BaseOf(base))
  {
    NumeralReads(value, BaseOf(base));
    assert Magnitude(value) == value;
    assert forall d :: 0 <= d < 10 ==> "0123456789"[d] == LOWER[d];
  }

  /** What `__int_str` promises to write, its radix 16 for 17: '-' for a negative number and only then; '+'
      or a space for others if asked for; and then digits that read as the absolute value, with capital
      letters for 16 and small ones for 17. */
  ghost predicate Prints(text: string, value: int, base: nat, plus: bool, space: bool) {
    var start := if value < 0 || plus || space then 1 else 0;
    && |text| > start
    && (text[0] == '-' <==> value < 0)
    && (text[0] == '+' <==> value >= 0 && plus)
    && (text[0] == ' ' <==> value >= 0 && !plus && space)
    && Spells(text[start..], if value < 0 then -value else value, if base == 17 then 16 else base, base == 16)
  }

  lemma IntStrPrints(value: int, base: nat, plus: bool, space: bool)
    requires Printable(base)
    ensures Prints(Sign(value, plus, space) + Body(value, base), value, base, plus, space)
  {
    hide Read, Spells;
    var sign, body := Sign(value, plus, space), Body(value, base);
    BodySpells(value, base);
    assert (sign + body)[|sign|..] == body;
    FirstIsDigit(body, if value < 0 then -value else value, BaseOf(base), base == 16);
  }

  lemma BodySpells(value: int, base: nat)
    requires Printable(base)
    ensures Spells(Body(value, base), if value < 0 then -value else value, BaseOf(base), base == 16)
  {
    hide Read, Spells;
    NumeralReads(Magnitude(value), BaseOf(base));
    TextSpells(Numeral(Magnitude(value), BaseOf(base)), Magnitude(value), BaseOf(base), DigitsFor(base), base == 16);
  }

  lemma FirstIsDigit(text: string, value: nat, base: nat, upper: bool)
    requires Spells(text, value, base, upper)
    ensures text != "" && text[0] != '-' && text[0] != '+' && text[0] != ' '
  {
    assert text[0] in text;
  }

  /** The sign `__int_str` starts with. */
  method WriteSign(value: int, b: array<char>, plus: bool, space: bool) returns (p: nat)
    requires b.Length > 0
    modifies b
    ensures p == |Sign(value, plus, space)| && Filled(b[..], old(b[..]), Sign(value, plus, space), 0)
  {
    p := 0;
    if value < 0 {
      b[0] := '-';
      p := 1;
    } else if plus {
      b[0] := '+';
      p := 1;
    } else if space {
      b[0] := ' ';
      p := 1;
    }
  }

  /** `p` moves on by a place for each digit. */
  method CountDigits(value: nat, radix: nat, start: nat) returns (p: nat)
    requires radix >= 2
    ensures p == start + |Numeral(value, radix)|
  {
    hide Numeral;
    p := start;
    var shifter: nat := value;
    while true
      invariant p + |Numeral(shifter, radix)| == start + |Numeral(value, radix)|
      decreases shifter
    {
      LastDigit(shifter, radix);
      p := p + 1;
      shifter := shifter / radix;
      if shifter == 0 {
        break;
      }
    }
  }

  /** The digits go in from behind; the last one written is the first of the number. */
  method FillBody(value: int, b: array<char>, base: nat, start: nat, end: nat)
    requires Printable(base) && end == start + |Body(value, base)| < b.Length
    modifies b
    ensures Filled(b[..], old(b[..]), Body(value, base), start)
  {
    hide Numeral, Body, DigitsFor, Filled;
    ghost var was, text := b[..], Body(value, base);
    BodyFrom(value, base);
    var digit := DigitsFor(base);
    var radix := BaseOf(base);
    var p, i: nat := end, Magnitude(value);
    while true
      invariant start < p <= end && Remaining(Magnitude(value), radix, i, p - start)
      invariant forall k :: 0 <= k < p || end <= k < |was| ==> b[k] == was[k]
      invariant forall k :: p <= k < end ==> b[k] == text[k - start]
      decreases p
    {
      BodyDigit(value, base, i, p - start);
      p := p - 1;
      b[p] := digit[i % radix];
      i := i / radix;
      if i == 0 {
        break;
      }
    }
    Assembled(b[..], was, text, start, end - 1);
  }

  /** `__int_str` when the text is not shorter than the padding asked for. */
  method IntStr(value: int, b: array<char>, base: nat, plus: bool, space: bool)
    requires -TWO_TO_THE_63 < value < TWO_TO_THE_63 && Printable(base)
    requires |Sign(value, plus, space)| + |Body(value, base)| < b.Length
    modifies b
    ensures var text := Sign(value, plus, space) + Body(value, base);
            b[..] == text + ['\0'] + old(b[|text| + 1..]) && Prints(text, value, base, plus, space)
  {
    hide Numeral, Body, Sign, Filled, Prints;
    ghost var was := b[..];
    BodyFrom(value, base);
    IntStrPrints(value, base, plus, space);
    var start := WriteSign(value, b, plus, space);
    ghost var signed := b[..];
    var end := CountDigits(Magnitude(value), BaseOf(base), start);
    b[end] := '\0';
    ghost var ended := b[..];
    FillBody(value, b, base, start, end);
    Ended(b[..], ended, signed, was, Sign(value, plus, space), Body(value, base));
  }

  lemma BodyFrom(value: int, base: nat)
    requires Printable(base)
    ensures var ds := Numeral(Magnitude(value), BaseOf(base));
            |Body(value, base)| == |ds| && Remaining(Magnitude(value), BaseOf(base), Magnitude(value), |ds|)
  {
    var ds := Numeral(Magnitude(value), BaseOf(base));
    NumeralReads(Magnitude(value), BaseOf(base));
    assert ds[..|ds|] == ds;
  }

  lemma BodyDigit(value: int, base: nat, tmp: nat, count: int)
    requires Printable(base) && Remaining(Magnitude(value), BaseOf(base), tmp, count)
    ensures tmp % BaseOf(base) < |DigitsFor(base)| && count <= |Body(value, base)|
    ensures Body(value, base)[count - 1] == DigitsFor(base)[tmp % BaseOf(base)]
    ensures tmp / BaseOf(base) == 0 <==> count == 1
    ensures tmp / BaseOf(base) > 0 ==> Remaining(Magnitude(value), BaseOf(base), tmp / BaseOf(base), count - 1)
  {
    NextDigit(Magnitude(value), BaseOf(base), tmp, count);
    NumeralReads(Magnitude(value), BaseOf(base));
  }

  lemma Ended(now: seq<char>, ended: seq<char>, signed: seq<char>, was: seq<char>, sign: string, text: string)
    requires |sign| + |text| < |was| == |now| == |signed|
    requires Filled(signed, was, sign, 0) && ended == signed[|sign| + |text| := '\0']
    requires Filled(now, ended, text, |sign|)
    ensures now == sign + text + ['\0'] + was[|sign| + |text| + 1..]
  {
    var n := |sign| + |text|;
    assert ended[..|sign|] == sign;
    assert ended[n..] == ['\0'] + was[n + 1..];
  }
}

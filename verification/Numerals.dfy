/** Numbers written in a base, most significant digit first. */
module Numerals {

  function Numeral(value: nat, base: nat): (ds: seq<nat>)
    requires base >= 2
    decreases value
  {
    if value < base then [value]
    else
      DivSmaller(value, base);
      Numeral(value / base, base) + [value % base]
  }

  /** What a row of digits stands for. */
  function Value(ds: seq<nat>, base: nat): nat {
    if ds == [] then 0 else Value(ds[..|ds| - 1], base) * base + ds[|ds| - 1]
  }

  /** Digits of the base, the first of them zero only in the numeral of zero. */
  ghost predicate Proper(ds: seq<nat>, base: nat) {
    && ds != [] && (forall k :: 0 <= k < |ds| ==> ds[k] < base)
    && (|ds| > 1 ==> ds[0] != 0)
  }

  function Pow(base: nat, n: nat): nat {
    if n == 0 then 1 else base * Pow(base, n - 1)
  }

  lemma DivSmaller(value: nat, base: nat)
    requires base >= 2 && value >= base
    ensures 0 < value / base < value && value == value / base * base + value % base
  {
  }

  /** A number's numeral is proper and stands for the number. */
  lemma {:induction false} NumeralReads(value: nat, base: nat)
    requires base >= 2
    ensures Proper(Numeral(value, base), base) && Value(Numeral(value, base), base) == value
    ensures value > 0 ==> Numeral(value, base)[0] != 0
    decreases value
  {
    var ds := Numeral(value, base);
    if value < base {
      assert ds[..0] == [];
    } else {
      DivSmaller(value, base);
      NumeralReads(value / base, base);
      var front := Numeral(value / base, base);
      assert ds[..|ds| - 1] == front && ds[0] == front[0];
    }
  }

  /** It is the only proper one that does. */
  lemma {:induction false} NumeralUnique(ds: seq<nat>, base: nat)
    requires base >= 2 && Proper(ds, base)
    ensures Numeral(Value(ds, base), base) == ds
    ensures |ds| > 1 ==> Value(ds, base) >= base
  {
    hide Numeral, Value;
    if |ds| == 1 {
      OneDigit(ds, base);
    } else {
      FrontIsProper(ds, base);
      NumeralUnique(ds[..|ds| - 1], base);
      OneMoreDigit(ds, base);
    }
  }

  lemma OneDigit(ds: seq<nat>, base: nat)
    requires base >= 2 && |ds| == 1 && Proper(ds, base)
    ensures Value(ds, base) == ds[0] && Numeral(Value(ds, base), base) == ds
  {
    assert ds[..0] == [];
  }

  lemma FrontIsProper(ds: seq<nat>, base: nat)
    requires base >= 2 && |ds| > 1 && Proper(ds, base)
    ensures var front := ds[..|ds| - 1];
            Proper(front, base) && (|front| == 1 ==> Value(front, base) > 0)
    ensures ds[|ds| - 1] < base
  {
    hide Numeral;
    var front := ds[..|ds| - 1];
    if |front| == 1 {
      OneDigit(front, base);
    }
  }

  lemma OneMoreDigit(ds: seq<nat>, base: nat)
    requires base >= 2 && |ds| > 1 && ds[|ds| - 1] < base
    requires var v := Value(ds[..|ds| - 1], base); Numeral(v, base) == ds[..|ds| - 1] && v > 0
    ensures Numeral(Value(ds, base), base) == ds && Value(ds, base) >= base
  {
    var front, d := ds[..|ds| - 1], ds[|ds| - 1];
    var v := Value(front, base);
    DivBack(v, base, d);
    NumeralOn(v, base, d);
    assert ds == front + [d];
  }

  lemma NumeralOn(v: nat, base: nat, d: nat)
    requires base >= 2 && v * base + d >= base && (v * base + d) / base == v && (v * base + d) % base == d
    ensures Numeral(v * base + d, base) == Numeral(v, base) + [d]
  {
  }

  lemma DivBack(v: nat, base: nat, d: nat)
    requires base >= 2 && d < base && v >= 1
    ensures (v * base + d) / base == v && (v * base + d) % base == d && v * base + d >= base
  {
    var x := v * base + d;
    Least(base, v);
    DivOnce(x, base, x / base, x % base, v, d);
  }

  lemma DivOnce(x: nat, base: nat, q: nat, r: nat, v: nat, d: nat)
    requires x == q * base + r && x == v * base + d && r < base && d < base
    ensures q == v && r == d
  {
    AtLeastOneMore(q, v, base);
    AtLeastOneMore(v, q, base);
  }

  lemma MulMono(a: nat, b: nat, c: nat)
    requires a <= b
    ensures a * c <= b * c
  {
  }

  lemma AtLeastOneMore(a: nat, b: nat, c: nat)
    ensures a < b ==> b * c >= a * c + c
  {
    if a < b {
      MulMono(a + 1, b, c);
    }
  }

  /** A number has at most `n` digits exactly when it is below the `n`th power of the base. */
  lemma {:induction false} NumeralLength(value: nat, base: nat, n: nat)
    requires base >= 2 && n >= 1
    ensures |Numeral(value, base)| <= n <==> value < Pow(base, n)
    decreases value
  {
    assert Pow(base, n) == base * Pow(base, n - 1);
    if value < base {
      PowPositive(base, n - 1);
      Least(base, Pow(base, n - 1));
    } else {
      DivSmaller(value, base);
      if n > 1 {
        NumeralLength(value / base, base, n - 1);
        DivBelow(value, base, Pow(base, n - 1));
      } else {
        assert Pow(base, 0) == 1;
        assert |Numeral(value / base, base)| >= 1 by { NumeralReads(value / base, base); }
      }
    }
  }

  lemma {:induction false} PowPositive(base: nat, n: nat)
    requires base >= 2
    ensures Pow(base, n) >= 1
  {
    if n > 0 {
      PowPositive(base, n - 1);
      Least(base, Pow(base, n - 1));
    }
  }

  lemma Least(base: nat, p: nat)
    requires p >= 1
    ensures base * p >= base
  {
  }

  lemma DivBelow(value: nat, base: nat, p: nat)
    requires base >= 2
    ensures value / base < p <==> value < base * p
  {
    var q, r := value / base, value % base;
    assert value == q * base + r;
    if q < p {
      assert (q + 1) * base <= p * base;
    } else {
      assert q * base >= p * base;
    }
  }

  // ---------------------------------------------------------------- the digit-count table

  /** `BASE_MAX_DIGIT_MAP`. */
  const MAX_DIGITS: seq<nat> := [0, 0, 64, 41, 32, 28, 25, 23, 22, 21, 20, 19, 18, 18, 17, 17, 16]

  function MaxDigits(base: nat): nat
    requires base <= 16
  {
    MAX_DIGITS[base]
  }

  const TWO_TO_THE_64: int := 0x1_0000_0000_0000_0000
  const TWO_TO_THE_63: int := 0x8000_0000_0000_0000

  lemma PowAdd(base: nat, m: nat, n: nat)
    ensures Pow(base, m + n) == Pow(base, m) * Pow(base, n)
    decreases m
  {
    if m > 0 {
      PowAdd(base, m - 1, n);
      var p, q := Pow(base, m - 1), Pow(base, n);
      assert base * p * q == base * (p * q);
    }
  }

  /** The power by repeated squaring. */
  function FastPow(base: nat, n: nat): nat {
    if n == 0 then 1
    else
      var half := FastPow(base, n / 2);
      if n % 2 == 0 then half * half else half * half * base
  }

  lemma {:induction false} FastPowIs(base: nat, n: nat)
    ensures FastPow(base, n) == Pow(base, n)
  {
    if n > 0 {
      FastPowIs(base, n / 2);
      PowAdd(base, n / 2, n / 2);
      if n % 2 == 1 {
        assert Pow(base, n) == base * Pow(base, n / 2 + n / 2);
      } else {
        assert n / 2 + n / 2 == n;
      }
    }
  }

  lemma OneMore(base: nat, n: nat)
    ensures Pow(base, n + 1) == base * FastPow(base, n) && Pow(base, n) == FastPow(base, n)
  {
    FastPowIs(base, n);
  }

  lemma PowersOfTwos()
    ensures FastPow(2, 63) == 9223372036854775808
    ensures FastPow(4, 31) == 4611686018427387904
    ensures FastPow(8, 21) == 9223372036854775808
    ensures FastPow(16, 15) == 1152921504606846976
  {
  }

  lemma PowersOfThrees()
    ensures FastPow(3, 40) == 12157665459056928801
    ensures FastPow(9, 20) == 12157665459056928801
    ensures FastPow(6, 24) == 4738381338321616896
    ensures FastPow(12, 17) == 2218611106740436992
  {
  }

  lemma PowersOfTens()
    ensures FastPow(5, 27) == 7450580596923828125
    ensures FastPow(10, 19) == 10000000000000000000
    ensures FastPow(15, 16) == 6568408355712890625
  {
  }

  lemma PowersOfOthers()
    ensures FastPow(7, 22) == 3909821048582988049
    ensures FastPow(14, 16) == 2177953337809371136
    ensures FastPow(11, 18) == 5559917313492231481
    ensures FastPow(13, 17) == 8650415919381337933
  {
  }

  /** An entry is the largest number of digits of any 64-bit number in that base. */
  lemma TableIsExact(base: nat)
    requires 2 <= base <= 16
    ensures Pow(base, MaxDigits(base)) >= TWO_TO_THE_64 > Pow(base, MaxDigits(base) - 1)
  {
    hide Pow, FastPow;
    PowersOfTwos();
    PowersOfThrees();
    PowersOfTens();
    PowersOfOthers();
    OneMore(base, MaxDigits(base) - 1);
  }
}

/** Numerals: the value of a digit run, and the digits of a value, most significant digit first. */
module Numerals {
  import opened Common
  import opened Machine

  const TWO_63: int := 0x8000_0000_0000_0000

  type i64 = x: int | -TWO_63 <= x < TWO_63

  /** The signed value with the same 64 bits. */
  function Signed(x: u64): i64 {
    if x < TWO_63 then x else x - TWO_64
  }

  lemma SignedWrap(v: i64)
    ensures Signed(Wrap(v)) == v
  {
  }

  // ---- characters ----

  const SPACE: byte := 0x20
  const PLUS: byte := 0x2b
  const COMMA: byte := 0x2c
  const MINUS: byte := 0x2d
  const ZERO: byte := 0x30

  predicate IsSpace(c: byte) { c == SPACE || 9 <= c <= 13 }
  predicate IsDigit(c: byte) { 0x30 <= c <= 0x39 }
  predicate IsUpper(c: byte) { 0x41 <= c <= 0x5a }
  predicate IsLower(c: byte) { 0x61 <= c <= 0x7a }
  predicate IsX(c: byte) { c == 0x78 || c == 0x58 }

  const NO_DIGIT: nat := 36

  /** What a character stands for as a digit; no base has the digit NO_DIGIT. */
  function DigitOf(c: byte): (d: nat)
    ensures d <= NO_DIGIT
  {
    if IsDigit(c) then c - 0x30
    else if IsUpper(c) then c - 0x41 + 10
    else if IsLower(c) then c - 0x61 + 10
    else NO_DIGIT
  }

  /** Exactly these characters are digits: 0 to 9, and the letters of either case from 10 on. */
  lemma DigitCharacters(c: byte, d: nat)
    requires d < 36
    ensures DigitOf(c) == d <==>
            if d < 10 then c == 0x30 + d else c == 0x41 + (d - 10) || c == 0x61 + (d - 10)
  {
  }

  const LOWER: byte := 0x61
  const UPPER: byte := 0x41

  /** The character for a digit, letters beginning at `ten`. */
  function DigitChar(d: nat, ten: byte): (c: byte)
    requires d < NO_DIGIT && (ten == UPPER || ten == LOWER)
    ensures DigitOf(c) == d && c != NUL && c != SPACE && c != COMMA && c != MINUS && (IsX(c) ==> d == 33)
  {
    if d > 9 then d - 10 + ten else d + 0x30
  }

  // ---- values ----

  function Value(ds: seq<nat>, b: nat): nat {
    if ds == [] then 0 else Value(ds[..|ds| - 1], b) * b + ds[|ds| - 1]
  }

  function Digits(v: nat, b: nat): (ds: seq<nat>)
    requires b >= 2
  {
    if v == 0 then [] else Digits(v / b, b) + [v % b]
  }

  /** At least one digit. */
  function Numeral(v: nat, b: nat): (ds: seq<nat>)
    requires b >= 2
  {
    if v == 0 then [0] else Digits(v, b)
  }

  function Chars(ds: seq<nat>, ten: byte): (cs: seq<byte>)
    requires (forall i :: 0 <= i < |ds| ==> ds[i] < NO_DIGIT) && (ten == UPPER || ten == LOWER)
    ensures |cs| == |ds| && forall i :: 0 <= i < |cs| ==> cs[i] == DigitChar(ds[i], ten)
  {
    seq<byte>(|ds|, i requires 0 <= i < |ds| => DigitChar(ds[i], ten))
  }

  /** A value as text. */
  function NumeralChars(v: nat, base: nat, ten: byte): (cs: seq<byte>)
    requires 2 <= base <= 36 && (ten == UPPER || ten == LOWER)
    ensures |cs| == |Numeral(v, base)|
  {
    NumeralValue(v, base);
    Chars(Numeral(v, base), ten)
  }

  /** The characters of a numeral: 0 to 9 for the digits below ten, and letters from a or A on for the others. */
  lemma NumeralCharacters(v: nat, base: nat, i: nat)
    requires 2 <= base <= 36 && i < |Numeral(v, base)|
    ensures var d := Numeral(v, base)[i];
            var lower, upper := NumeralChars(v, base, LOWER)[i], NumeralChars(v, base, UPPER)[i];
            && d < base
            && if d < 10 then lower == upper == 0x30 + d else lower == 0x61 + (d - 10) && upper == 0x41 + (d - 10)
  {
    hide Numeral;
    NumeralValue(v, base);
  }

  lemma QuotientStep(v: nat, b: nat)
    requires b >= 2 && v > 0
    ensures v / b < v && v % b < b && v / b * b + v % b == v && (v / b == 0 ==> v % b > 0)
  {
    var q, r := v / b, v % b;
    assert q * b + r == v;
    TwiceAtMost(q, b);
    if q == 0 { assert q * b == 0; }
  }

  lemma TwiceAtMost(q: nat, b: nat)
    requires b >= 2
    ensures q * 2 <= q * b
  {
  }

  lemma DigitsUnfold(v: nat, b: nat)
    requires b >= 2 && v > 0
    ensures Digits(v, b) == Digits(v / b, b) + [v % b]
  {
  }

  lemma LastOf(ds: seq<nat>, es: seq<nat>, d: nat)
    requires ds == es + [d]
    ensures |ds| == |es| + 1 && ds[..|ds| - 1] == es && ds[|ds| - 1] == d
  {
  }

  lemma DigitsStep(v: nat, b: nat)
    requires b >= 2 && v > 0
    ensures v / b < v && v % b < b && v / b * b + v % b == v && (v / b == 0 ==> v % b > 0)
    ensures var ds := Digits(v, b);
            |ds| == |Digits(v / b, b)| + 1 && ds[..|ds| - 1] == Digits(v / b, b) && ds[|ds| - 1] == v % b
  {
    hide Digits;
    QuotientStep(v, b);
    DigitsUnfold(v, b);
    LastOf(Digits(v, b), Digits(v / b, b), v % b);
  }

  lemma {:induction false} DigitsValue(v: nat, b: nat)
    requires b >= 2
    ensures Value(Digits(v, b), b) == v && (forall i :: 0 <= i < |Digits(v, b)| ==> Digits(v, b)[i] < b)
    ensures v > 0 ==> |Digits(v, b)| > 0 && Digits(v, b)[0] > 0
  {
    if v > 0 {
      hide Digits;
      DigitsStep(v, b);
      DigitsValue(v / b, b);
      var ds := Digits(v, b);
      assert forall i :: 0 <= i < |ds| - 1 ==> ds[i] == Digits(v / b, b)[i];
      if v / b == 0 { NoDigits(b); }
    } else {
      NoDigits(b);
    }
  }

  lemma NoDigits(b: nat)
    requires b >= 2
    ensures Digits(0, b) == []
  {
  }

  /** A numeral has the value it is made from, its digits are below the base, and there is no needless zero. */
  lemma NumeralValue(v: nat, b: nat)
    requires b >= 2
    ensures var ds := Numeral(v, b);
            Value(ds, b) == v && |ds| > 0 && (forall i :: 0 <= i < |ds| ==> ds[i] < b) && (ds[0] == 0 ==> ds == [0])
  {
    DigitsValue(v, b);
    assert [0][..0] == [];
  }

  /** n digits are enough for the values below b^n, and not for others. */
  lemma {:induction false} DigitCount(v: nat, b: nat, n: nat)
    requires b >= 2
    ensures |Digits(v, b)| <= n <==> v < Power(b, n)
  {
    if v > 0 && n > 0 {
      DigitCount(v / b, b, n - 1);
      DivideBelow(v, b, Power(b, n - 1));
    } else if n > 0 {
      PowerPositive(b, n);
    }
  }

  lemma {:induction false} PowerPositive(b: nat, n: nat)
    requires b >= 1
    ensures Power(b, n) >= 1
  {
    if n > 0 { PowerPositive(b, n - 1); }
  }

  lemma DivideBelow(v: nat, b: nat, p: nat)
    requires b >= 1
    ensures v / b < p <==> v < b * p
  {
    assert v == b * (v / b) + v % b;
    if v / b < p {
      assert b * (v / b + 1) <= b * p;
    } else {
      assert b * (v / b) >= b * p;
    }
  }

  lemma TenPower19()
    ensures Power(10, 19) == 10_000_000_000_000_000_000
  {
    assert Power(10, 5) == 100_000;
    assert Power(10, 10) == 10_000_000_000;
    assert Power(10, 15) == 1_000_000_000_000_000;
  }

  /** 64 bits take at most 64 digits. */
  lemma NumeralLength(v: u64, b: nat)
    requires b >= 2
    ensures 1 <= |Numeral(v, b)| <= 64
  {
    TwoPower(64);
    Pow2Values();
    if v > 0 {
      DigitsValue(v, b);
      FewerDigits(v, b, 64);
    }
  }

  lemma {:induction false} TwoPower(n: nat)
    ensures Power(2, n) == Pow2(n)
  {
    if n > 0 { TwoPower(n - 1); }
  }

  lemma {:induction false} PowerMonotone(b: nat, c: nat, n: nat)
    requires b <= c
    ensures Power(b, n) <= Power(c, n)
  {
    if n > 0 {
      PowerMonotone(b, c, n - 1);
      Products(b, c, Power(b, n - 1), Power(c, n - 1));
    }
  }

  lemma Products(b: nat, c: nat, x: nat, y: nat)
    requires b <= c && x <= y
    ensures b * x <= c * y
  {
    assert b * x <= b * y;
  }

  lemma FewerDigits(v: nat, b: nat, n: nat)
    requires b >= 2 && v < Power(2, n)
    ensures |Digits(v, b)| <= n
  {
    PowerMonotone(2, b, n);
    DigitCount(v, b, n);
  }

  // ---- values of longer runs ----

  lemma {:induction false} ValueOfZeros(ds: seq<nat>, b: nat)
    requires forall i :: 0 <= i < |ds| ==> ds[i] == 0
    ensures Value(ds, b) == 0
  {
    if ds != [] { ValueOfZeros(ds[..|ds| - 1], b); }
  }

  /** Zeros in front do not change a value. */
  lemma {:induction false} LeadingZeros(zs: seq<nat>, ds: seq<nat>, b: nat)
    requires forall i :: 0 <= i < |zs| ==> zs[i] == 0
    ensures Value(zs + ds, b) == Value(ds, b)
  {
    if ds == [] {
      assert zs + ds == zs;
      ValueOfZeros(zs, b);
    } else {
      var init := ds[..|ds| - 1];
      assert (zs + ds)[..|zs + ds| - 1] == zs + init;
      LeadingZeros(zs, init, b);
    }
  }
}

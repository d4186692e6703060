/** What libc/include/stdio.h says about integer conversions, and exactly when libc/stdio/printf.c does it. */
module PrintfPromises {
  import opened Common
  import opened Machine
  import opened Numerals
  import opened PrintfSpec
  import Strtoimax

  // ---- the radix of p and X ----

  lemma {:induction false} LargerBase(ds: seq<nat>, b: nat, c: nat)
    requires 2 <= b < c && ds != [] && ds[0] > 0
    ensures 0 < Value(ds, b) <= Value(ds, c) && (|ds| > 1 ==> Value(ds, b) < Value(ds, c))
    decreases |ds|
  {
    var init := ds[..|ds| - 1];
    if init != [] {
      LargerBase(init, b, c);
      LargerProduct(Value(init, b), Value(init, c), b, c);
    } else {
      assert Value(init, b) == Value(init, c) == 0;
    }
  }

  lemma LargerProduct(x: nat, y: nat, b: nat, c: nat)
    requires 0 < x <= y && 0 < b < c
    ensures 0 < x * b < y * c
  {
    assert x * b < x * c <= y * c;
  }

  /** Decimal digits are the hexadecimal ones of the same value exactly below 10. */
  lemma DecimalIsHexIff(m: u64)
    ensures NumeralChars(m, 10, UPPER) == NumeralChars(m, 16, UPPER) <==> m < 10
  {
    hide Value, Digits;
    var ds, es := Numeral(m, 10), Numeral(m, 16);
    NumeralValue(m, 10);
    NumeralValue(m, 16);
    Strtoimax.CharsRun(ds, UPPER);
    Strtoimax.CharsRun(es, UPPER);
    OneDigit(m, 10);
    OneDigit(m, 16);
    if m >= 10 && ds == es {
      LargerBase(ds, 10, 16);
    }
  }

  lemma OneDigit(m: nat, b: nat)
    requires b >= 2
    ensures Numeral(m, b) == [m] <==> m < b
    ensures m >= b ==> |Numeral(m, b)| > 1
  {
    if 0 < m < b {
      DivModUnique(m, b, 0, m);
      NoDigits(b);
      assert Digits(m, b) == Digits(0, b) + [m];
    } else if m >= b {
      DigitsValue(m, b);
      assert Power(b, 1) == b;
      DigitCount(m, b, 1);
    }
  }

  /** The bits of the argument, an unsigned number of 32 or 64 bits. */
  function ArgumentBits(c: byte, given: Spec, word: u64): u64 {
    if Adjusted(c, given).long then word else Wrap32(word)
  }

  /** The sign the flags ask for: + wins over space, and both are only valid for X. */
  function AskedSign(c: byte, given: Spec): seq<byte> {
    if c != Ch('X') then [] else if given.sign then [PLUS] else if given.blank then [SPACE] else []
  }

  /** A negative argument of p or X gets a minus sign, any other one the sign the flags ask for. */
  lemma SignOfPX(c: byte, given: Spec, word: u64)
    requires c == Ch('p') || c == Ch('X')
    ensures var bits, m := ArgumentBits(c, given, word), Printed(c, given, word);
            var prefix := IntegerLayout(c, given, word).prefix;
            if bits >= 0x8000_0000_0000_0000 || (!Adjusted(c, given).long && bits >= 0x8000_0000) then prefix == [MINUS]
            else m == bits && prefix == AskedSign(c, given)
  {
    hide IntegerDigits, IntegerPrecision, Grouped;
  }

  /**
    * p and X, which the header calls unsigned hexadecimal, print the sign asked for and the hexadecimal digits of
    * the argument's bits exactly when these are below 10, and not the 0 that precision 0 leaves out.
    */
  lemma HexOfPXIff(c: byte, given: Spec, word: u64)
    requires c == Ch('p') || c == Ch('X')
    ensures var l, bits := IntegerLayout(c, given, word), ArgumentBits(c, given, word);
            l.prefix + l.content == AskedSign(c, given) + NumeralChars(bits, 16, UPPER) <==>
            bits < 10 && (bits > 0 || given.precision > 0 || given.comma)
  {
    hide IntegerLayout, Printed, NumeralChars, AskedSign, ArgumentBits;
    var l, bits := IntegerLayout(c, given, word), ArgumentBits(c, given, word);
    var asked, hex := AskedSign(c, given), NumeralChars(bits, 16, UPPER);
    SignOfPX(c, given, word);
    AskedIsNoMinus(c, given, bits);
    if l.prefix == asked {
      HexContentIff(c, given, word);
      SamePrefix(asked, l.content, hex);
    } else {
      assert (l.prefix + l.content)[0] == MINUS;
    }
  }

  lemma HexGroupedIff(m: u64)
    ensures Grouped(NumeralChars(m, 10, UPPER)) == NumeralChars(m, 16, UPPER) <==> m < 10
  {
    hide NumeralChars, Grouped, Solid, Power;
    DecimalIsHexIff(m);
    DigitsOnly(m, 10);
    DigitsOnly(m, 16);
    ThousandIsPower();
    GroupedHasComma(NumeralChars(m, 10, UPPER));
    ShortGrouped(NumeralChars(m, 10, UPPER));
  }

  lemma HexContentIff(c: byte, given: Spec, word: u64)
    requires c == Ch('p') || c == Ch('X')
    ensures var m := Printed(c, given, word);
            IntegerLayout(c, given, word).content == NumeralChars(m, 16, UPPER) <==>
            m < 10 && (m > 0 || given.precision > 0 || given.comma)
  {
    hide IntegerLayout, Printed, NumeralChars, Grouped, Solid, Power;
    var m := Printed(c, given, word);
    CommaParts(c, given, word);
    assert given == given.(comma := given.comma);
    if given.comma {
      HexGroupedIff(m);
    } else if m == 0 && given.precision == 0 {
      DigitsOnly(m, 16);
    } else {
      DecimalIsHexIff(m);
    }
  }

  lemma SamePrefix(p: seq<byte>, s: seq<byte>, t: seq<byte>)
    ensures p + s == p + t <==> s == t
  {
    assert (p + s)[|p|..] == s && (p + t)[|p|..] == t;
  }

  lemma AskedIsNoMinus(c: byte, given: Spec, bits: u64)
    ensures |AskedSign(c, given) + NumeralChars(bits, 16, UPPER)| > 0
    ensures (AskedSign(c, given) + NumeralChars(bits, 16, UPPER))[0] != MINUS
    ensures AskedSign(c, given) != [MINUS]
  {
    NumeralValue(bits, 16);
  }

  /** %p of 2^64 - 5 is -5. */
  lemma NegativePointer()
    ensures IntegerLayout(Ch('p'), PLAIN, TWO_64 - 5).Render() == [MINUS, 0x35] != NumeralChars(TWO_64 - 5, 16, UPPER)
  {
    AskedIsNoMinus(Ch('p'), PLAIN, TWO_64 - 5);
    hide Chars;
    var l := IntegerLayout(Ch('p'), PLAIN, TWO_64 - 5);
    NoDigits(10);
    assert Digits(5, 10) == Digits(0, 10) + [5];
    assert l.content == [0x35] && l.prefix == [MINUS];
    assert l.Filled() == [MINUS];
  }

  // ---- the comma flag ----

  lemma {:induction false} GroupedHasComma(ds: seq<byte>)
    requires forall j :: 0 <= j < |ds| ==> ds[j] != COMMA
    ensures COMMA in Grouped(ds) <==> |ds| > 3
  {
    if |ds| > 3 {
      GroupedLength(ds);
      CommaPlaces(ds, |Grouped(ds)| - 4);
    }
  }

  /** A numeral has at most three digits exactly below the third power of its base. */
  lemma ThreeDigits(m: nat, b: nat)
    requires b >= 2
    ensures |Numeral(m, b)| <= 3 <==> m < Power(b, 3)
  {
    DigitCount(m, b, 3);
    PowerPositive(b, 3);
  }

  /** A field of digits between spaces, behind a prefix. */
  function Between(a: nat, prefix: seq<byte>, ds: seq<byte>, b: nat): seq<byte> {
    Fill(SPACE, a) + prefix + ds + Fill(SPACE, b)
  }

  ghost predicate Solid(ds: seq<byte>) { forall i :: 0 <= i < |ds| ==> ds[i] != SPACE }

  /** The number of spaces a text begins with. */
  function Leading(s: seq<byte>): nat {
    if s == [] || s[0] != SPACE then 0 else 1 + Leading(s[1..])
  }

  /** The number of spaces a text ends with. */
  function Trailing(s: seq<byte>): nat {
    if s == [] || s[|s| - 1] != SPACE then 0 else 1 + Trailing(s[..|s| - 1])
  }

  lemma {:induction false} LeadingIs(s: seq<byte>, n: nat)
    requires n <= |s| && (forall i :: 0 <= i < n ==> s[i] == SPACE) && (n < |s| ==> s[n] != SPACE)
    ensures Leading(s) == n
  {
    if n > 0 { LeadingIs(s[1..], n - 1); }
  }

  lemma {:induction false} TrailingIs(s: seq<byte>, n: nat)
    requires n <= |s| && (forall i :: |s| - n <= i < |s| ==> s[i] == SPACE) && (n < |s| ==> s[|s| - n - 1] != SPACE)
    ensures Trailing(s) == n
  {
    if n > 0 { TrailingIs(s[..|s| - 1], n - 1); }
  }

  /** Fields with the same prefix, padded on one side, are equal exactly when the padding and the digits are. */
  lemma SameField(a: nat, p: seq<byte>, ds: seq<byte>, b: nat, c: nat, es: seq<byte>, d: nat)
    requires |p| <= 1 && Solid(ds) && Solid(es) && ds != [] && ((a == 0 && c == 0) || (b == 0 && d == 0))
    ensures Between(a, p, ds, b) == Between(c, p, es, d) <==> a == c && ds == es && b == d
  {
    var s, t := Between(a, p, ds, b), Between(c, p, es, d);
    if a == 0 && c == 0 {
      SameBehind(p, ds, b, es, d);
    } else {
      SameInFront(a, p, ds, c, es);
    }
  }

  lemma SameBehind(p: seq<byte>, ds: seq<byte>, b: nat, es: seq<byte>, d: nat)
    requires |p| <= 1 && Solid(ds) && Solid(es) && ds != []
    ensures Between(0, p, ds, b) == Between(0, p, es, d) <==> ds == es && b == d
  {
    var s, t := Between(0, p, ds, b), Between(0, p, es, d);
    assert s[|s| - b - 1] == ds[|ds| - 1];
    TrailingIs(s, b);
    if es == [] {
      assert t == p + Fill(SPACE, d);
      assert Trailing(t) >= d by { TrailingAtLeast(t, d); }
    } else {
      assert t[|t| - d - 1] == es[|es| - 1];
      TrailingIs(t, d);
    }
    assert s[|p|..|s| - b] == ds && t[|p|..|t| - d] == es;
  }

  lemma {:induction false} TrailingAtLeast(s: seq<byte>, n: nat)
    requires n <= |s| && forall i :: |s| - n <= i < |s| ==> s[i] == SPACE
    ensures Trailing(s) >= n
  {
    if n > 0 { TrailingAtLeast(s[..|s| - 1], n - 1); }
  }

  lemma SameInFront(a: nat, p: seq<byte>, ds: seq<byte>, c: nat, es: seq<byte>)
    requires |p| <= 1 && Solid(ds) && Solid(es)
    ensures Between(a, p, ds, 0) == Between(c, p, es, 0) <==> a == c && ds == es
  {
    var s, t := Between(a, p, ds, 0), Between(c, p, es, 0);
    LeadingOf(a, p, ds);
    LeadingOf(c, p, es);
    assert s[a + |p|..] == ds && t[c + |p|..] == es;
  }

  lemma LeadingOf(a: nat, p: seq<byte>, ds: seq<byte>)
    requires |p| <= 1 && Solid(ds)
    ensures Leading(Between(a, p, ds, 0)) == a + if p == [SPACE] then 1 else 0
  {
    var s, n := Between(a, p, ds, 0), a + if p == [SPACE] then 1 else 0;
    if p != [] { assert s[a] == p[0]; }
    if ds != [] { assert s[a + |p|] == ds[0]; }
    LeadingIs(s, n);
  }

  /** The digits a field shows, with the zeros in front of them. */
  function ShownDigits(l: Layout): seq<byte> {
    Fill(ZERO, Signed32(Wrap32(l.Inner() - l.Count()))) + l.content
  }

  /** The number of spaces a field is padded with. */
  function Padding(l: Layout): nat { if l.pad then |l.Blanks()| else 0 }

  lemma RenderBetween(l: Layout)
    requires l.zeros
    ensures l.Render() ==
            Between(if l.left then 0 else Padding(l), l.prefix, ShownDigits(l), if l.left then Padding(l) else 0)
  {
    var r := l.Render();
    assert l.Blanks() == Fill(SPACE, |l.Blanks()|);
    assert Fill(SPACE, 0) == [];
  }

  lemma SameRender(k: Layout, l: Layout)
    requires k.zeros && l.zeros && k.left == l.left && k.prefix == l.prefix && |k.prefix| <= 1
    requires Solid(ShownDigits(k)) && Solid(ShownDigits(l)) && ShownDigits(k) != []
    ensures k.Render() == l.Render() <==> Padding(k) == Padding(l) && ShownDigits(k) == ShownDigits(l)
  {
    hide Layout.Render, Between, ShownDigits, Padding, Solid;
    RenderBetween(k);
    RenderBetween(l);
    if k.left {
      SameField(0, k.prefix, ShownDigits(k), Padding(k), 0, ShownDigits(l), Padding(l));
    } else {
      SameField(Padding(k), k.prefix, ShownDigits(k), 0, Padding(l), ShownDigits(l), 0);
    }
  }

  /** A character that is no padding is in a field exactly when it is in its prefix or content. */
  lemma CharacterInRender(l: Layout, x: byte)
    requires l.zeros && x != SPACE && x != ZERO
    ensures x in l.Render() <==> x in l.prefix || x in l.content
  {
    hide Layout.Blanks;
    var front := if l.pad && !l.left then l.Blanks() else [];
    var back := if l.pad && l.left then l.Blanks() else [];
    BlanksAreSpaces(l);
    assert l.Filled() == l.prefix + Fill(ZERO, Signed32(Wrap32(l.Inner() - l.Count())));
    assert l.Render() == front + l.Filled() + l.content + back;
  }

  lemma BlanksAreSpaces(l: Layout)
    ensures forall x :: x in l.Blanks() ==> x == SPACE
  {
  }

  /** The characters of a numeral are digits. */
  lemma DigitsOnly(m: u64, b: nat)
    requires 2 <= b <= 16
    ensures var ds := NumeralChars(m, b, UPPER); Solid(ds) && COMMA !in ds && ds != []
    ensures NumeralChars(0, b, UPPER) == [ZERO]
    ensures |NumeralChars(m, b, UPPER)| <= 3 <==> m < Power(b, 3)
  {
    hide Value, Digits;
    NumeralValue(m, b);
    ThreeDigits(m, b);
  }

  /** The field with the comma flag and the one without. */
  lemma CommaParts(c: byte, given: Spec, word: u64)
    requires IsInteger(c)
    ensures var k, l := IntegerLayout(c, given.(comma := true), word), IntegerLayout(c, given.(comma := false), word);
            var m, b := Printed(c, given, word), Radix(c);
            var ds := NumeralChars(m, b, UPPER);
            && k.zeros && k.left == l.left && k.prefix == l.prefix && |k.prefix| <= 1 && COMMA !in k.prefix
            && l.content == (if m == 0 && given.precision == 0 then [] else ds)
            && (b == 10 ==> k == l.(precision := 1 + |k.prefix|, content := Grouped(ds)))
            && (b != 10 ==> k == l.(content := Grouped(l.content)))
  {
    hide Adjusted, Argument, Magnitude, Prefix, Minus, NumeralChars, Grouped;
    var v := Argument(Adjusted(c, given), word);
    CommaAside(c, given, true, word, v);
    CommaAside(c, given, false, word, v);
  }

  /** The comma flag bears on no value and no sign. */
  lemma CommaAside(c: byte, given: Spec, comma: bool, word: u64, v: i64)
    ensures var sp, tp := Adjusted(c, given), Adjusted(c, given.(comma := comma));
            && tp == sp.(comma := comma) && Argument(tp, word) == Argument(sp, word)
            && Magnitude(c, tp, v) == Magnitude(c, sp, v) && Prefix(c, tp, v) == Prefix(c, sp, v)
            && |Prefix(c, sp, v)| <= 1 && COMMA !in Prefix(c, sp, v)
            && sp.precision == given.precision && sp.pad == given.pad && sp.left == given.left
            && sp.width == given.width && sp.point == given.point
  {
    hide Adjusted, Argument, Magnitude, Prefix;
    FlagsAside(c, given, comma);
    ValueAside(c, Adjusted(c, given), comma, word, v);
  }

  lemma FlagsAside(c: byte, given: Spec, comma: bool)
    ensures var sp := Adjusted(c, given);
            && Adjusted(c, given.(comma := comma)) == sp.(comma := comma)
            && sp.precision == given.precision && sp.pad == given.pad && sp.left == given.left
            && sp.width == given.width && sp.point == given.point
  {
    hide Adjusted;
    AdjustedFields(c, given);
    AdjustedFields(c, given.(comma := comma));
  }

  /** What a conversion does to the flags, one by one. */
  lemma AdjustedFields(c: byte, sp: Spec)
    ensures Adjusted(c, sp) ==
            Spec(sp.left, sp.sign && c != Ch('p') && c != Ch('u'), sp.blank && c != Ch('p'), sp.comma,
                 sp.long || c == Ch('p'),
                 (sp.zero && c != Ch('p')) || c == Ch('X'), sp.pad, sp.point, sp.width, sp.precision)
  {
  }

  lemma ValueAside(c: byte, sp: Spec, comma: bool, word: u64, v: i64)
    ensures var tp := sp.(comma := comma);
            && Argument(tp, word) == Argument(sp, word)
            && Magnitude(c, tp, v) == Magnitude(c, sp, v) && Prefix(c, tp, v) == Prefix(c, sp, v)
            && |Prefix(c, sp, v)| <= 1 && COMMA !in Prefix(c, sp, v)
  {
    hide Signed, Signed32, Wrap, Wrap32, Minus;
  }

  /**
    * For x, o and b, where the header does not allow it, the comma flag has no effect exactly on values of at most
    * three digits.
    */
  lemma CommaOfBitsIff(c: byte, given: Spec, word: u64)
    requires c == Ch('x') || c == Ch('o') || c == Ch('b')
    ensures IntegerLayout(c, given.(comma := true), word).Render() ==
            IntegerLayout(c, given.(comma := false), word).Render()
       <==> Printed(c, given, word) < Power(Radix(c), 3)
  {
    hide Layout.Render, IntegerLayout, Printed, NumeralChars, Power, Grouped, Solid;
    CommaParts(c, given, word);
    var k, l := IntegerLayout(c, given.(comma := true), word), IntegerLayout(c, given.(comma := false), word);
    var m := Printed(c, given, word);
    DigitsOnly(m, Radix(c));
    var ds := l.content;
    if m == 0 { PowerPositive(Radix(c), 3); }
    GroupedHasComma(ds);
    ShortGrouped(ds);
    CharacterInRender(k, COMMA);
    CharacterInRender(l, COMMA);
  }

  lemma ShortGrouped(ds: seq<byte>)
    ensures |ds| <= 3 ==> Grouped(ds) == ds
  {
  }

  /** %,lx of 0x1000 is 1,000. */
  lemma CommaInHex()
    ensures IntegerLayout(Ch('x'), PLAIN.(comma := true, long := true), 0x1000).Render() ==
            [0x31, COMMA, ZERO, ZERO, ZERO]
    ensures IntegerLayout(Ch('x'), PLAIN.(long := true), 0x1000).Render() == [0x31, ZERO, ZERO, ZERO]
  {
    hide NumeralChars, Grouped, Layout.Render, IntegerLayout;
    var given := PLAIN.(long := true);
    CommaParts(Ch('x'), given, 0x1000);
    HexFields();
    FourGrouped();
    UnpaddedRender(IntegerLayout(Ch('x'), given.(comma := true), 0x1000));
    UnpaddedRender(IntegerLayout(Ch('x'), given, 0x1000));
  }

  lemma HexFields()
    ensures var given := PLAIN.(long := true);
            var l := IntegerLayout(Ch('x'), given, 0x1000);
            && given.(comma := false) == given
            && l.content == [0x31, ZERO, ZERO, ZERO] && !l.pad && l.prefix == [] && l.precision == 1
  {
    hide NumeralChars;
    FourDigits();
  }

  lemma FourGrouped()
    ensures Grouped([0x31, ZERO, ZERO, ZERO]) == [0x31, COMMA, ZERO, ZERO, ZERO]
  {
    var ds := [0x31, ZERO, ZERO, ZERO];
    assert ds[..1] == [0x31] && ds[1..] == [ZERO, ZERO, ZERO];
  }

  lemma UnpaddedRender(l: Layout)
    requires !l.pad && l.prefix == [] && l.precision <= |l.content|
    ensures l.Render() == l.content
  {
    assert l.Inner() - l.Count() == 0;
    NothingFilled(l);
  }

  lemma NothingFilled(l: Layout)
    requires l.prefix == [] && l.Inner() == l.Count()
    ensures l.Filled() == []
  {
  }

  lemma FourDigits()
    ensures NumeralChars(0x1000, 16, UPPER) == [0x31, ZERO, ZERO, ZERO]
  {
    NoDigits(16);
    assert Digits(1, 16) == [1];
    assert Digits(0x10, 16) == [1, 0];
    assert Digits(0x100, 16) == [1, 0, 0];
    assert Digits(0x1000, 16) == [1, 0, 0, 0];
  }

  /**
    * For u, p and X the flag also resets precision and zeros. It has no effect exactly when the value is below 1000, no
    * zeros are shown without the flag (a single one where precision 0 leaves out the digit), and the padding is the
    * same.
    */
  lemma CommaOfDecimalsIff(c: byte, given: Spec, word: u64)
    requires c == Ch('u') || c == Ch('p') || c == Ch('X')
    ensures var k, l := IntegerLayout(c, given.(comma := true), word), IntegerLayout(c, given.(comma := false), word);
            var m, zeros := Printed(c, given, word), |ShownDigits(l)| - |l.content|;
            k.Render() == l.Render() <==>
            m < 1000 && zeros == (if m == 0 && given.precision == 0 then 1 else 0) && Padding(k) == Padding(l)
  {
    hide Layout.Render, IntegerLayout, Printed, NumeralChars, Power, Grouped, Padding, Solid, ShownDigits;
    CommaParts(c, given, word);
    var k, l := IntegerLayout(c, given.(comma := true), word), IntegerLayout(c, given.(comma := false), word);
    var m := Printed(c, given, word);
    var ds, z := NumeralChars(m, 10, UPPER), |ShownDigits(l)| - |l.content|;
    DigitsOnly(m, 10);
    ThousandIsPower();
    GroupedShows(k, ds);
    ZerosShow(l, ds);
    GroupedHasComma(ds);
    ShortGrouped(ds);
    SameRender(k, l);
    if m < 1000 {
      ZerosAndDigits(z, l.content, ds);
    } else {
      assert COMMA in ShownDigits(k) && COMMA !in ShownDigits(l);
    }
  }

  lemma ThousandIsPower()
    ensures Power(10, 3) == 1000
  {
  }

  /** With commas no zeros are shown. */
  lemma GroupedShows(k: Layout, ds: seq<byte>)
    requires k.content == Grouped(ds) && ds != [] && Solid(ds) && k.precision == 1 + |k.prefix|
    ensures ShownDigits(k) == Grouped(ds) != [] && Solid(Grouped(ds))
  {
    GroupedLength(ds);
    assert k.Inner() == k.Count();
    GroupedSolid(ds);
  }

  lemma {:induction false} GroupedSolid(ds: seq<byte>)
    requires Solid(ds)
    ensures Solid(Grouped(ds))
    decreases |ds|
  {
    if |ds| > 3 { GroupedSolid(ds[..|ds| - 3]); }
  }

  lemma ZerosShow(l: Layout, ds: seq<byte>)
    requires (l.content == ds || l.content == []) && Solid(ds) && COMMA !in ds
    ensures Solid(ShownDigits(l)) && COMMA !in ShownDigits(l) && |ShownDigits(l)| >= |l.content|
    ensures ShownDigits(l) == Fill(ZERO, |ShownDigits(l)| - |l.content|) + l.content
  {
  }

  lemma ZerosAndDigits(z: nat, cs: seq<byte>, ds: seq<byte>)
    requires cs == ds || (cs == [] && ds == [ZERO])
    ensures ds == Fill(ZERO, z) + cs <==> z == |ds| - |cs|
  {
    if z == |ds| - |cs| { assert Fill(ZERO, z) + cs == ds; }
    assert |Fill(ZERO, z) + cs| == z + |cs|;
  }

  /** Zeros are asked for up to the width. */
  predicate ZeroFills(c: byte, given: Spec) {
    Adjusted(c, given).zero && !given.left && given.pad && !given.point
  }

  /**
    * For widths and precisions below 2^31: the comma flag has no effect on u, p and X exactly when the value is below
    * 1000 and no more digits are asked for than the value has; 0 at precision 0 must be asked for as one zero.
    */
  lemma CommaOfDecimalsAsked(c: byte, given: Spec, word: u64)
    requires c == Ch('u') || c == Ch('p') || c == Ch('X')
    requires given.width < 0x8000_0000 && given.precision < 0x7fff_ffff
    ensures var k, l := IntegerLayout(c, given.(comma := true), word), IntegerLayout(c, given.(comma := false), word);
            var m, q := Printed(c, given, word), |l.prefix|;
            var n := |NumeralChars(m, 10, UPPER)|;
            k.Render() == l.Render() <==>
            m < 1000 && if m == 0 && given.precision == 0 then ZeroFills(c, given) && given.width == q + 1
            else if ZeroFills(c, given) then given.width <= q + n else given.precision <= n
  {
    hide Layout.Render, IntegerLayout, Printed, NumeralChars, Grouped, Padding, ShownDigits, Adjusted;
    var k, l := IntegerLayout(c, given.(comma := true), word), IntegerLayout(c, given.(comma := false), word);
    var m, ds := Printed(c, given, word), NumeralChars(Printed(c, given, word), 10, UPPER);
    CommaOfDecimalsIff(c, given, word);
    CommaParts(c, given, word);
    PlainPrecision(c, given, word);
    DigitsOnly(m, 10);
    if m < 1000 {
      ThousandIsPower();
      ShortGrouped(ds);
      ZerosShown(l);
      if |ShownDigits(l)| == |ds| { SamePadding(k, l); }
    }
  }

  lemma PlainPrecision(c: byte, given: Spec, word: u64)
    requires IsInteger(c) && given.precision < 0x7fff_ffff
    ensures var l := IntegerLayout(c, given.(comma := false), word);
            && l.precision == (if ZeroFills(c, given) then given.width else given.precision + |l.prefix|)
            && l.width == given.width && l.pad == given.pad
  {
    hide Argument, Magnitude, Minus, NumeralChars;
    var v := Argument(Adjusted(c, given), word);
    CommaAside(c, given, false, word, v);
    hide Adjusted, Prefix;
  }

  lemma ZerosShown(l: Layout)
    requires l.precision < 0x8000_0000 && l.Count() < 0x8000_0000
    ensures |ShownDigits(l)| == |l.content| + (l.Inner() - l.Count())
  {
    assert Signed32(Wrap32(l.Inner() - l.Count())) == l.Inner() - l.Count();
  }

  lemma SamePadding(k: Layout, l: Layout)
    requires k.width == l.width && k.pad == l.pad && k.Inner() == l.Inner()
    ensures Padding(k) == Padding(l)
  {
  }

  /** %,.3u of 7 and %,u of 1000 differ from %.3u and %u. */
  lemma CommaInUnsigned()
    ensures var given := PLAIN.(point := true, precision := 3);
            IntegerLayout(Ch('u'), given.(comma := true), 7).Render() != IntegerLayout(Ch('u'), given, 7).Render()
    ensures IntegerLayout(Ch('u'), PLAIN.(comma := true), 1000).Render() != IntegerLayout(Ch('u'), PLAIN, 1000).Render()
  {
    hide IntegerLayout, Layout.Render, NumeralChars;
    var given := PLAIN.(point := true, precision := 3);
    assert given.(comma := false) == given && PLAIN.(comma := false) == PLAIN;
    CommaOfDecimalsAsked(Ch('u'), given, 7);
    CommaOfDecimalsAsked(Ch('u'), PLAIN, 1000);
    SevenIsOneDigit();
  }

  lemma SevenIsOneDigit()
    ensures |NumeralChars(7, 10, UPPER)| == 1
  {
    OneDigit(7, 10);
  }

  /** printf("a") prints one character. */
  lemma OneCharacter(args: nat -> u64, strings: u64 -> CText)
    ensures var format: CString := [0x61, NUL];
            Fits(format, 0, 0, args) && Text(format, 0, 0, args, strings) == [0x61]
  {
    var format: CString := [0x61, NUL];
    PlainText(format, 0, 1, 0, args, strings);
    assert format[0..1] == [0x61];
  }
}

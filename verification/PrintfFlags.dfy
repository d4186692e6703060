/**
 The flags that libc/include/stdio.h calls invalid for a conversion and says are ignored: exactly when
 libc/stdio/printf.c ignores them.
 */
module PrintfFlags {
  import opened Common
  import opened Machine
  import opened Numerals
  import opened PrintfSpec
  import opened PrintfPromises
  import Strtoimax

  /** Width and precision that 32-bit sums and signs do not distort. */
  predicate Moderate(given: Spec) { given.width < 0x7fff_ff00 && given.precision < 0x7fff_ff00 }

  function Field(c: byte, given: Spec, word: u64): seq<byte> {
    IntegerLayout(c, given, word).Render()
  }

  lemma GroupedMembers(ds: seq<byte>, x: byte)
    requires x in Grouped(ds)
    ensures x in ds || x == COMMA
    decreases |ds|
  {
    if |ds| > 3 {
      var init, group := ds[..|ds| - 3], ds[|ds| - 3..];
      if x in Grouped(init) {
        GroupedMembers(init, x);
      } else if x in group {
        var j :| 0 <= j < |group| && group[j] == x;
        assert ds[|ds| - 3 + j] == x;
      }
    }
  }

  /** The content of an integer field is made of digits and commas. */
  lemma ContentCharacters(c: byte, given: Spec, word: u64)
    requires IsInteger(c)
    ensures var cs := IntegerLayout(c, given, word).content; PLUS !in cs && Solid(cs)
  {
    hide Magnitude, Argument, Minus, Prefix, Grouped, IntegerPrecision;
    var sp := Adjusted(c, given);
    var ds := IntegerDigits(c, sp, Argument(sp, word));
    DigitsRead(c, sp, Argument(sp, word));
    DigitCharacters(ds, Radix(c));
    forall x | x in Grouped(ds)
      ensures x in ds || x == COMMA
    {
      GroupedMembers(ds, x);
    }
    GroupedSolid(ds);
  }

  lemma DigitCharacters(ds: seq<byte>, b: nat)
    requires b <= 36 && forall i :: 0 <= i < |ds| ==> DigitOf(ds[i]) < b
    ensures PLUS !in ds && Solid(ds)
  {
  }

  // ---- the sign flag: valid for X, x and d ----

  /** The digits of a value, with commas when they are asked for. */
  function ContentOf(c: byte, comma: bool, precision: u32, m: u64): seq<byte> {
    var ds := if m == 0 && precision == 0 && !(comma && Radix(c) == 10) then [] else NumeralChars(m, Radix(c), UPPER);
    if comma then Grouped(ds) else ds
  }

  /** A field from its flags, its sign and its printed bits. */
  lemma LayoutFields(c: byte, given: Spec, word: u64)
    ensures var sp := Adjusted(c, given);
            var prefix := Prefix(c, sp, Argument(sp, word));
            IntegerLayout(c, given, word) ==
            Layout(sp.width, sp.pad, sp.left, IntegerPrecision(c, sp, |prefix|), prefix, true,
                   ContentOf(c, sp.comma, sp.precision, Printed(c, given, word)))
  {
    hide Adjusted, Argument, Magnitude, Minus, Prefix, NumeralChars, Grouped, IntegerPrecision;
  }

  /** Argument and printed bits depend on the flag l only. */
  lemma ValueOfLong(c: byte, sp: Spec, tp: Spec, word: u64, v: i64)
    requires sp.long == tp.long
    ensures Argument(sp, word) == Argument(tp, word) && Magnitude(c, sp, v) == Magnitude(c, tp, v)
  {
    hide Signed, Signed32, Wrap, Wrap32, Minus;
  }

  lemma PrefixCases(c: byte, sp: Spec, v: i64)
    ensures Minus(c, v) ==> Prefix(c, sp, v) == [MINUS]
    ensures !Minus(c, v) && sp.sign ==> Prefix(c, sp, v) == [PLUS]
    ensures !Minus(c, v) && !sp.sign ==> Prefix(c, sp, v) == if sp.blank then [SPACE] else []
  {
    hide Minus;
  }

  /** What the sign flag does to a field: only its prefix changes. */
  lemma SignParts(c: byte, given: Spec, word: u64)
    requires IsInteger(c)
    ensures var k := IntegerLayout(c, given.(sign := true), word);
            var l := IntegerLayout(c, given.(sign := false), word);
            var minus := Minus(c, Argument(Adjusted(c, given), word));
            && k.zeros && l.zeros && (minus || c == Ch('u') || c == Ch('p') ==> k == l)
            && (!minus && c != Ch('u') && c != Ch('p') ==> k.prefix == [PLUS] && PLUS !in l.prefix)
  {
    hide Adjusted, Argument, Magnitude, Minus, Prefix, IntegerLayout, ContentOf, IntegerPrecision, IsInteger;
    var g, h := given.(sign := true), given.(sign := false);
    var v := Argument(Adjusted(c, given), word);
    SignAside(c, given, true);
    SignAside(c, given, false);
    var sp, tp := Adjusted(c, g), Adjusted(c, h);
    ValueOfLong(c, Adjusted(c, given), sp, word, v);
    ValueOfLong(c, Adjusted(c, given), tp, word, v);
    LayoutFields(c, g, word);
    LayoutFields(c, h, word);
    PrefixCases(c, sp, v);
    PrefixCases(c, tp, v);
    PrecisionAside(c, tp, sp);
  }

  lemma SignAside(c: byte, given: Spec, sign: bool)
    ensures var sp, tp := Adjusted(c, given), Adjusted(c, given.(sign := sign));
            tp == sp.(sign := sign && c != Ch('u') && c != Ch('p'))
  {
    hide Adjusted;
    AdjustedFields(c, given);
    AdjustedFields(c, given.(sign := sign));
  }

  /** The precision does not depend on sign and blank. */
  lemma PrecisionAside(c: byte, sp: Spec, tp: Spec)
    requires tp == sp.(sign := tp.sign, blank := tp.blank)
    ensures forall n: nat :: IntegerPrecision(c, tp, n) == IntegerPrecision(c, sp, n)
  {
    hide Wrap32;
  }

  /** + is not valid for o, b, i, u and p. It is ignored on u and p, and on negative %i. */
  lemma SignIgnoredIff(c: byte, given: Spec, word: u64)
    requires c == Ch('o') || c == Ch('b') || c == Ch('i') || c == Ch('u') || c == Ch('p')
    ensures Field(c, given.(sign := true), word) == Field(c, given.(sign := false), word) <==>
            c == Ch('u') || c == Ch('p') || (c == Ch('i') && Argument(given, word) < 0)
  {
    hide IntegerLayout, Layout.Render, Argument;
    var k, l := IntegerLayout(c, given.(sign := true), word), IntegerLayout(c, given.(sign := false), word);
    SignParts(c, given, word);
    ContentCharacters(c, given.(sign := false), word);
    CharacterInRender(k, PLUS);
    CharacterInRender(l, PLUS);
  }

  // ---- the flag l: valid for X, x and d ----

  lemma SameValueSameField(c: byte, given: Spec, word: u64)
    requires IsInteger(c) && c != Ch('p')
    requires var k, l := given.(long := true), given.(long := false);
             && Printed(c, k, word) == Printed(c, l, word)
             && Minus(c, Argument(Adjusted(c, k), word)) == Minus(c, Argument(Adjusted(c, l), word))
    ensures IntegerLayout(c, given.(long := true), word) == IntegerLayout(c, given.(long := false), word)
  {
    hide Adjusted, Argument, Printed, Minus, IntegerLayout, ContentOf, IsInteger, IntegerPrecision, Prefix;
    var k, l := given.(long := true), given.(long := false);
    LongAside(c, given);
    PrefixOfLong(c, Adjusted(c, k), Adjusted(c, l), Argument(Adjusted(c, k), word), Argument(Adjusted(c, l), word));
    LayoutFields(c, k, word);
    LayoutFields(c, l, word);
  }

  lemma LongAside(c: byte, given: Spec)
    requires c != Ch('p')
    ensures var sp, tp := Adjusted(c, given.(long := true)), Adjusted(c, given.(long := false));
            sp.long && !tp.long && sp == tp.(long := true)
  {
    hide Adjusted;
    AdjustedFields(c, given.(long := true));
    AdjustedFields(c, given.(long := false));
  }

  /** Prefix and precision do not depend on l. */
  lemma PrefixOfLong(c: byte, sp: Spec, tp: Spec, v: i64, w: i64)
    requires sp == tp.(long := sp.long) && Minus(c, v) == Minus(c, w)
    ensures Prefix(c, sp, v) == Prefix(c, tp, w)
    ensures forall n: nat :: IntegerPrecision(c, sp, n) == IntegerPrecision(c, tp, n)
  {
    hide Minus, Wrap32;
  }

  /** An int holds the argument, as far as the conversion shows it. */
  predicate FitsInt(c: byte, word: u64) {
    if c == Ch('u') then word < TWO_32 else word < 0x8000_0000 || word >= TWO_64 - 0x8000_0000
  }

  lemma SignExtends(word: u64)
    ensures var low := Signed32(Wrap32(word));
            && (Signed(word) == low <==> word < 0x8000_0000 || word >= TWO_64 - 0x8000_0000)
            && (Wrap32(word) == word <==> word < TWO_32) && Wrap32(low) == Wrap32(word)
            && -0x8000_0000 <= low < 0x8000_0000
            && Wrap(Signed(word)) == word
  {
  }

  lemma WrapsApart(v: i64, w: i64)
    ensures Wrap(v) == Wrap(w) <==> v == w
  {
    hide Wrap, Signed;
    SignedWrap(v);
    SignedWrap(w);
  }

  /** What a conversion shows of a word, without l and with it. */
  function ShownAs(c: byte, long: bool, word: u64): int {
    var v: i64 := if long then Signed(word) else Signed32(Wrap32(word));
    if c == Ch('i') then v else if c == Ch('u') then (if long then word else Wrap32(word)) else Wrap(v)
  }

  lemma ShownOf(c: byte, sp: Spec, word: u64)
    requires c == Ch('u') || c == Ch('o') || c == Ch('b') || c == Ch('i')
    ensures var v, n := Argument(sp, word), ShownAs(c, sp.long, word);
            && (Minus(c, v) <==> n < 0) && Magnitude(c, sp, v) == (if n < 0 then 0 - n else n) && (n < 0 ==> n == v)
  {
    hide Wrap, Wrap32, Signed, Signed32;
    SignExtends(word);
    var v := Argument(sp, word);
    if v >= 0 { WrapWithin(v); }
  }

  lemma LongKept(c: byte, given: Spec)
    requires c != Ch('p')
    ensures Adjusted(c, given).long == given.long
  {
  }

  lemma ShownIs(c: byte, given: Spec, word: u64)
    requires c == Ch('u') || c == Ch('o') || c == Ch('b') || c == Ch('i')
    ensures var n := ShownAs(c, given.long, word);
            && Shown(c, given, word) == n && Printed(c, given, word) == (if n < 0 then 0 - n else n)
            && (Minus(c, Argument(Adjusted(c, given), word)) <==> n < 0)
  {
    hide Adjusted, Argument, Magnitude, Minus, ShownAs;
    LongKept(c, given);
    ShownOf(c, Adjusted(c, given), word);
  }

  lemma ShownAsIff(c: byte, word: u64)
    requires c == Ch('u') || c == Ch('o') || c == Ch('b') || c == Ch('i')
    ensures ShownAs(c, true, word) == ShownAs(c, false, word) <==> FitsInt(c, word)
  {
    hide Wrap, Wrap32, Signed, Signed32;
    SignExtends(word);
    WrapsApart(Signed(word), Signed32(Wrap32(word)));
  }

  /** The values of the field with l and of the field without it are the same exactly when an int holds the argument. */
  lemma LongValues(c: byte, given: Spec, word: u64)
    requires c == Ch('u') || c == Ch('o') || c == Ch('b') || c == Ch('i')
    ensures var k, l := given.(long := true), given.(long := false);
            && (Shown(c, k, word) == Shown(c, l, word) <==> FitsInt(c, word))
            && (FitsInt(c, word) ==>
                  && Printed(c, k, word) == Printed(c, l, word)
                  && Minus(c, Argument(Adjusted(c, k), word)) == Minus(c, Argument(Adjusted(c, l), word)))
  {
    hide Adjusted, Argument, Minus, Shown, Printed, ShownAs, FitsInt;
    ShownIs(c, given.(long := true), word);
    ShownIs(c, given.(long := false), word);
    ShownAsIff(c, word);
  }

  /** The number in a field, without its commas. */
  function ReadBack(c: byte, text: seq<byte>): int {
    Strtoimax.Exact(Line(WithoutCommas(text)), Radix(c))
  }

  lemma ReadBackIs(c: byte, given: Spec, word: u64)
    requires IsInteger(c)
    ensures ReadBack(c, Field(c, given, word)) == Shown(c, given, word)
  {
    hide IntegerLayout, Layout.Render, Shown, WithoutCommas, Strtoimax.Exact;
    StrippedReadBack(c, given, word);
  }

  /** l is not valid for u, o, b, i and p. It is ignored on p, and on arguments that an int holds. */
  lemma LongIgnoredIff(c: byte, given: Spec, word: u64)
    requires c == Ch('u') || c == Ch('o') || c == Ch('b') || c == Ch('i') || c == Ch('p')
    ensures Field(c, given.(long := true), word) == Field(c, given.(long := false), word) <==>
            c == Ch('p') || FitsInt(c, word)
  {
    hide Field, ReadBack, Shown, Printed, Argument, Minus, Adjusted, FitsInt;
    if c == Ch('p') {
      PointerIsLong(given, word);
      EqualLayouts(c, given.(long := true), given.(long := false), word);
    } else {
      LongValues(c, given, word);
      if FitsInt(c, word) {
        SameValueSameField(c, given, word);
        EqualLayouts(c, given.(long := true), given.(long := false), word);
      }
      ReadBackIs(c, given.(long := true), word);
      ReadBackIs(c, given.(long := false), word);
    }
  }

  lemma EqualLayouts(c: byte, given: Spec, other: Spec, word: u64)
    ensures IntegerLayout(c, given, word) == IntegerLayout(c, other, word) ==>
              Field(c, given, word) == Field(c, other, word)
  {
    hide IntegerLayout, Layout.Render;
  }

  lemma PointerIsLong(given: Spec, word: u64)
    ensures IntegerLayout(Ch('p'), given.(long := true), word) == IntegerLayout(Ch('p'), given.(long := false), word)
  {
    hide Magnitude, NumeralChars, Grouped, Argument;
    AdjustedFields(Ch('p'), given.(long := true));
    AdjustedFields(Ch('p'), given.(long := false));
  }

  // ---- the flags space and 0: valid for X, x and d, space also for i ----

  /** The width is taken as the precision. */
  predicate WidthFills(c: byte, sp: Spec) {
    sp.zero && !(sp.comma && Radix(c) == 10) && !sp.left && sp.pad && !sp.point
  }

  lemma ContentShort(c: byte, given: Spec, word: u64)
    ensures |IntegerLayout(c, given, word).content| < 0x80
  {
    hide Adjusted, Argument, Magnitude, Minus, Prefix, NumeralChars, Grouped, IntegerPrecision, IntegerLayout;
    LayoutFields(c, given, word);
    var m := Printed(c, given, word);
    NumeralLength(m, Radix(c));
    GroupedLength(NumeralChars(m, Radix(c), UPPER));
    GroupedLength([]);
  }

  lemma PaddingIs(l: Layout)
    requires l.width < 0x8000_0000 && l.Inner() < 0x8000_0000
    ensures Padding(l) == if l.pad && l.width > l.Inner() then l.width - l.Inner() else 0
  {
    assert Signed32(Wrap32(l.width - l.Inner())) == l.width - l.Inner();
  }

  /** A space in front of the digits is seen unless it takes the place of one of the padding. */
  lemma BlankSeen(k: Layout, l: Layout, fills: bool)
    requires l.zeros && l.prefix == [] && k == l.(prefix := [SPACE], precision := k.precision)
    requires l.precision < 0x7fff_ff00 && l.width < 0x7fff_ff00 && |l.content| < 0x80 && Solid(l.content)
    requires if fills then l.pad && !l.left && l.precision == l.width == k.precision else k.precision == l.precision + 1
    ensures k.Render() == l.Render() <==> !fills && l.pad && l.width > l.Inner() && (!l.left || ShownDigits(l) == [])
  {
    hide Layout.Render, ShownDigits, Padding, Solid;
    RenderBetween(k);
    RenderBetween(l);
    ZerosShown(k);
    ZerosShown(l);
    PaddingIs(k);
    PaddingIs(l);
    DigitsSolid(k);
    DigitsSolid(l);
    if fills {
      SpaceInFront(0, ShownDigits(k), 0, ShownDigits(l));
    } else {
      SameInnerDigits(k, l);
      if l.left {
        SpaceBehind(Padding(k), ShownDigits(l), Padding(l));
      } else {
        SpaceInFront(Padding(k), ShownDigits(l), Padding(l), ShownDigits(l));
      }
    }
  }

  lemma SameInnerDigits(k: Layout, l: Layout)
    requires k.content == l.content && k.Inner() - k.Count() == l.Inner() - l.Count()
    ensures ShownDigits(k) == ShownDigits(l)
  {
  }

  lemma DigitsSolid(l: Layout)
    requires Solid(l.content)
    ensures Solid(ShownDigits(l))
  {
  }

  /** A further space in front is one of the leading spaces. */
  lemma SpaceInFront(a: nat, ds: seq<byte>, b: nat, es: seq<byte>)
    requires Solid(ds) && Solid(es)
    ensures Between(a, [SPACE], ds, 0) == Between(b, [], es, 0) <==> a + 1 == b && ds == es
  {
    hide Solid;
    LeadingOf(a, [SPACE], ds);
    LeadingOf(b, [], es);
    var s, t := Between(a, [SPACE], ds, 0), Between(b, [], es, 0);
    assert s[a + 1..] == ds && t[b..] == es;
    if a + 1 == b { assert Fill(SPACE, a) + [SPACE] == Fill(SPACE, b); }
  }

  /** In front of digits that stand on the left, it is not there without the flag. */
  lemma SpaceBehind(a: nat, ds: seq<byte>, b: nat)
    requires Solid(ds)
    ensures Between(0, [SPACE], ds, a) == Between(0, [], ds, b) <==> ds == [] && a + 1 == b
  {
    var s, t := Between(0, [SPACE], ds, a), Between(0, [], ds, b);
    assert |s| == 1 + |ds| + a && |t| == |ds| + b && s[0] == SPACE;
    if ds == [] {
      if a + 1 == b { assert s == Fill(SPACE, b) && t == Fill(SPACE, b); }
    } else {
      assert t[0] == ds[0];
    }
  }

  /** The field with the flag space and the one without it, where no sign takes its place. */
  lemma BlankParts(c: byte, given: Spec, word: u64)
    requires (c == Ch('u') || c == Ch('o') || c == Ch('b')) && Moderate(given) && (c == Ch('u') || !given.sign)
    ensures var k, l := IntegerLayout(c, given.(blank := true), word), IntegerLayout(c, given.(blank := false), word);
            var fills := WidthFills(c, given);
            && l.zeros && l.prefix == [] && k == l.(prefix := [SPACE], precision := k.precision)
            && l.precision < 0x7fff_ff00 && l.width == given.width && l.pad == given.pad && l.left == given.left
            && (if fills then l.precision == l.width == k.precision else k.precision == l.precision + 1)
  {
    hide Adjusted, Argument, Magnitude, Minus, Prefix, IntegerLayout, ContentOf, WidthFills;
    var g, h := given.(blank := true), given.(blank := false);
    BlankAside(c, given);
    NeverMinus(c);
    var sp, tp := Adjusted(c, g), Adjusted(c, h);
    var v := Argument(sp, word);
    ValueOfLong(c, sp, tp, word, v);
    LayoutFields(c, g, word);
    LayoutFields(c, h, word);
    PrefixCases(c, sp, v);
    PrefixCases(c, tp, v);
    PrecisionAside(c, tp, sp);
    PrecisionIs(c, tp, 0);
    PrecisionIs(c, tp, 1);
  }

  lemma NeverMinus(c: byte)
    requires c == Ch('u') || c == Ch('o') || c == Ch('b')
    ensures forall v: i64 :: !Minus(c, v)
  {
  }

  lemma PrecisionIs(c: byte, sp: Spec, n: nat)
    requires sp.precision < 0x7fff_ff00 && n <= 1
    ensures IntegerPrecision(c, sp, n) ==
            if WidthFills(c, sp) then sp.width else (if sp.comma && Radix(c) == 10 then 1 else sp.precision) + n
  {
  }

  lemma BlankAside(c: byte, given: Spec)
    requires c == Ch('u') || c == Ch('o') || c == Ch('b')
    ensures var sp, tp := Adjusted(c, given.(blank := true)), Adjusted(c, given.(blank := false));
            && sp.blank && !tp.blank && sp == tp.(blank := true) && sp.sign == (given.sign && c != Ch('u'))
            && tp.width == given.width && tp.precision == given.precision
            && tp.pad == given.pad && tp.left == given.left
            && WidthFills(c, tp) == WidthFills(c, given)
  {
    hide Adjusted;
    AdjustedFields(c, given.(blank := true));
    AdjustedFields(c, given.(blank := false));
  }

  /**
   The space is not valid for u, o, b and p. It is ignored on p, where + wins over it, and where it takes the place of a
   padding space in front.
   */
  lemma BlankIgnoredIff(c: byte, given: Spec, word: u64)
    requires c == Ch('u') || c == Ch('o') || c == Ch('b') || c == Ch('p')
    requires Moderate(given)
    ensures var l := IntegerLayout(c, given.(blank := false), word);
            Field(c, given.(blank := true), word) == Field(c, given.(blank := false), word) <==>
            || c == Ch('p') || (c != Ch('u') && given.sign)
            || (given.pad && !WidthFills(c, given) && given.width > l.Inner() && (!given.left || ShownDigits(l) == []))
  {
    hide IntegerLayout, Layout.Render, ShownDigits, WidthFills, Solid, Moderate;
    var k, l := IntegerLayout(c, given.(blank := true), word), IntegerLayout(c, given.(blank := false), word);
    if c == Ch('p') || (c != Ch('u') && given.sign) {
      BlankNotSeen(c, given, word);
    } else {
      BlankParts(c, given, word);
      ContentShort(c, given.(blank := false), word);
      ContentCharacters(c, given.(blank := false), word);
      ModerateIs(given);
      WidthFillsPads(c, given);
      BlankSeen(k, l, WidthFills(c, given));
    }
  }

  lemma ModerateIs(given: Spec)
    requires Moderate(given)
    ensures given.width < 0x7fff_ff00 && given.precision < 0x7fff_ff00
  {
  }

  lemma WidthFillsPads(c: byte, given: Spec)
    ensures WidthFills(c, given) ==> given.pad && !given.left
  {
  }

  lemma BlankNotSeen(c: byte, given: Spec, word: u64)
    requires c == Ch('p') || ((c == Ch('o') || c == Ch('b')) && given.sign)
    ensures IntegerLayout(c, given.(blank := true), word) == IntegerLayout(c, given.(blank := false), word)
  {
    hide Adjusted, Argument, Magnitude, Minus, Prefix, IntegerLayout, ContentOf, IntegerPrecision;
    var g, h := given.(blank := true), given.(blank := false);
    AdjustedFields(c, g);
    AdjustedFields(c, h);
    var sp, tp := Adjusted(c, g), Adjusted(c, h);
    var v := Argument(sp, word);
    ValueOfLong(c, sp, tp, word, v);
    LayoutFields(c, g, word);
    LayoutFields(c, h, word);
    PrefixCases(c, sp, v);
    PrefixCases(c, tp, v);
    PrecisionAside(c, tp, sp);
  }

  /** Fields that differ in their precision are equal exactly when what the precision makes of them is as long. */
  lemma PrecisionSeen(k: Layout, l: Layout)
    requires l.zeros && k == l.(precision := k.precision) && |l.prefix| <= 1 && Solid(l.content) && |l.content| < 0x80
    requires l.precision < 0x8000_0000 && k.precision < 0x8000_0000
    ensures k.Render() == l.Render() <==> k.Inner() == l.Inner()
  {
    hide Layout.Render, ShownDigits, Padding, Solid;
    ZerosShown(k);
    ZerosShown(l);
    DigitsSolid(k);
    DigitsSolid(l);
    if k.Inner() == l.Inner() {
      SameInnerRender(k, l);
    } else if ShownDigits(k) != [] {
      SameRender(k, l);
    } else {
      SameRender(l, k);
    }
  }

  lemma SameInnerRender(k: Layout, l: Layout)
    requires k == l.(precision := k.precision) && k.Inner() == l.Inner()
    ensures k.Render() == l.Render()
  {
    assert k.Blanks() == l.Blanks() && k.Filled() == l.Filled();
  }

  /** The field with the flag 0 and the one without it. */
  lemma ZeroParts(c: byte, given: Spec, word: u64)
    requires IsInteger(c) && c != Ch('p') && c != Ch('X') && Moderate(given)
    ensures var k, l := IntegerLayout(c, given.(zero := true), word), IntegerLayout(c, given.(zero := false), word);
            && l.zeros && |l.prefix| <= 1 && k == l.(precision := k.precision)
            && l.precision < 0x8000_0000 && k.precision < 0x8000_0000
            && k.precision == if WidthFills(c, given.(zero := true)) then given.width else l.precision
  {
    hide Adjusted, Argument, Magnitude, Minus, Prefix, IntegerLayout, ContentOf, IntegerPrecision,
      WidthFills, IsInteger;
    var g, h := given.(zero := true), given.(zero := false);
    ZeroAside(c, given);
    var sp, tp := Adjusted(c, g), Adjusted(c, h);
    var v := Argument(sp, word);
    ValueOfLong(c, sp, tp, word, v);
    LayoutFields(c, g, word);
    LayoutFields(c, h, word);
    PrefixSame(c, sp, tp, v);
    PrecisionIs(c, sp, |Prefix(c, sp, v)|);
    PrecisionIs(c, tp, |Prefix(c, sp, v)|);
  }

  lemma PrefixSame(c: byte, sp: Spec, tp: Spec, v: i64)
    requires sp.sign == tp.sign && sp.blank == tp.blank
    ensures Prefix(c, sp, v) == Prefix(c, tp, v) && |Prefix(c, sp, v)| <= 1
  {
    hide Minus;
  }

  lemma ZeroAside(c: byte, given: Spec)
    requires c != Ch('p') && c != Ch('X')
    ensures var sp, tp := Adjusted(c, given.(zero := true)), Adjusted(c, given.(zero := false));
            && sp == tp.(zero := true) && sp.width == given.width && sp.precision == given.precision
            && !WidthFills(c, tp) && WidthFills(c, sp) == WidthFills(c, given.(zero := true))
  {
    hide Adjusted;
    AdjustedFields(c, given.(zero := true));
    AdjustedFields(c, given.(zero := false));
  }

  /**
   0 is not valid for u, i, o, b and p. It is ignored on p, where it has no width to fill, and where the width is no
   larger than what is shown without it (and, when it takes over from a precision, no smaller).
   */
  lemma ZeroIgnoredIff(c: byte, given: Spec, word: u64)
    requires c == Ch('u') || c == Ch('i') || c == Ch('o') || c == Ch('b') || c == Ch('p')
    requires Moderate(given)
    ensures var l := IntegerLayout(c, given.(zero := false), word);
            Field(c, given.(zero := true), word) == Field(c, given.(zero := false), word) <==>
            || c == Ch('p') || !WidthFills(c, given.(zero := true))
            || (if given.width < l.Count() then l.Count() else given.width) == l.Inner()
  {
    hide IntegerLayout, Layout.Render, WidthFills, Solid, Moderate;
    var k, l := IntegerLayout(c, given.(zero := true), word), IntegerLayout(c, given.(zero := false), word);
    if c == Ch('p') {
      PointerHasNoZeros(given, word);
    } else {
      ZeroParts(c, given, word);
      ContentShort(c, given.(zero := false), word);
      ContentCharacters(c, given.(zero := false), word);
      PrecisionSeen(k, l);
    }
  }

  lemma PointerHasNoZeros(given: Spec, word: u64)
    ensures IntegerLayout(Ch('p'), given.(zero := true), word) == IntegerLayout(Ch('p'), given.(zero := false), word)
  {
    hide Adjusted, Argument, Magnitude, Minus, Prefix, IntegerLayout, ContentOf, IntegerPrecision;
    AdjustedFields(Ch('p'), given.(zero := true));
    AdjustedFields(Ch('p'), given.(zero := false));
    LayoutFields(Ch('p'), given.(zero := true), word);
    LayoutFields(Ch('p'), given.(zero := false), word);
  }

  // ---- fields on which the flags are not ignored ----

  /** %+o of 0, % u of 0, %02i of 0 and %lu of 2^32 differ from the fields without the flag. */
  lemma FlagsHeeded()
    ensures Field(Ch('o'), PLAIN.(sign := true), 0) != Field(Ch('o'), PLAIN, 0)
    ensures Field(Ch('u'), PLAIN.(blank := true), 0) != Field(Ch('u'), PLAIN, 0)
    ensures var two := PLAIN.(pad := true, width := 2);
            Field(Ch('i'), two.(zero := true), 0) != Field(Ch('i'), two, 0)
    ensures Field(Ch('u'), PLAIN.(long := true), TWO_32) != Field(Ch('u'), PLAIN, TWO_32)
  {
    hide Field, IntegerLayout;
    var two := PLAIN.(pad := true, width := 2);
    assert PLAIN.(sign := false) == PLAIN && PLAIN.(blank := false) == PLAIN && PLAIN.(long := false) == PLAIN;
    assert two.(zero := false) == two;
    SignIgnoredIff(Ch('o'), PLAIN, 0);
    BlankIgnoredIff(Ch('u'), PLAIN, 0);
    ZeroIgnoredIff(Ch('i'), two, 0);
    PlainZero(two);
    LongIgnoredIff(Ch('u'), PLAIN, TWO_32);
  }

  lemma PlainZero(two: Spec)
    requires two == PLAIN.(pad := true, width := 2)
    ensures IntegerLayout(Ch('i'), two, 0).Count() == 1 == IntegerLayout(Ch('i'), two, 0).Inner()
  {
    hide NumeralChars;
    DigitsOnly(0, 10);
  }
}

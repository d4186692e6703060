/**
  * libc/stdio/printf.c: the text of a format, described by what is printed for each conversion and with the character
  * codes written out, and that this is the text of PrintfSpec.
  */
module PrintfTexts {
  import opened Common
  import opened Machine
  import opened Numerals
  import opened PrintfSpec
  import Strtoimax

  // ---- what a conversion prints ----

  const INTEGERS: set<byte> := {Ch('p'), Ch('X'), Ch('x'), Ch('o'), Ch('b'), Ch('u'), Ch('d'), Ch('i')}

  /** Numbers from here on turn negative in differences of 32 bits. */
  predicate Moderate(sp: Spec) { sp.width < 0x8000_0000 && sp.precision < 0x7fff_ffff }

  /** Spaces on the right of a left-justified field, and otherwise on its left, up to the width. */
  function Padded(sp: Spec, body: seq<byte>): seq<byte> {
    var blanks := Fill(0x20, if sp.pad then sp.width - |body| else 0);
    if sp.left then body + blanks else blanks + body
  }

  /** A string: at most `precision` characters of it, and as many spaces in front as it has fewer. */
  function StringText(sp: Spec, t: seq<byte>): seq<byte> {
    Padded(sp, if !sp.point then t
           else if sp.precision <= |t| then t[..sp.precision]
           else Fill(0x20, sp.precision - |t|) + t)
  }

  /** A character: the code 0 is a space, which precision 0 leaves out as it does any other character. */
  function CharacterText(sp: Spec, c: byte): seq<byte> {
    var shown := if c == 0 || (sp.point && sp.precision == 0) then [] else [c];
    Padded(sp, Fill(0x20, sp.precision - |shown|) + shown)
  }

  /** The signed value of an argument of 64 or 32 bits. */
  function SignedBits(long: bool, word: u64): int {
    if long then (if word < 0x8000_0000_0000_0000 then word else word - 0x1_0000_0000_0000_0000)
    else
      var low := word % 0x1_0000_0000;
      if low < 0x8000_0000 then low else low - 0x1_0000_0000
  }

  /** x is hexadecimal, o octal, b binary, and anything else decimal. */
  function BaseOf(c: byte): (b: nat)
    ensures 2 <= b <= 16
  {
    if c == Ch('x') then 16 else if c == Ch('o') then 8 else if c == Ch('b') then 2 else 10
  }

  /** A minus for negative d, i, p and X, and otherwise what the flags ask for; p has no flags, and u no plus. */
  function SignText(c: byte, sp: Spec, negative: bool): seq<byte> {
    if negative && c in {Ch('d'), Ch('i'), Ch('p'), Ch('X')} then [0x2d]
    else if sp.sign && c != Ch('p') && c != Ch('u') then [0x2b]
    else if sp.blank && c != Ch('p') then [0x20]
    else []
  }

  /** The number printed: the magnitude behind a minus, 32 bits for x and u of an int, and otherwise 64 bits. */
  function NumberText(c: byte, long: bool, v: int): int {
    if v >= 0 then v
    else if c in {Ch('d'), Ch('i'), Ch('p'), Ch('X')} then 0 - v
    else if c in {Ch('x'), Ch('u')} && !long then v + 0x1_0000_0000
    else v + 0x1_0000_0000_0000_0000
  }

  /** Digits, with commas if asked for; none for 0 with precision 0. Commas give decimals the precision 1. */
  function DigitsText(c: byte, sp: Spec, m: nat): seq<byte> {
    var digits := if m == 0 && sp.precision == 0 && !(sp.comma && BaseOf(c) == 10) then []
                  else NumeralChars(m, BaseOf(c), UPPER);
    if sp.comma then Grouped(digits) else digits
  }

  /**
    * Zeros fill the width: with the flag 0, and for X, but not with a precision, in a left-justified field, or in
    * decimals with commas.
    */
  predicate FillsWidth(c: byte, sp: Spec) {
    ((sp.zero && c != Ch('p')) || c == Ch('X')) && !(sp.comma && BaseOf(c) == 10) && !sp.left && sp.pad && !sp.point
  }

  /** The zeros between sign and digits: up to the width with the flag 0, and otherwise up to the precision. */
  function ZeroCount(c: byte, sp: Spec, sign: nat, digits: nat): int {
    if FillsWidth(c, sp) then sp.width - sign - digits
    else (if sp.comma && BaseOf(c) == 10 then 1 else sp.precision) - digits
  }

  function IntegerText(c: byte, sp: Spec, word: u64): seq<byte> {
    var long := sp.long || c == Ch('p');
    var v := SignedBits(long, word);
    var sign := SignText(c, sp, v < 0);
    var digits := DigitsText(c, sp, NumberText(c, long, v));
    Padded(sp, sign + Fill(0x30, ZeroCount(c, sp, |sign|, |digits|)) + digits)
  }

  /** The codes of a text. */
  function Codes(s: string): (t: seq<byte>)
    requires forall i :: 0 <= i < |s| ==> s[i] as int < 128
  {
    seq<byte>(|s|, i requires 0 <= i < |s| => s[i] as int)
  }

  /** What a conversion of type c prints for its argument; a type that is not known prints itself, and so does %. */
  function FieldText(c: byte, sp: Spec, word: u64, strings: u64 -> CText): seq<byte> {
    if c in INTEGERS then IntegerText(c, sp, word)
    else if c == Ch('s') || c == Ch('S')
    then StringText(sp, if word == 0 then Codes("<null string>") else strings(word))
    else CharacterText(sp, if c == Ch('c') then word % 256 else c)
  }

  // ---- it is what the layouts give ----

  lemma Small(x: int)
    requires -0x8000_0000 <= x < 0x8000_0000
    ensures Signed32(Wrap32(x)) == x
  {
  }

  lemma NoFill(c: byte, n: int)
    ensures n <= 0 ==> Fill(c, n) == []
  {
  }

  lemma FilledLength(l: Layout)
    requires l.precision < 0x8000_0000 && l.Count() < 0x8000_0000
    ensures |l.Filled() + l.content| == l.Inner()
  {
    Small(l.Inner() - l.Count());
  }

  lemma Joins(f: seq<byte>, c: seq<byte>, b: seq<byte>)
    ensures [] + f + c + [] == f + c && [] + f + c + b == f + c + b && b + f + c + [] == b + (f + c)
  {
  }

  lemma RenderParts(l: Layout)
    ensures var body := l.Filled() + l.content;
            l.Render() == if !l.pad then body else if l.left then body + l.Blanks() else l.Blanks() + body
  {
    hide Layout.Filled, Layout.Blanks, Fill;
    Joins(l.Filled(), l.content, l.Blanks());
  }

  lemma PaddedParts(sp: Spec, body: seq<byte>)
    ensures var blanks := Fill(SPACE, sp.width - |body|);
            Padded(sp, body) == if !sp.pad then body else if sp.left then body + blanks else blanks + body
  {
  }

  /** A field is its inside, padded. */
  lemma RenderPadded(l: Layout, sp: Spec)
    requires l.width == sp.width < 0x8000_0000 && l.pad == sp.pad && l.left == sp.left
    requires l.precision < 0x8000_0000 && l.Count() < 0x8000_0000
    ensures l.Render() == Padded(sp, l.Filled() + l.content)
  {
    hide Fill, Padded, Layout.Render, Layout.Filled, Signed32, Wrap32;
    FilledLength(l);
    Small(l.width - l.Inner());
    RenderParts(l);
    PaddedParts(sp, l.Filled() + l.content);
  }

  lemma StringField(sp: Spec, t: CText)
    requires Moderate(sp)
    ensures var l := Layout(sp.width, sp.pad, sp.left, if sp.point then sp.precision else 0, [], false, Cut(sp, t));
            l.Render() == StringText(sp, t)
  {
    hide Fill, Padded, Layout.Render;
    var l := Layout(sp.width, sp.pad, sp.left, if sp.point then sp.precision else 0, [], false, Cut(sp, t));
    RenderPadded(l, sp);
    FilledWithSpaces(l);
    var n := l.Inner() - l.Count();
    NoFill(SPACE, n);
    assert n == if sp.point && sp.precision > |t| then sp.precision - |t| else 0;
    assert t[..|t|] == t;
    assert [] + l.content == l.content;
  }

  lemma FilledWithSpaces(l: Layout)
    requires l.precision < 0x8000_0000 && l.Count() < 0x8000_0000 && !l.zeros && l.prefix == []
    ensures l.Filled() == Fill(SPACE, l.Inner() - l.Count())
  {
    Small(l.Inner() - l.Count());
  }

  lemma CharacterField(sp: Spec, c: byte)
    requires Moderate(sp)
    ensures var l := Layout(sp.width, sp.pad, sp.left, sp.precision, [], false, Cut(sp, if c == NUL then [] else [c]));
            l.Render() == CharacterText(sp, c)
  {
    hide Fill, Padded, Layout.Render;
    var l := Layout(sp.width, sp.pad, sp.left, sp.precision, [], false, Cut(sp, if c == NUL then [] else [c]));
    RenderPadded(l, sp);
    FilledWithSpaces(l);
    NoFill(SPACE, l.Inner() - l.Count());
    NoFill(SPACE, sp.precision - |l.content|);
  }

  lemma ArgumentIs(sp: Spec, word: u64)
    ensures Argument(sp, word) == SignedBits(sp.long, word)
  {
  }

  lemma MagnitudeIs(c: byte, sp: Spec, v: i64)
    requires c in INTEGERS && (!sp.long ==> -0x8000_0000 <= v < 0x8000_0000)
    ensures Magnitude(c, sp, v) == NumberText(c, sp.long, v)
    ensures Minus(c, v) <==> v < 0 && c in {Ch('d'), Ch('i'), Ch('p'), Ch('X')}
  {
  }

  lemma PrefixIs(c: byte, sp: Spec, v: i64)
    requires c in INTEGERS
    ensures Prefix(c, Adjusted(c, sp), v) == SignText(c, sp, v < 0)
  {
  }

  lemma AdjustedFields(c: byte, sp: Spec)
    requires c in INTEGERS
    ensures var sp' := Adjusted(c, sp);
            && sp'.zero == ((sp.zero && c != Ch('p')) || c == Ch('X')) && sp'.left == sp.left && sp'.pad == sp.pad
            && sp'.point == sp.point && sp'.comma == sp.comma && sp'.width == sp.width && sp'.precision == sp.precision
  {
  }

  lemma BaseIs(c: byte)
    ensures BaseOf(c) == Radix(c)
  {
  }

  lemma DigitsAre(c: byte, sp: Spec, v: i64)
    requires var sp' := Adjusted(c, sp); c in INTEGERS && (!sp'.long ==> -0x8000_0000 <= v < 0x8000_0000)
    ensures var sp' := Adjusted(c, sp);
            DigitsText(c, sp, NumberText(c, sp'.long, v)) ==
            if sp'.comma then Grouped(IntegerDigits(c, sp', v)) else IntegerDigits(c, sp', v)
  {
    hide Grouped, NumeralChars, Magnitude, NumberText, Adjusted, Radix, BaseOf;
    AdjustedFields(c, sp);
    BaseIs(c);
    MagnitudeIs(c, Adjusted(c, sp), v);
  }

  lemma PrecisionIs(c: byte, sp: Spec, sign: nat)
    requires c in INTEGERS && sp.precision < 0x7fff_ffff && sign <= 1
    ensures IntegerPrecision(c, Adjusted(c, sp), sign) ==
            if FillsWidth(c, sp) then sp.width
            else (if sp.comma && BaseOf(c) == 10 then 1 else sp.precision) + sign
  {
    AdjustedFields(c, sp);
    hide Adjusted;
  }

  /** Precision and sign together, less sign and digits, are the zeros between them. */
  lemma ZerosAre(c: byte, sp: Spec, sign: nat, digits: nat)
    requires c in INTEGERS && Moderate(sp) && sign <= 1
    ensures var p := IntegerPrecision(c, Adjusted(c, sp), sign);
            && p < 0x8000_0000
            && (if p < sign + digits then 0 else p - (sign + digits)) ==
               var z := ZeroCount(c, sp, sign, digits); if z < 0 then 0 else z
  {
    hide Adjusted, IntegerPrecision, BaseOf;
    PrecisionIs(c, sp, sign);
  }

  lemma ShortDigits(c: byte, sp: Spec, m: u64)
    ensures |DigitsText(c, sp, m)| <= 86
  {
    NumeralLength(m, BaseOf(c));
    GroupedLength(NumeralChars(m, BaseOf(c), UPPER));
    GroupedLength([]);
  }

  lemma NumberFits(c: byte, long: bool, word: u64)
    ensures 0 <= NumberText(c, long, SignedBits(long, word)) < TWO_64
  {
  }

  /** An integer field is the sign, zeros and digits, padded. */
  lemma IntegerField(c: byte, sp: Spec, word: u64)
    requires c in INTEGERS && Moderate(sp)
    ensures IntegerLayout(c, sp, word).Render() == IntegerText(c, sp, word)
  {
    hide Fill, Padded, Layout.Render, Argument, NumberText, DigitsText, IntegerDigits, Grouped, SignText, Prefix,
      IntegerPrecision, ZeroCount, Moderate, SignedBits;
    var long := sp.long || c == Ch('p');
    var v := SignedBits(long, word);
    var sp' := Adjusted(c, sp);
    LongFlag(c, sp, word);
    ArgumentIs(sp', word);
    PrefixIs(c, sp, v);
    DigitsAre(c, sp, v);
    NumberFits(c, long, word);
    ShortDigits(c, sp, NumberText(c, long, v));
    var sign, digits := SignText(c, sp, v < 0), DigitsText(c, sp, NumberText(c, long, v));
    SignLength(c, sp, v < 0);
    ZerosAre(c, sp, |sign|, |digits|);
    var l := IntegerLayout(c, sp, word);
    LayoutFields(c, sp, word);
    RenderPadded(l, sp);
    Small(l.Inner() - l.Count());
    NoFill(ZERO, ZeroCount(c, sp, |sign|, |digits|));
    NoFill(ZERO, l.Inner() - l.Count());
  }

  lemma SignLength(c: byte, sp: Spec, negative: bool)
    ensures |SignText(c, sp, negative)| <= 1
  {
  }

  lemma LongFlag(c: byte, sp: Spec, word: u64)
    ensures Adjusted(c, sp).long == (sp.long || c == Ch('p'))
    ensures var v := SignedBits(sp.long || c == Ch('p'), word);
            -TWO_63 <= v < TWO_63 && (!Adjusted(c, sp).long ==> -0x8000_0000 <= v < 0x8000_0000)
  {
    hide SignedBits;
    SignedRange(sp.long || c == Ch('p'), word);
  }

  lemma SignedRange(long: bool, word: u64)
    ensures -TWO_63 <= SignedBits(long, word) < TWO_63
    ensures !long ==> -0x8000_0000 <= SignedBits(long, word) < 0x8000_0000
  {
  }

  lemma LayoutFields(c: byte, sp: Spec, word: u64)
    requires c in INTEGERS && Moderate(sp)
    ensures var l, sp' := IntegerLayout(c, sp, word), Adjusted(c, sp);
            var v := Argument(sp', word);
            && l.width == sp.width < 0x8000_0000 && l.pad == sp.pad && l.left == sp.left && l.zeros
            && l.prefix == Prefix(c, sp', v) && l.precision == IntegerPrecision(c, sp', |l.prefix|)
            && l.content == if sp'.comma then Grouped(IntegerDigits(c, sp', v)) else IntegerDigits(c, sp', v)
  {
    hide Argument, IntegerDigits, Grouped, Prefix, IntegerPrecision;
  }

  lemma NullText()
    ensures Codes("<null string>") == NULL_STRING
  {
  }

  /** What a conversion prints is its text. */
  lemma FieldIs(c: byte, sp: Spec, word: u64, strings: u64 -> CText)
    requires Moderate(sp)
    ensures LayoutOf(c, sp, word, strings).Render() == FieldText(c, sp, word, strings)
  {
    hide Layout.Render, IntegerLayout, IntegerText, StringText, CharacterText, Cut, Moderate;
    NullText();
    if c in INTEGERS {
      IntegerField(c, sp, word);
    } else if c == Ch('s') || c == Ch('S') {
      StringField(sp, if word == 0 then Codes("<null string>") else strings(word));
    } else {
      CharacterField(sp, if c == Ch('c') then word % 256 else c);
    }
  }

  // ---- the text of a format ----

  /** The conversions that take an argument. */
  const ARGUMENTS: set<byte> := INTEGERS + {Ch('s'), Ch('S'), Ch('c')}

  /** Where the text goes on behind a conversion, and with which argument. */
  function RestText(format: CString, t: nat, a: nat, args: nat -> u64, strings: u64 -> CText): seq<byte>
    requires t < |format|
  {
    if format[t] == NUL then []
    else Text(format, t + 1, if format[t] in ARGUMENTS then a + 1 else a, args, strings)
  }

  lemma StepAt(format: CString, i: nat, t: nat, sp: Spec, k: nat, a: nat, args: nat -> u64, strings: u64 -> CText)
    requires i < t < |format| && format[i] == PERCENT && Parse(format, i + 1, PLAIN, k, args) == Conversion(sp, t, a)
    ensures Text(format, i, k, args, strings) ==
            LayoutOf(format[t], sp, args(a), strings).Render() + RestText(format, t, a, args, strings)
    ensures Fits(format, i, k, args) <==>
            && (IsInteger(format[t]) ==> DigitsFit(format[t], sp, args(a)))
            && (format[t] == NUL || Fits(format, t + 1, if format[t] in ARGUMENTS then a + 1 else a, args))
  {
    hide Layout.Render, LayoutOf, Parse, DigitsFit;
    assert ConversionAt(format, i, k, args) == Conversion(sp, t, a);
    assert Item(format, i, k, args, strings) == LayoutOf(format[t], sp, args(a), strings);
    assert NextArgument(format, i, k, args) == if format[t] in ARGUMENTS then a + 1 else a;
    if format[t] == NUL { NoText(format, t, a, args, strings); }
  }

  /**
    * The text of a format that begins with a conversion of the documented form: the text of its field, printed for
    * the argument behind those of its asterisks, and the text of the rest.
    */
  lemma FormText(format: CString, i: nat, w: nat, d: nat, t: nat, k: nat, args: nat -> u64, strings: u64 -> CText)
    requires IsForm(format, i + 1, w, d, t) && format[i] == 0x25
    requires Moderate(FormSpec(format, i + 1, w, d, t, k, args))
    ensures var sp, a := FormSpec(format, i + 1, w, d, t, k, args), k + FormStars(format, w, d, t);
            Text(format, i, k, args, strings) ==
            FieldText(format[t], sp, args(a), strings) + RestText(format, t, a, args, strings)
  {
    hide FormSpec, Parse, Text, LayoutOf, FieldText, Layout.Render, IsForm, Moderate, FormStars, RestText, Fits;
    FormBounds(format, i + 1, w, d, t);
    ParseForm(format, i + 1, w, d, t, k, args);
    var sp, a := FormSpec(format, i + 1, w, d, t, k, args), k + FormStars(format, w, d, t);
    StepAt(format, i, t, sp, k, a, args, strings);
    FieldIs(format[t], sp, args(a), strings);
  }

  lemma FormBounds(format: CString, i: nat, w: nat, d: nat, t: nat)
    requires IsForm(format, i, w, d, t)
    ensures i <= w <= d <= t < |format|
  {
  }

  /** Its digits fit the local buffer unless it is a binary number of 2^37 and more. */
  lemma FormFits(format: CString, i: nat, w: nat, d: nat, t: nat, k: nat, args: nat -> u64)
    requires IsForm(format, i + 1, w, d, t) && format[i] == 0x25
    ensures var sp, a := FormSpec(format, i + 1, w, d, t, k, args), k + FormStars(format, w, d, t);
            Fits(format, i, k, args) <==>
            && (format[t] == Ch('b') ==> NumberText(Ch('b'), sp.long, SignedBits(sp.long, args(a))) < 0x20_0000_0000)
            && (format[t] == NUL || Fits(format, t + 1, if format[t] in ARGUMENTS then a + 1 else a, args))
  {
    hide FormSpec, Parse, LayoutOf, IsForm, FormStars, Fits, DigitsFit, Text, RestText;
    FormBounds(format, i + 1, w, d, t);
    ParseForm(format, i + 1, w, d, t, k, args);
    var sp, a := FormSpec(format, i + 1, w, d, t, k, args), k + FormStars(format, w, d, t);
    StepAt(format, i, t, sp, k, a, args, _ => []);
    DigitsFitIff(format[t], sp, args(a));
    if format[t] == Ch('b') { BinaryNumber(sp, args(a)); }
  }

  lemma BinaryNumber(sp: Spec, word: u64)
    ensures Printed(Ch('b'), sp, word) == NumberText(Ch('b'), sp.long, SignedBits(sp.long, word))
  {
    ArgumentIs(sp, word);
    LongFlag(Ch('b'), sp, word);
    MagnitudeIs(Ch('b'), sp, SignedBits(sp.long, word));
  }

  // ---- formats of one conversion ----

  /** A conversion without flags, width and precision. */
  lemma BareConversion(c: byte, args: nat -> u64, strings: u64 -> CText)
    requires c != NUL && c !in FLAGS && !(0x30 <= c <= 0x39) && c != Ch('*') && c != Ch('.')
    ensures Text([0x25, c, NUL], 0, 0, args, strings) == FieldText(c, PLAIN, args(0), strings)
  {
    hide FieldText, Text;
    var format: CString := [0x25, c, NUL];
    assert format[1..1] == [];
    assert FormSpec(format, 1, 1, 1, 1, 0, args) == PLAIN;
    FormText(format, 0, 1, 1, 1, 0, args, strings);
    NoText(format, 2, 0, args, strings);
    NoText(format, 2, 1, args, strings);
  }

  lemma Unpadded(sp: Spec, body: seq<byte>)
    requires !sp.pad
    ensures Padded(sp, body) == body
  {
  }

  /** %s prints the string, or <null string> for a null pointer. */
  lemma PercentS(args: nat -> u64, strings: u64 -> CText)
    ensures Text([0x25, 0x73, NUL], 0, 0, args, strings) ==
            if args(0) == 0 then Codes("<null string>") else strings(args(0))
  {
    hide Text, Padded;
    BareConversion(Ch('s'), args, strings);
    Unpadded(PLAIN, if args(0) == 0 then Codes("<null string>") else strings(args(0)));
  }

  /** %c prints the low byte, and a space for the code 0. */
  lemma PercentC(args: nat -> u64, strings: u64 -> CText)
    ensures Text([0x25, 0x63, NUL], 0, 0, args, strings) == [if args(0) % 256 == 0 then 0x20 else args(0) % 256]
  {
    hide Text, Padded;
    BareConversion(Ch('c'), args, strings);
    OneCharacterText(args(0) % 256);
  }

  lemma OneCharacterText(c: byte)
    ensures CharacterText(PLAIN, c) == [if c == NUL then 0x20 else c]
  {
    var body := [if c == NUL then 0x20 else c];
    assert Fill(0x20, 1) == [0x20];
    assert Fill(0x20, 0) == [] && [] + [c] == [c] && [0x20] + [] == [0x20];
    Unpadded(PLAIN, body);
  }

  /** %% prints %, and so does any other character that is no flag, digit or type print itself. */
  lemma PercentOther(c: byte, args: nat -> u64, strings: u64 -> CText)
    requires c != NUL && c !in {0x2d, 0x2b, 0x20, 0x2c, 0x6c, 0x4c, 0x2a, 0x2e} && !(0x30 <= c <= 0x39)
    requires c !in {0x70, 0x58, 0x78, 0x6f, 0x62, 0x75, 0x64, 0x69, 0x73, 0x53, 0x63}
    ensures Text([0x25, c, NUL], 0, 0, args, strings) == [c]
  {
    hide Text, CharacterText;
    BareConversion(c, args, strings);
    OneCharacterText(c);
  }

  /** A precision cuts a string exactly when the string is that long; a shorter one gets spaces in front. */
  lemma StringPrecisionIff(sp: Spec, t: CText)
    requires sp.point && !sp.pad
    ensures StringText(sp, t) == t[..Min(sp.precision, |t|)] <==> sp.precision <= |t|
    ensures sp.precision > |t| ==> StringText(sp, t) == Fill(0x20, sp.precision - |t|) + t
  {
    hide Padded, Fill;
    var body := if sp.precision <= |t| then t[..sp.precision] else Fill(0x20, sp.precision - |t|) + t;
    Unpadded(sp, body);
  }

  /** %*.*d takes width, precision and number from three arguments. */
  lemma StarField(args: nat -> u64, strings: u64 -> CText)
    requires args(0) % TWO_32 < 0x8000_0000 && args(1) % TWO_32 < 0x7fff_ffff
    ensures Text([0x25, 0x2a, 0x2e, 0x2a, 0x64, NUL], 0, 0, args, strings) ==
            IntegerText(Ch('d'), PLAIN.(pad := true, point := true, width := args(0) % TWO_32,
                        precision := args(1) % TWO_32), args(2))
  {
    hide IntegerText, Text;
    var format: CString := [0x25, 0x2a, 0x2e, 0x2a, 0x64, NUL];
    assert format[1..1] == [];
    assert FormSpec(format, 1, 1, 2, 4, 0, args) ==
           PLAIN.(pad := true, point := true, width := args(0) % TWO_32, precision := args(1) % TWO_32);
    FormText(format, 0, 1, 2, 4, 0, args, strings);
    NoText(format, 5, 3, args, strings);
  }

  /** A format that ends inside a conversion prints nothing for it exactly when it has no width, or the width 0. */
  lemma UnfinishedIff(format: CString, i: nat, w: nat, d: nat, t: nat, k: nat, args: nat -> u64, strings: u64 -> CText)
    requires IsForm(format, i + 1, w, d, t) && format[i] == 0x25 && format[t] == NUL
    requires Moderate(FormSpec(format, i + 1, w, d, t, k, args))
    ensures var width := FormSpec(format, i + 1, w, d, t, k, args).width;
            Text(format, i, k, args, strings) == Fill(0x20, width)
            && (Text(format, i, k, args, strings) == [] <==> w == d || width == 0)
  {
    hide Text, Padded, Fill, NumberFrom, IsForm, Has, FormSpec, FieldText, CharacterText;
    FormBounds(format, i + 1, w, d, t);
    FormText(format, i, w, d, t, k, args, strings);
    var sp, a := FormSpec(format, i + 1, w, d, t, k, args), k + FormStars(format, w, d, t);
    UnfinishedSpec(format, i + 1, w, d, t, k, args);
    NothingText(sp, args(a), strings);
    NoFill(0x20, 0);
    OnlyBlanks(sp);
    assert Padded(sp, []) + [] == Padded(sp, []);
  }

  lemma UnfinishedSpec(format: CString, i: nat, w: nat, d: nat, t: nat, k: nat, args: nat -> u64)
    requires i <= w <= d <= t < |format| && format[t] == NUL
    ensures var sp := FormSpec(format, i, w, d, t, k, args);
            sp.precision == 0 && (sp.width == 0 || sp.pad) && (w == d ==> sp.width == 0)
  {
    hide Has, NumberFrom;
  }

  lemma NothingText(sp: Spec, word: u64, strings: u64 -> CText)
    requires sp.precision == 0
    ensures FieldText(NUL, sp, word, strings) == Padded(sp, [])
  {
    hide Padded;
    var none: seq<byte> := [];
    assert Fill(0x20, 0) + none == none;
  }

  lemma OnlyBlanks(sp: Spec)
    requires sp.width == 0 || sp.pad
    ensures Padded(sp, []) == Fill(0x20, sp.width)
  {
  }

  /** The width alone is printed for %5. */
  lemma UnfinishedWidth(args: nat -> u64, strings: u64 -> CText)
    ensures Text([0x25, 0x35, NUL], 0, 0, args, strings) == [0x20, 0x20, 0x20, 0x20, 0x20]
  {
    hide Text;
    var format: CString := [0x25, 0x35, NUL];
    assert Strtoimax.Run(format, 1, 2) == [5];
    assert Value([5], 10) == 5 by { assert [5][..0] == []; }
    assert format[1..1] == [];
    UnfinishedIff(format, 0, 1, 2, 2, 0, args, strings);
    assert Fill(0x20, 5) == [0x20, 0x20, 0x20, 0x20, 0x20];
  }

  /** o and b print the 32 bits of an int exactly when it is not negative; other ones are widened to 64 bits first. */
  lemma NarrowBitsIff(c: byte, word: u64)
    requires c == Ch('o') || c == Ch('b')
    ensures var low := word % 0x1_0000_0000;
            NumberText(c, false, SignedBits(false, word)) == low <==> low < 0x8000_0000
  {
  }

  // ---- the default precision ----

  /**
    * The header assumes precision 0 when there is none, the code 1. It makes no difference exactly for numbers other
    * than 0, for decimals with commas, and where zeros fill a width that is larger than the sign.
    */
  lemma DefaultPrecisionIff(c: byte, sp: Spec, word: u64)
    requires c in INTEGERS && sp.precision == 1
    ensures var long := sp.long || c == Ch('p');
            var v := SignedBits(long, word);
            IntegerText(c, sp, word) == IntegerText(c, sp.(precision := 0), word) <==>
            || NumberText(c, long, v) != 0 || (sp.comma && BaseOf(c) == 10)
            || (FillsWidth(c, sp) && sp.width > |SignText(c, sp, v < 0)|)
  {
    hide Padded, SignedBits, NumberText, DigitsText, SignText, FillsWidth, Fill;
    var long := sp.long || c == Ch('p');
    var v := SignedBits(long, word);
    var m, sp0 := NumberText(c, long, v), sp.(precision := 0);
    NumberFits(c, long, word);
    SamePlaces(c, sp, v < 0);
    SomeDigits(c, sp, m);
    var sign, digits := SignText(c, sp, v < 0), DigitsText(c, sp, m);
    var n := ZeroCount(c, sp, |sign|, |digits|);
    if m != 0 || (sp.comma && BaseOf(c) == 10) {
      NoFill(0x30, n);
      NoFill(0x30, ZeroCount(c, sp0, |sign|, |digits|));
    } else {
      ZeroShown(sp, sign, n, ZeroCount(c, sp0, |sign|, 0), FillsWidth(c, sp));
    }
  }

  lemma SamePlaces(c: byte, sp: Spec, negative: bool)
    ensures SignText(c, sp.(precision := 0), negative) == SignText(c, sp, negative)
    ensures FillsWidth(c, sp.(precision := 0)) == FillsWidth(c, sp)
    ensures forall body :: Padded(sp.(precision := 0), body) == Padded(sp, body)
    ensures |SignText(c, sp, negative)| <= 1 && 0x30 !in SignText(c, sp, negative)
  {
  }

  lemma SomeDigits(c: byte, sp: Spec, m: nat)
    requires sp.precision == 1
    ensures var ds := DigitsText(c, sp, m);
            && ds != [] && (m == 0 ==> ds == [0x30])
            && DigitsText(c, sp.(precision := 0), m) == if m != 0 || (sp.comma && BaseOf(c) == 10) then ds else []
  {
    NumeralValue(m, BaseOf(c));
    GroupedLength(NumeralChars(m, BaseOf(c), UPPER));
  }

  /** The digit 0, which is one more zero where zeros fill the width, and shows otherwise. */
  lemma ZeroShown(sp: Spec, sign: seq<byte>, n: int, n0: int, fills: bool)
    requires 0x30 !in sign && (if fills then n == sp.width - |sign| - 1 && n0 == n + 1 else n == n0 == 0)
    ensures Padded(sp, sign + Fill(0x30, n) + [0x30]) == Padded(sp, sign + Fill(0x30, n0) + []) <==>
            fills && sp.width > |sign|
  {
    var a, b := sign + Fill(0x30, n) + [0x30], sign + Fill(0x30, n0) + [];
    if fills && sp.width > |sign| {
      assert a == b;
    } else {
      assert b == sign;
      assert a[|a| - 1] == 0x30;
      PaddedHas(sp, a, 0x30);
      PaddedHas(sp, b, 0x30);
    }
  }

  lemma PaddedHas(sp: Spec, body: seq<byte>, c: byte)
    requires c != 0x20
    ensures c in Padded(sp, body) <==> c in body
  {
    var blanks := Fill(0x20, if sp.pad then sp.width - |body| else 0);
    assert c !in blanks;
    assert c in body + blanks <==> c in body;
    assert c in blanks + body <==> c in body;
  }
}

/** libc/stdio/printf.c: sprintf_impl, which prints the text of a format without passing the end of its buffer. */
module Printf {
  import opened Common
  import opened Machine
  import opened Numerals
  import opened PrintfSpec
  import Strtoimax

  const INT16_MAX: nat := 0x7fff
  const MAXIMUM_VALUE_CHARACTERS: nat := 38

  /** The buffer with its end, and put_char with what it was given; done is all the text so far. */
  class Output {
    const buffer: array?<byte>
    const end: nat
    const putChar: bool
    var pos: nat
    var printed: seq<byte>
    ghost var done: seq<byte>
    ghost const before: seq<byte>

    constructor (buffer: array?<byte>, end: nat, putChar: bool)
      requires buffer != null ==> buffer.Length > 0
      ensures this.buffer == buffer && this.end == end && this.putChar == putChar
      ensures Valid() && done == []
      ensures buffer != null ==> before == buffer[..]
    {
      this.buffer, this.end, this.putChar := buffer, end, putChar;
      pos, printed, done := 0, [], [];
      before := if buffer != null then buffer[..] else [];
    }

    /** The buffer holds the text up to its end, and is untouched behind it; put_char was given the whole text. */
    ghost predicate Valid()
      reads this, buffer
    {
      && (buffer == null ==> pos == 0)
      && (buffer != null ==> Holds(done))
      && printed == if putChar then done else []
    }

    /** There is room for a text of this length, or for as much of it as is kept, and the terminator. */
    ghost predicate Room(length: nat) {
      buffer != null ==> Min(length, end) < buffer.Length
    }

    /** write_char */
    method WriteChar(length: int, c: byte)
      requires Valid() && Room(|done| + |Fill(c, length)|)
      modifies this, buffer
      ensures Valid() && done == old(done) + Fill(c, length)
    {
      hide Fill;
      if putChar {
        Put(length, c);
      }
      if buffer != null {
        Store(length, c);
      }
      done := done + Fill(c, length);
    }

    method Put(length: int, c: byte)
      modifies this`printed
      ensures printed == old(printed) + Fill(c, length)
    {
      var i := 0;
      while i < length
        invariant 0 <= i && (i <= length || i == 0)
        invariant printed == old(printed) + Fill(c, i)
      {
        assert Fill(c, i) + [c] == Fill(c, i + 1);
        printed := printed + [c];
        i := i + 1;
      }
    }

    /** The buffer holds as much of the text as fits, and is untouched behind it. */
    ghost predicate Holds(text: seq<byte>)
      requires buffer != null
      reads this, buffer
    {
      && |before| == buffer.Length && pos == Min(|text|, end) < buffer.Length
      && buffer[..pos] == text[..pos] && buffer[pos..] == before[pos..]
    }

    method Store(length: int, c: byte)
      requires buffer != null && Holds(done) && Room(|done| + |Fill(c, length)|)
      modifies this`pos, buffer
      ensures Holds(done + Fill(c, length))
    {
      var i := 0;
      assert done + Fill(c, 0) == done;
      while i < length && pos < end
        invariant 0 <= i && (i <= length || i == 0) && Holds(done + Fill(c, i))
      {
        assert done + Fill(c, i + 1) == (done + Fill(c, i)) + [c];
        StoreOne(c, done + Fill(c, i));
        i := i + 1;
      }
      if i < length {
        assert (done + Fill(c, i))[..pos] == (done + Fill(c, length))[..pos];
      } else {
        assert Fill(c, i) == Fill(c, length);
      }
    }

    method StoreOne(c: byte, ghost text: seq<byte>)
      requires buffer != null && Holds(text) && pos < end && pos + 1 < buffer.Length
      modifies this`pos, buffer
      ensures Holds(text + [c])
    {
      assert buffer[pos..][1..] == buffer[pos + 1..] && before[pos..][1..] == before[pos + 1..];
      buffer[pos] := c;
      pos := pos + 1;
    }
  }

  const HEX: seq<byte> :=
    [0x30, 0x31, 0x32, 0x33, 0x34, 0x35, 0x36, 0x37, 0x38, 0x39, 0x41, 0x42, 0x43, 0x44, 0x45, 0x46]

  /** The value buffer: a NUL, then the characters from the last one to the first. */
  ghost predicate HoldsReversed(buffer: seq<byte>, cs: seq<byte>) {
    && |cs| < |buffer| && buffer[0] == NUL
    && forall i {:trigger cs[i]} :: 0 <= i < |cs| ==> buffer[|cs| - i] == cs[i]
  }

  /** The last digit of a numeral or of the digits of a value that is not 0, and what is in front of it. */
  lemma LastDigit(u: u64, base: nat, ds: seq<nat>)
    requires 2 <= base <= 16 && (ds == Numeral(u, base) || (u > 0 && ds == Digits(u, base)))
    ensures 0 <= u / base && (u > 0 ==> u / base < u) && (u == 0 ==> u / base == 0)
    ensures |ds| > 0 && ds[|ds| - 1] == u % base && ds[..|ds| - 1] == Digits(u / base, base)
  {
    hide Digits;
    if u > 0 { DigitsStep(u, base); } else { NoDigits(base); }
  }

  lemma NumeralIs(u: u64, radix: nat)
    requires 2 <= radix <= 16
    ensures var cs, all := NumeralChars(u, radix, UPPER), Numeral(u, radix);
            |cs| == |all| && forall i :: 0 <= i < |all| ==> all[i] < radix && cs[i] == DigitChar(all[i], UPPER)
  {
    NumeralValue(u, radix);
  }

  lemma HexDigit(d: nat)
    requires d < 16
    ensures HEX[d] == DigitChar(d, UPPER)
  {
  }

  /** value_to_string */
  method ValueToString(buffer: array<byte>, value: u64, radix: nat) returns (n: nat)
    requires 2 <= radix <= 16 && |NumeralChars(value, radix, UPPER)| < buffer.Length
    modifies buffer
    ensures n == |NumeralChars(value, radix, UPPER)| && HoldsReversed(buffer[..], NumeralChars(value, radix, UPPER))
  {
    hide Digits, Numeral, NumeralChars, DigitChar;
    ghost var all := Numeral(value, radix);
    ghost var cs := NumeralChars(value, radix, UPPER);
    NumeralIs(value, radix);
    NoDigits(radix);
    n := 0;
    var v: u64, first := value, true;
    buffer[0] := NUL;
    while first || v != 0
      invariant n <= |all| == |cs| < buffer.Length && buffer[0] == NUL
      invariant all[..|all| - n] == if first then Numeral(v, radix) else Digits(v, radix)
      invariant forall i {:trigger cs[i]} :: |cs| - n <= i < |cs| ==> buffer[|cs| - i] == cs[i]
      decreases first, v
    {
      ghost var ds := all[..|all| - n];
      LastDigit(v, radix, ds);
      assert all[..|all| - n - 1] == ds[..|ds| - 1];
      var remainder := v % radix;
      v := v / radix;
      n := n + 1;
      HexDigit(remainder);
      buffer[n] := HEX[remainder];
      first := false;
    }
  }

  // ---- the conversion specification ----

  /** The number loop of the flag parser, in 32-bit arithmetic. */
  method ReadNumber(format: CString, start: nat) returns (n: u32, i: nat)
    requires start < |format| && IsDigit(format[start])
    ensures n == NumberAt(format, start) && i == Strtoimax.RunEnd(format, start, 10)
  {
    n, i := 0, start;
    while IsDigit(format[i])
      invariant start <= i < |format| && forall k :: start <= k < i ==> DigitOf(format[k]) < 10
      invariant n == Wrap32(Value(Strtoimax.Run(format, start, i), 10))
      decreases |format| - i
    {
      Strtoimax.NextDigit(format, start, i, 10, 0);
      WrapDigit(Value(Strtoimax.Run(format, start, i), 10), format[i] - ZERO);
      n := Wrap32(n * 10 + format[i] - ZERO);
      i := i + 1;
    }
    Strtoimax.RunEndIs(format, start, i, 10);
  }

  lemma WrapDigit(v: nat, d: nat)
    ensures Wrap32(Wrap32(v) * 10 + d) == Wrap32(v * 10 + d)
  {
    var q := v / TWO_32;
    assert v * 10 + d == Wrap32(v) * 10 + d + q * 10 * TWO_32;
    ModShift(Wrap32(v) * 10 + d, q * 10, TWO_32);
  }

  /** The flag loop: the index of the conversion character, and the next argument. */
  method ReadSpec(format: CString, start: nat, next: nat, args: nat -> u64) returns (sp: Spec, i: nat, k: nat)
    requires start < |format|
    ensures Conversion(sp, i, k) == Parse(format, start, PLAIN, next, args)
  {
    sp, i, k := PLAIN, start, next;
    var finished := false;
    while !finished
      invariant i < |format|
      invariant !finished ==> Parse(format, i, sp, k, args) == Parse(format, start, PLAIN, next, args)
      invariant finished ==> Conversion(sp, i, k) == Parse(format, start, PLAIN, next, args)
      decreases !finished, |format| - i
    {
      var c := format[i];
      if IsFlag(c) {
        sp, i := WithFlag(sp, c), i + 1;
      } else if c == Ch('*') {
        sp, i, k := WithNumber(sp, Wrap32(args(k))), i + 1, k + 1;
      } else if IsDigit(c) {
        if c == ZERO && !sp.point {
          sp := sp.(zero := true);
        }
        var n, j := ReadNumber(format, i);
        sp, i := WithNumber(sp, n), j;
      } else {
        if c == NUL {
          sp := sp.(precision := 0);
        }
        finished := true;
      }
    }
  }

  // ---- printing a field ----

  /** i steps from `at`, up or down. */
  function Place(at: int, back: bool, i: nat): int { if back then at - i else at + i }

  ghost predicate CharAt(memory: seq<byte>, at: int, c: byte) {
    0 <= at < |memory| && memory[at] == c
  }

  /** The text a pointer and a direction lead through. */
  ghost predicate Leads(memory: seq<byte>, at: int, back: bool, cs: seq<byte>) {
    forall i :: 0 <= i < |cs| ==> CharAt(memory, Place(at, back, i), cs[i]) && cs[i] != NUL
  }

  lemma LeadsOn(memory: seq<byte>, at: int, back: bool, cs: seq<byte>)
    requires Leads(memory, at, back, cs)
    ensures cs != [] ==>
              0 <= at < |memory| && memory[at] == cs[0] != NUL && Leads(memory, Place(at, back, 1), back, cs[1..])
  {
    assert Place(at, back, 0) == at;
    if cs != [] {
      var rest, next := cs[1..], Place(at, back, 1);
      assert CharAt(memory, Place(at, back, 0), cs[0]) && cs[0] != NUL;
      forall i | 0 <= i < |rest|
        ensures CharAt(memory, Place(next, back, i), rest[i]) && rest[i] != NUL
      {
        assert CharAt(memory, Place(at, back, i + 1), cs[i + 1]);
        assert rest[i] == cs[i + 1] && Place(next, back, i) == Place(at, back, i + 1);
      }
    }
  }

  /** The content of a field, with commas when they are asked for. */
  function Content(cs: seq<byte>, comma: bool, since: nat): (t: seq<byte>)
    requires since < 3
    ensures |t| >= |cs|
  {
    if comma then Grouping(cs, since) else cs
  }

  lemma ContentStep(cs: seq<byte>, comma: bool, since: nat)
    requires since < 3 && cs != []
    ensures var more := if comma && since == 2 then (if |cs| > 1 then [COMMA] else []) else [];
            Content(cs, comma, since) ==
            [cs[0]] + more + Content(cs[1..], comma, if comma then (since + 1) % 3 else since)
  {
  }

  lemma NoContent(comma: bool, since: nat)
    requires since < 3
    ensures Content([], comma, since) == []
  {
  }

  /** The copying loop: the characters from `at` on, counted up to `count`. */
  method Copy(out: Output, memory: seq<byte>, at: int, back: bool, first: nat, count: nat, comma: bool, since: nat,
              ghost cs: seq<byte>)
    requires out.Valid() && since < 3 && Leads(memory, at, back, cs) && count == first + |Content(cs, comma, since)|
    requires out.Room(|out.done| + count - first)
    modifies out, out.buffer
    ensures out.Valid() && out.done == old(out.done) + Content(cs, comma, since)
  {
    hide Leads, Content, Output.Valid;
    var step := if back then -1 else 1;
    var p, index, digits := at, first, since;
    ghost var rest := cs;
    ghost var text := out.done + Content(cs, comma, since);
    LeadsOn(memory, at, back, cs);
    NoContent(comma, since);
    while index < count && memory[p] != NUL
      invariant digits < 3 && out.Valid() && Leads(memory, p, back, rest)
      invariant rest != [] ==> 0 <= p < |memory| && memory[p] == rest[0] != NUL
      invariant out.done + Content(rest, comma, digits) == text
      invariant rest != [] ==> count - index == |Content(rest, comma, digits)|
      invariant rest == [] ==> index >= count
      decreases |rest|
    {
      LeadsOn(memory, p, back, rest);
      ContentStep(rest, comma, digits);
      ghost var next := if comma then (digits + 1) % 3 else digits;
      ghost var more := if comma && digits == 2 then (if |rest| > 1 then [COMMA] else []) else [];
      assert out.done + [rest[0]] + more + Content(rest[1..], comma, next) == text;
      NoContent(comma, next);
      assert |rest| == 1 ==> rest[1..] == [];
      assert Fill(memory[p], 1) == [memory[p]] && Fill(COMMA, 1) == [COMMA];
      out.WriteChar(1, memory[p]);
      p := p + step;
      index := index + 1;
      if comma {
        digits := digits + 1;
        if digits == 3 {
          digits := 0;
          index := index + 1;
          if index < count {
            out.WriteChar(1, COMMA);
          }
        }
      }
      assert digits == next;
      rest := rest[1..];
      LeadsOn(memory, p, back, rest);
    }
    NoContent(comma, digits);
  }

  /** From the comparison of precision and count to the padding behind the text. */
  method PrintField(out: Output, width: u32, pad: bool, left: bool, precision: u32, prefix: byte, zeros: bool,
                    memory: seq<byte>, at: int, back: bool, count: u32, comma: bool, since: nat, ghost l: Layout,
                    ghost cs: seq<byte>)
    requires l == Layout(width, pad, left, precision, if prefix == NUL then [] else [prefix], zeros, l.content)
    requires since < 3 && Leads(memory, at, back, cs) && l.content == Content(cs, comma, since) && count == l.Count()
    requires out.Valid() && out.Room(|out.done| + |l.Render()|)
    modifies out, out.buffer
    ensures out.Valid() && out.done == old(out.done) + l.Render()
  {
    hide Leads, Content, Output.Valid, Layout.Blanks, Layout.Filled, Fill;
    PrintFront(out, width, pad, left, precision, prefix, zeros, count, l);
    Copy(out, memory, at, back, if prefix != NUL then 1 else 0, count, comma, since, cs);
    if pad && left {
      PrintBlanks(out, width, if precision < count then count else precision, l);
    }
  }

  method PrintBlanks(out: Output, width: u32, inner: u32, ghost l: Layout)
    requires out.Valid() && out.Room(|out.done| + |l.Blanks()|) && width == l.width && inner == l.Inner()
    modifies out, out.buffer
    ensures out.Valid() && out.done == old(out.done) + l.Blanks()
  {
    hide Output.Valid, Fill;
    out.WriteChar(Signed32(Wrap32(width - inner)), SPACE);
  }

  /** What is printed in front of the text. */
  method PrintFront(out: Output, width: u32, pad: bool, left: bool, precision: u32, prefix: byte, zeros: bool,
                    count: u32, ghost l: Layout)
    requires l == Layout(width, pad, left, precision, if prefix == NUL then [] else [prefix], zeros, l.content)
    requires count == l.Count() && out.Valid()
    requires out.Room(|out.done| + (if pad && !left then |l.Blanks()| else 0) + |l.Filled()|)
    modifies out, out.buffer
    ensures out.Valid() && out.done == old(out.done) + (if pad && !left then l.Blanks() else []) + l.Filled()
  {
    hide Output.Valid, Fill, Signed32, Wrap32, Layout.Blanks;
    assert prefix != NUL ==> Fill(prefix, 1) == [prefix];
    var inner := if precision < count then count else precision;
    if pad && !left {
      PrintBlanks(out, width, inner, l);
    }
    if zeros {
      if prefix != NUL {
        out.WriteChar(1, prefix);
      }
      out.WriteChar(Signed32(Wrap32(inner - count)), ZERO);
    } else {
      out.WriteChar(Signed32(Wrap32(inner - count)), SPACE);
      if prefix != NUL {
        out.WriteChar(1, prefix);
      }
    }
  }

  // ---- integers ----

  /** The switch on the radix. */
  method IntegerFlags(c: byte, given: Spec) returns (sp: Spec, radix: nat)
    requires IsInteger(c)
    ensures sp == Adjusted(c, given) && radix == Radix(c)
  {
    sp := given;
    if c == Ch('p') {
      radix := 10;
      sp := sp.(blank := false, sign := false, zero := false, long := true);
    } else if c == Ch('X') {
      radix := 10;
      sp := sp.(zero := true);
    } else if c == Ch('x') {
      radix := 16;
    } else if c == Ch('o') {
      radix := 8;
    } else if c == Ch('b') {
      radix := 2;
    } else if c == Ch('u') {
      radix := 10;
      sp := sp.(sign := false);
    } else {
      radix := 10;
    }
  }

  lemma ValueBits(c: byte, sp: Spec, v: i64)
    requires !sp.long ==> -0x8000_0000 <= v < 0x8000_0000
    ensures Magnitude(c, sp, v) ==
            if Minus(c, v) then Wrap(Signed(Wrap(0 - v)))
            else if c == Ch('u') && !sp.long then Wrap(Wrap32(v))
            else if c == Ch('x') && !sp.long && v < 0 then Wrap(Wrap32(v))
            else Wrap(v)
  {
  }

  /** The argument with its prefix, as the bits that are printed. */
  method IntegerValue(c: byte, given: Spec, word: u64) returns (sp: Spec, radix: nat, value: u64, prefix: byte)
    requires IsInteger(c)
    ensures var adjusted := Adjusted(c, given);
            var v := Argument(adjusted, word);
            && radix == Radix(c) && value == Magnitude(c, adjusted, v)
            && Prefix(c, adjusted, v) == (if prefix == NUL then [] else [prefix])
            && sp == if adjusted.comma && radix == 10 then adjusted.(zero := false, precision := 1) else adjusted
  {
    hide Wrap, Signed, Wrap32, Magnitude, Adjusted, IsInteger;
    sp, radix := IntegerFlags(c, given);
    var v: i64 := if sp.long then Signed(word) else IntArgument(word);
    ValueBits(c, sp, v);
    if c == Ch('x') && !sp.long && v < 0 {
      v := Wrap32(v);
    }
    prefix := NUL;
    if sp.blank {
      prefix := SPACE;
    }
    if sp.sign {
      prefix := PLUS;
    }
    if radix == 10 {
      if sp.comma {
        sp := sp.(zero := false, precision := 1);
      }
      if v < 0 && c != Ch('u') {
        prefix := MINUS;
        v := Signed(Wrap(0 - v));   // the minimum is its own negation
      } else if c == Ch('u') && !sp.long {
        v := Wrap32(v);
      }
    }
    value := Wrap(v);
  }

  function IntArgument(word: u64): (v: int)
    ensures v == Signed32(Wrap32(word)) && -0x8000_0000 <= v < 0x8000_0000
  {
    Signed32(Wrap32(word))
  }

  lemma LeadsReversed(memory: seq<byte>, cs: seq<byte>)
    requires HoldsReversed(memory, cs) && forall i :: 0 <= i < |cs| ==> cs[i] != NUL
    ensures Leads(memory, |cs|, true, cs)
  {
    forall i | 0 <= i < |cs|
      ensures CharAt(memory, Place(|cs|, true, i), cs[i])
    {
      assert memory[|cs| - i] == cs[i];
    }
  }

  lemma NumeralHasNoNul(u: u64, radix: nat)
    requires 2 <= radix <= 16
    ensures forall i :: 0 <= i < |NumeralChars(u, radix, UPPER)| ==> NumeralChars(u, radix, UPPER)[i] != NUL
  {
    NumeralValue(u, radix);
  }

  /** The digits after the last comma, and the length with commas. */
  method CountCommas(n: nat, comma: bool, ghost cs: seq<byte>) returns (since: nat, count: nat)
    requires n == |cs|
    ensures since < 3 && n <= count <= 2 * n && count == |Content(cs, comma, since)|
    ensures Content(cs, comma, since) == if comma then Grouped(cs) else cs
  {
    since := n % 3;
    if since != 0 {
      since := 3 - since;
    }
    GroupingIsGrouped(cs);
    GroupedLength(cs);
    count := n;
    if comma && n != 0 {
      count := n + (n - 1) / 3;
    }
  }

  lemma LayoutParts(c: byte, given: Spec, word: u64, sp: Spec)
    requires var adjusted := Adjusted(c, given);
             sp == if adjusted.comma && Radix(c) == 10 then adjusted.(zero := false, precision := 1) else adjusted
    ensures var adjusted := Adjusted(c, given);
            var v := Argument(adjusted, word);
            var m, prefix := Magnitude(c, adjusted, v), Prefix(c, adjusted, v);
            var ds := if m == 0 && sp.precision == 0 then [] else NumeralChars(m, Radix(c), UPPER);
            IntegerLayout(c, given, word) ==
            Layout(sp.width, sp.pad, sp.left,
                   if sp.zero && !sp.left && sp.pad && !sp.point then sp.width
                   else Wrap32(sp.precision as int + |prefix|),
                   prefix, true, if sp.comma then Grouped(ds) else ds)
  {
    hide Magnitude, Argument, Minus, Prefix, NumeralChars, Grouped, Wrap32;
  }

  /** The branch for integer conversions, and the field it prints. */
  method PrintInteger(out: Output, c: byte, given: Spec, word: u64)
    requires IsInteger(c) && DigitsFit(c, given, word)
    requires out.Valid() && out.Room(|out.done| + |IntegerLayout(c, given, word).Render()|)
    modifies out, out.buffer
    ensures out.Valid() && out.done == old(out.done) + IntegerLayout(c, given, word).Render()
  {
    hide Leads, Magnitude, Argument, Minus, Prefix, NumeralChars, HoldsReversed, Output.Valid, Output.Room, Grouped,
      Content,
      IntegerLayout, Layout.Render, Adjusted, Wrap32, IsInteger;
    ghost var l := IntegerLayout(c, given, word);
    var sp, radix, value, prefix := IntegerValue(c, given, word);
    var buffer := new byte[MAXIMUM_VALUE_CHARACTERS];
    var n: nat := ValueToString(buffer, value, radix);
    ghost var cs := NumeralChars(value, radix, UPPER);
    NumeralHasNoNul(value, radix);
    LeadsReversed(buffer[..], cs);
    if value == 0 && sp.precision == 0 {
      n, cs := 0, [];
      NothingLeads(buffer[..], 0, true);
    }
    LayoutParts(c, given, word, sp);
    var since, count := CountCommas(n, sp.comma, cs);
    var precision := sp.precision;
    if prefix != NUL {
      count := count + 1;
      precision := Wrap32(precision as int + 1);
    } else {
      Wrap32Within(precision);
    }
    if sp.zero && !sp.left && sp.pad && !sp.point {
      precision := sp.width;
    }
    PrintField(out, sp.width, sp.pad, sp.left, precision, prefix, true, buffer[..], n, true, count, sp.comma, since,
               l, cs);
  }

  lemma Wrap32Within(x: u32)
    ensures Wrap32(x) == x
  {
  }

  lemma NothingLeads(memory: seq<byte>, at: int, back: bool)
    ensures Leads(memory, at, back, [])
  {
  }

  // ---- texts ----

  /** The loop that counts the characters of a string, up to its end or to the precision. */
  method CountText(memory: CString, sp: Spec, ghost t: seq<byte>) returns (count: nat)
    requires memory == t + [NUL] && forall i :: 0 <= i < |t| ==> t[i] != NUL
    ensures count == |Cut(sp, t)|
  {
    count := 0;
    while memory[count] != NUL && (count < sp.precision || !sp.point)
      invariant count <= |t| && (sp.point ==> count <= sp.precision)
      decreases |t| - count
    {
      count := count + 1;
    }
  }

  lemma LeadsText(memory: seq<byte>, sp: Spec, t: seq<byte>)
    requires memory == t + [NUL] && forall i :: 0 <= i < |t| ==> t[i] != NUL
    ensures Leads(memory, 0, false, Cut(sp, t))
  {
  }

  /** Any other conversion, and the field it prints. */
  method PrintText(out: Output, width: u32, sp: Spec, precision: u32, t: CText)
    requires out.Valid()
    requires out.Room(|out.done| + |Layout(width, sp.pad, sp.left, precision, [], false, Cut(sp, t)).Render()|)
    modifies out, out.buffer
    ensures out.Valid()
    ensures out.done == old(out.done) + Layout(width, sp.pad, sp.left, precision, [], false, Cut(sp, t)).Render()
  {
    hide Leads, Output.Valid;
    ghost var l := Layout(width, sp.pad, sp.left, precision, [], false, Cut(sp, t));
    var memory: CString := t + [NUL];
    var count := CountText(memory, sp, t);
    LeadsText(memory, sp, t);
    PrintField(out, width, sp.pad, sp.left, precision, NUL, false, memory, 0, false, count, false, 0, l, Cut(sp, t));
  }

  // ---- the format ----

  /** Characters that an int keeps as they are. */
  predicate Ascii(format: CString) {
    forall i :: 0 <= i < |format| ==> format[i] < 128
  }

  lemma TextStep(format: CString, i: nat, k: nat, args: nat -> u64, strings: u64 -> CText)
    requires i < |format| && format[i] != NUL
    ensures Text(format, i, k, args, strings) ==
            Item(format, i, k, args, strings).Render()
            + Text(format, NextIndex(format, i, k, args), NextArgument(format, i, k, args), args, strings)
  {
  }

  /** The character at i, or the conversion that begins there. */
  method PrintItem(out: Output, format: CString, i: nat, k: nat, args: nat -> u64, strings: u64 -> CText)
    returns (nextIndex: nat, nextArgument: nat)
    requires i < |format| && format[i] != NUL && Fits(format, i, k, args)
    requires out.Valid() && out.Room(|out.done| + |Item(format, i, k, args, strings).Render()|)
    modifies out, out.buffer
    ensures out.Valid() && out.done == old(out.done) + Item(format, i, k, args, strings).Render()
    ensures nextIndex == NextIndex(format, i, k, args) && nextArgument == NextArgument(format, i, k, args)
  {
    hide Output.Valid, Output.Room, IntegerLayout, Layout.Render, IsInteger, IsString, Parse, DigitsFit, Source, Cut;
    if format[i] != PERCENT {
      LiteralCut(format[i]);
      PrintText(out, 0, PLAIN, 1, [format[i]]);
      return i + 1, k;
    }
    var sp, at, used := ReadSpec(format, i + 1, k, args);
    assert ConversionAt(format, i, k, args) == Conversion(sp, at, used);
    var c := format[at];
    nextIndex := if c == NUL then at else at + 1;
    nextArgument := used;
    if IsInteger(c) {
      PrintInteger(out, c, sp, args(used));
      nextArgument := used + 1;
    } else {
      var precision := if IsString(c) && !sp.point then 0 else sp.precision;
      PrintText(out, sp.width, sp, precision, Source(c, args(used), strings));
      if IsString(c) || c == Ch('c') {
        nextArgument := used + 1;
      }
    }
  }

  lemma LiteralCut(c: byte)
    ensures Cut(PLAIN, [c]) == [c]
  {
  }

  /**
    * sprintf_impl. The buffer gets the text of the format up to its last byte but one, and a terminator;
    * without a buffer, put_char is given the whole text.
    */
  method SprintfImpl(buffer: array?<byte>, bufferSize: u32, format: CString, args: nat -> u64, strings: u64 -> CText,
                     putChar: bool)
    returns (n: nat, printed: seq<byte>)
    requires Ascii(format) && Fits(format, 0, 0, args)
    requires buffer != null ==>
               bufferSize >= 1 && !putChar && Min(|Text(format, 0, 0, args, strings)|, bufferSize - 1) < buffer.Length
    modifies buffer
    ensures var text := Text(format, 0, 0, args, strings);
            if buffer == null then n == 0 && printed == if putChar then text else []
            else
              && n == Min(|text|, bufferSize - 1) && printed == []
              && buffer[..n] == text[..n] && buffer[n] == NUL && buffer[n + 1..] == old(buffer[n + 1..])
  {
    hide Text, Fits, Item, NextIndex, NextArgument, Layout.Render;
    ghost var text := Text(format, 0, 0, args, strings);
    var out := new Output(buffer, if buffer != null then bufferSize - 1 else 0, putChar);
    var i, k := 0, 0;
    while format[i] != NUL && !(buffer != null && out.pos >= out.end)
      invariant i < |format| && out.Valid() && Fits(format, i, k, args) && fresh(out)
      invariant out.done + Text(format, i, k, args, strings) == text
      invariant out.buffer == buffer && out.putChar == putChar
      decreases |format| - i
    {
      TextStep(format, i, k, args, strings);
      FitsOn(format, i, k, args);
      i, k := PrintItem(out, format, i, k, args, strings);
    }
    if format[i] == NUL { NoText(format, i, k, args, strings); }
    n, printed := out.pos, out.printed;
    if buffer != null {
      assert out.done[..n] == text[..n];
      assert buffer[n..][1..] == out.before[n..][1..] && out.before[n..][1..] == out.before[n + 1..];
      buffer[n] := NUL;
    }
  }

  lemma FitsOn(format: CString, i: nat, k: nat, args: nat -> u64)
    requires i < |format| && format[i] != NUL && Fits(format, i, k, args)
    ensures Fits(format, NextIndex(format, i, k, args), NextArgument(format, i, k, args), args)
  {
  }

  /** sprintf */
  method Sprintf(buffer: array<byte>, format: CString, args: nat -> u64, strings: u64 -> CText) returns (n: nat)
    requires Ascii(format) && Fits(format, 0, 0, args)
             && Min(|Text(format, 0, 0, args, strings)|, INT16_MAX - 1) < buffer.Length
    modifies buffer
    ensures var text := Text(format, 0, 0, args, strings);
            && n == Min(|text|, INT16_MAX - 1)
            && buffer[..n] == text[..n] && buffer[n] == NUL && buffer[n + 1..] == old(buffer[n + 1..])
  {
    var printed;
    n, printed := SprintfImpl(buffer, INT16_MAX, format, args, strings, false);
  }

  /** printf: its result is 0, which is the number of characters printed exactly when there are none. */
  method PrintfTty(format: CString, args: nat -> u64, strings: u64 -> CText) returns (n: nat, printed: seq<byte>)
    requires Ascii(format) && Fits(format, 0, 0, args)
    ensures n == 0 && printed == Text(format, 0, 0, args, strings)
    ensures n == |printed| <==> Text(format, 0, 0, args, strings) == []
  {
    n, printed := SprintfImpl(null, INT16_MAX, format, args, strings, true);
  }
}

/** libc/stdlib/strtoimax.c: text to 64-bit integers, saturating at the limits of the type. */
module Strtoimax {
  import opened Machine
  import opened Numerals

  // ---- the grammar: spaces, a sign, a prefix, a run of digits ----

  /** A C string: the text ends at the last byte at the latest. */
  predicate Terminated(s: seq<byte>) { |s| > 0 && s[|s| - 1] == NUL }

  type CString = s: seq<byte> | Terminated(s) witness [0]

  predicate ValidBase(base: nat) { base == 0 || 2 <= base <= 36 }

  /** The first character that is not a space. */
  function SkipSpaces(s: CString, i: nat): (j: nat)
    requires i < |s|
    ensures i <= j < |s| && !IsSpace(s[j]) && forall k :: i <= k < j ==> IsSpace(s[k])
    decreases |s| - i
  {
    if IsSpace(s[i]) then SkipSpaces(s, i + 1) else i
  }

  predicate IsSign(c: byte) { c == MINUS || c == PLUS }

  /** The first character behind the sign. */
  function Unsigned(s: CString): (j: nat)
    ensures j < |s|
  {
    var i := SkipSpaces(s, 0);
    if IsSign(s[i]) then i + 1 else i
  }

  predicate Negative(s: CString) {
    s[SkipSpaces(s, 0)] == MINUS
  }

  /** 0x is taken as a prefix whether or not a digit follows it. */
  predicate HexPrefix(s: CString, base: nat) {
    var j := Unsigned(s);
    (base == 0 || base == 16) && s[j] == ZERO && IsX(s[j + 1])
  }

  /** The first character of the digit run. */
  function Start(s: CString, base: nat): (j: nat)
    ensures j < |s|
  {
    if HexPrefix(s, base) then Unsigned(s) + 2 else Unsigned(s)
  }

  function Base(s: CString, base: nat): nat {
    if HexPrefix(s, base) then 16 else if base != 0 then base else if s[Unsigned(s)] == ZERO then 8 else 10
  }

  /** The end of the run of digits below b at i. */
  function RunEnd(s: CString, i: nat, b: nat): (j: nat)
    requires i < |s| && b <= 36
    ensures i <= j < |s| && DigitOf(s[j]) >= b && forall k :: i <= k < j ==> DigitOf(s[k]) < b
    decreases |s| - i
  {
    if DigitOf(s[i]) < b then RunEnd(s, i + 1, b) else i
  }

  function Run(s: seq<byte>, i: nat, j: nat): (ds: seq<nat>)
    requires i <= j <= |s|
    ensures |ds| == j - i && forall k :: 0 <= k < |ds| ==> ds[k] == DigitOf(s[i + k])
  {
    seq<nat>(j - i, k requires 0 <= k < j - i => DigitOf(s[i + k]))
  }

  /** The digits of the number in s. */
  function DigitRun(s: CString, base: nat): seq<nat>
    requires ValidBase(base)
  {
    var i := Start(s, base);
    Run(s, i, RunEnd(s, i, Base(s, base)))
  }

  function Magnitude(s: CString, base: nat): nat
    requires ValidBase(base)
  {
    Value(DigitRun(s, base), Base(s, base))
  }

  /** The integer the text stands for. */
  function Exact(s: CString, base: nat): int
    requires ValidBase(base)
  {
    if Negative(s) then 0 - Magnitude(s, base) else Magnitude(s, base)
  }

  function Clamp(v: int): i64 {
    if v < -TWO_63 then -TWO_63 else if v >= TWO_63 then TWO_63 - 1 else v
  }

  /** What *endptr points at: the character behind the digits, or the whole text when there is no digit. */
  function EndOf(s: CString, base: nat): nat
    requires ValidBase(base)
  {
    var i := Start(s, base);
    var j := RunEnd(s, i, Base(s, base));
    if i < j then j else 0
  }

  // ---- C division ----

  /** C's `/`, which truncates toward zero. */
  function TruncDiv(x: int, y: nat): int
    requires y > 0
  {
    if x >= 0 then x / y else -(-x / y)
  }

  /** C's `%`, whose sign is that of x. */
  function TruncMod(x: int, y: nat): int
    requires y > 0
  {
    if x >= 0 then x % y else -(-x % y)
  }

  /** One more digit passes the limit exactly when the cutoff test says so. */
  lemma CutoffExact(acc: nat, c: nat, b: nat, limit: nat)
    requires b > 0 && c < b
    ensures acc * b + c > limit <==> acc > limit / b || (acc == limit / b && c > limit % b)
  {
    var q := limit / b;
    assert limit == q * b + limit % b;
    if acc > q {
      assert acc * b >= (q + 1) * b;
    } else if acc < q {
      assert (acc + 1) * b <= q * b;
    }
  }

  /** The value of the run with one more digit, and the cutoff test for it. */
  lemma NextDigit(s: CString, i: nat, j: nat, b: nat, limit: nat)
    requires i <= j < |s| && DigitOf(s[j]) < b <= 36
    ensures j + 1 < |s|
    ensures var v, w, c := Value(Run(s, i, j), b), Value(Run(s, i, j + 1), b), DigitOf(s[j]);
            && w == v * b + c && v <= v * b <= w
            && (w > limit <==> v > limit / b || (v == limit / b && c > limit % b))
  {
    hide Value, Run, DigitOf;
    var v := Value(Run(s, i, j), b);
    RunStep(s, i, j);
    ValueStep(Run(s, i, j), DigitOf(s[j]), b);
    TimesGrows(v, b);
    CutoffExact(v, DigitOf(s[j]), b, limit);
    assert DigitOf(NUL) == NO_DIGIT by { NulIsNoDigit(); }
  }

  lemma NulIsNoDigit()
    ensures DigitOf(NUL) == NO_DIGIT
  {
  }

  lemma RunStep(s: CString, i: nat, j: nat)
    requires i <= j < |s|
    ensures Run(s, i, j + 1) == Run(s, i, j) + [DigitOf(s[j])]
  {
    hide DigitOf;
  }

  lemma ValueStep(ds: seq<nat>, d: nat, b: nat)
    ensures Value(ds + [d], b) == Value(ds, b) * b + d
  {
    assert (ds + [d])[..|ds|] == ds;
  }

  lemma TimesGrows(v: nat, b: nat)
    requires b >= 1
    ensures v <= v * b
  {
  }

  lemma RunEndIs(s: CString, i: nat, j: nat, b: nat)
    requires i <= j < |s| && b <= 36 && DigitOf(s[j]) >= b && forall k :: i <= k < j ==> DigitOf(s[k]) < b
    ensures RunEnd(s, i, b) == j
    decreases j - i
  {
    if i < j { RunEndIs(s, i + 1, j, b); }
  }

  lemma SkipSpacesIs(s: CString, i: nat, j: nat)
    requires i <= j < |s| && !IsSpace(s[j]) && forall k :: i <= k < j ==> IsSpace(s[k])
    ensures SkipSpaces(s, i) == j
    decreases j - i
  {
    if i < j { SkipSpacesIs(s, i + 1, j); }
  }

  // ---- the scanning both functions share ----

  /** The statements in front of the cutoff: the index of c, with the sign and the base in force. */
  method Head(s: CString, base: nat) returns (neg: bool, i: nat, b: nat)
    requires ValidBase(base)
    ensures neg == Negative(s) && i == Start(s, base) && b == Base(s, base)
    ensures i < |s| && 2 <= b <= 36
  {
    i := 0;
    while IsSpace(s[i])
      invariant i < |s| && forall k :: 0 <= k < i ==> IsSpace(s[k])
      decreases |s| - i
    {
      i := i + 1;
    }
    SkipSpacesIs(s, 0, i);
    neg := s[i] == MINUS;
    if neg || s[i] == PLUS {
      i := i + 1;
    }
    b := base;
    if (base == 0 || base == 16) && s[i] == ZERO && IsX(s[i + 1]) {
      i := i + 2;
      b := 16;
    }
    if b == 0 {
      b := if s[i] == ZERO then 8 else 10;
    }
  }

  method Strtoimax(s: CString, base: nat) returns (r: i64, erange: bool, end: nat)
    requires ValidBase(base)
    ensures var v := Exact(s, base);
            && (v > 0x7fff_ffff_ffff_ffff ==> r == 0x7fff_ffff_ffff_ffff && erange)
            && (v < -0x8000_0000_0000_0000 ==> r == -0x8000_0000_0000_0000 && erange)
            && (-0x8000_0000_0000_0000 <= v <= 0x7fff_ffff_ffff_ffff ==> r == v && !erange)
    ensures r == Clamp(Exact(s, base))
    ensures end == EndOf(s, base)
  {
    hide Value, Run, DigitOf, SkipSpaces, RunEnd, Unsigned, Negative, HexPrefix, Start, Base;
    var neg, i, b := Head(s, base);
    var cutoff, cutlim := Cutoff(neg, b);
    ghost var limit := if neg then TWO_63 else TWO_63 - 1;
    var acc: i64, any: int := 0, 0;
    ghost var start, v := i, 0;
    assert Value(Run(s, start, i), b) == 0 by { EmptyRun(s, i, b); }
    while DigitOf(s[i]) < b
      invariant start <= i < |s| && (forall k :: start <= k < i ==> DigitOf(s[k]) < b)
      invariant any == 0 <==> i == start
      invariant v == Value(Run(s, start, i), b) && (any < 0 <==> v > limit)
      invariant any >= 0 ==> acc == if neg then 0 - v else v
      invariant any < 0 ==> acc == if neg then -TWO_63 else TWO_63 - 1
      decreases |s| - i
    {
      var c := DigitOf(s[i]);
      NextDigit(s, start, i, b, limit);
      if any < 0 {
      } else if neg {
        if acc < cutoff || (acc == cutoff && c > cutlim) {
          any := -1;
          acc := -TWO_63;
        } else {
          any := 1;
          assert acc * b == 0 - v * b;
          acc := acc * b;
          acc := acc - c;
        }
      } else {
        if acc > cutoff || (acc == cutoff && c > cutlim) {
          any := -1;
          acc := TWO_63 - 1;
        } else {
          any := 1;
          acc := acc * b;
          acc := acc + c;
        }
      }
      i, v := i + 1, Value(Run(s, start, i + 1), b);
    }
    RunEndIs(s, start, i, b);
    r, erange := acc, any < 0;
    end := if any != 0 then i else 0;
  }

  lemma EmptyRun(s: CString, i: nat, b: nat)
    requires i < |s|
    ensures Value(Run(s, i, i), b) == 0
  {
  }

  /** The limit of the type divided by the base, with C's division. */
  method Cutoff(neg: bool, b: nat) returns (cutoff: i64, cutlim: nat)
    requires 2 <= b <= 36
    ensures var limit := if neg then TWO_63 else TWO_63 - 1;
            cutlim == limit % b && cutoff == if neg then 0 - limit / b else limit / b
  {
    var cut: int := if neg then -TWO_63 else TWO_63 - 1;
    var lim: int := TruncMod(cut, b);
    cut := TruncDiv(cut, b);
    if neg {
      // the step for a division that rounds down, which C's does not
      if lim > 0 {
        lim := lim - b;
        cut := cut + 1;
      }
      lim := -lim;
    }
    cutoff, cutlim := cut, lim;
  }

  method Strtoumax(s: CString, base: nat) returns (r: u64, erange: bool, end: nat)
    requires ValidBase(base)
    ensures erange <==> Magnitude(s, base) >= TWO_64
    ensures r == if erange then TWO_64 - 1 else Wrap(Exact(s, base))
    ensures end == EndOf(s, base)
  {
    hide Wrap, Value, Run, DigitOf, SkipSpaces, RunEnd, Unsigned, Negative, HexPrefix, Start, Base;
    var neg, i, b := Head(s, base);
    var cutoff: u64 := (TWO_64 - 1) / b;
    var cutlim: int := (TWO_64 - 1) % b;
    var acc: u64, any: int := 0, 0;
    ghost var start, v := i, 0;
    assert Value(Run(s, start, i), b) == 0 by { EmptyRun(s, i, b); }
    while DigitOf(s[i]) < b
      invariant start <= i < |s| && (forall k :: start <= k < i ==> DigitOf(s[k]) < b)
      invariant any == 0 <==> i == start
      invariant v == Value(Run(s, start, i), b) && (any < 0 <==> v > TWO_64 - 1)
      invariant acc == if any < 0 then TWO_64 - 1 else v
      decreases |s| - i
    {
      var c := DigitOf(s[i]);
      NextDigit(s, start, i, b, TWO_64 - 1);
      if any < 0 {
      } else if acc > cutoff || (acc == cutoff && c > cutlim) {
        any := -1;
        acc := TWO_64 - 1;
      } else {
        any := 1;
        acc := acc * b;
        acc := acc + c;
      }
      i, v := i + 1, Value(Run(s, start, i + 1), b);
    }
    RunEndIs(s, start, i, b);
    if any >= 0 { WrapWithin(v); }
    if neg && any > 0 {
      acc := Wrap(0 - acc);
    }
    r, erange := acc, any < 0;
    end := if any != 0 then i else 0;
  }

  // ---- the subject sequence of the standard ----

  /** Section 7.22.1.4 of ISO/IEC 9899:2018 takes 0x as a prefix only in front of a hexadecimal digit. */
  predicate StandardPrefix(s: CString, base: nat) {
    HexPrefix(s, base) && DigitOf(s[Unsigned(s) + 2]) < 16
  }

  function StandardBase(s: CString, base: nat): nat {
    if StandardPrefix(s, base) then 16 else if base != 0 then base else if s[Unsigned(s)] == ZERO then 8 else 10
  }

  function StandardEnd(s: CString, base: nat): nat
    requires ValidBase(base)
  {
    var i := if StandardPrefix(s, base) then Unsigned(s) + 2 else Unsigned(s);
    var j := RunEnd(s, i, StandardBase(s, base));
    if i < j then j else 0
  }

  /**
    * *endptr is where the standard puts it unless a prefix has no digit behind it;
    * then it is the whole text instead of the rest behind the zero, and the value is right.
    */
  lemma EndMeetsStandardIff(s: CString, base: nat)
    requires ValidBase(base)
    ensures var bare := HexPrefix(s, base) && DigitOf(s[Unsigned(s) + 2]) >= 16;
            && (EndOf(s, base) == StandardEnd(s, base) <==> !bare)
            && (bare ==> EndOf(s, base) == 0 && StandardEnd(s, base) == Unsigned(s) + 1 && Exact(s, base) == 0)
  {
    if HexPrefix(s, base) && DigitOf(s[Unsigned(s) + 2]) >= 16 {
      var j := Unsigned(s);
      RunEndIs(s, j, j + 1, StandardBase(s, base));
    }
  }

  /** The text 0x: *endptr is at its start, and the standard's behind the zero. */
  lemma BarePrefix()
    ensures var s: CString := [ZERO, 0x78, NUL];
            && EndOf(s, 16) == EndOf(s, 0) == 0 && StandardEnd(s, 16) == StandardEnd(s, 0) == 1
  {
    hide EndOf, StandardEnd;
    var s: CString := [ZERO, 0x78, NUL];
    BareText(s, 16);
    BareText(s, 0);
    EndMeetsStandardIff(s, 16);
    EndMeetsStandardIff(s, 0);
  }

  lemma BareText(s: CString, base: nat)
    requires s == [ZERO, 0x78, NUL] && (base == 16 || base == 0)
    ensures Unsigned(s) == 0 && HexPrefix(s, base) && DigitOf(s[2]) >= 16
  {
    SkipSpacesIs(s, 0, 0);
  }

  // ---- text put together from its parts ----

  /** The text is sp, sign, cs and rest: spaces, at most one sign, digits, and something that goes no further. */
  ghost predicate Parts(s: CString, sp: seq<byte>, sign: seq<byte>, cs: seq<byte>, rest: seq<byte>, b: nat) {
    && s == sp + sign + cs + rest && rest != []
    && (forall k :: 0 <= k < |sp| ==> IsSpace(sp[k]))
    && (sign == [] || (|sign| == 1 && IsSign(sign[0])))
    && (forall k :: 0 <= k < |cs| ==> DigitOf(cs[k]) < b)
    && DigitOf(rest[0]) >= b && !IsX(rest[0])
  }

  lemma PartsStart(s: CString, sp: seq<byte>, sign: seq<byte>, cs: seq<byte>, rest: seq<byte>, b: nat)
    requires 2 <= b <= 36 && cs != [] && Parts(s, sp, sign, cs, rest, b)
    ensures var i := |sp| + |sign|;
            && SkipSpaces(s, 0) == |sp| && Unsigned(s) == i && Negative(s) == (sign == [MINUS])
            && i + 1 < |s| && s[i] == cs[0] && (IsX(s[i + 1]) ==> b > 16)
  {
    var i := |sp| + |sign|;
    assert forall k :: 0 <= k < |sp| ==> s[k] == sp[k];
    assert s[i] == cs[0] && s[|sp|] == if sign == [] then cs[0] else sign[0];
    SkipSpacesIs(s, 0, |sp|);
    if |cs| > 1 {
      assert s[i + 1] == cs[1];
    } else {
      assert s[i + 1] == rest[0];
    }
  }

  /** Such a text is read as its sign and its digits, up to the rest. */
  lemma PartsRead(s: CString, sp: seq<byte>, sign: seq<byte>, cs: seq<byte>, rest: seq<byte>, b: nat)
    requires 2 <= b <= 36 && cs != [] && Parts(s, sp, sign, cs, rest, b)
    ensures Exact(s, b) == var v := Value(Run(cs, 0, |cs|), b); if sign == [MINUS] then 0 - v else v
    ensures EndOf(s, b) == |s| - |rest|
  {
    hide SkipSpaces, IsX, Value;
    PartsStart(s, sp, sign, cs, rest, b);
    var i := |sp| + |sign|;
    var j := i + |cs|;
    assert Start(s, b) == i && Base(s, b) == b;
    assert forall k :: 0 <= k < |cs| ==> s[i + k] == cs[k];
    assert forall k :: i <= k < j ==> s[k] == cs[k - i];
    assert s[j] == rest[0];
    RunEndIs(s, i, j, b);
    assert DigitRun(s, b) == Run(cs, 0, |cs|);
  }

  lemma CharsRun(ds: seq<nat>, ten: byte)
    requires (forall i :: 0 <= i < |ds| ==> ds[i] < NO_DIGIT) && (ten == UPPER || ten == LOWER)
    ensures Run(Chars(ds, ten), 0, |ds|) == ds
  {
  }

  /** Without digits the value is 0. */
  lemma BlankRead(s: CString, sp: seq<byte>, sign: seq<byte>, n: nat, b: nat)
    requires 2 <= b <= 36 && (sign == [] || (|sign| == 1 && IsSign(sign[0])))
    requires forall k :: 0 <= k < |sp| ==> IsSpace(sp[k])
    requires s == sp + sign + seq(n, _ => SPACE) + [NUL]
    ensures Exact(s, b) == 0
  {
    var i := if sign == [] then |s| - 1 else |sp|;
    assert forall k :: 0 <= k < i ==> IsSpace(s[k]);
    assert s[i] == if sign == [] then NUL else sign[0];
    SkipSpacesIs(s, 0, i);
    var j := Unsigned(s);
    assert s[j] == SPACE || s[j] == NUL;
    RunEndIs(s, j, j, b);
  }

  // ---- the grammar with its characters ----

  /** Blanks, tabs and line ends in front of a number, and a sign. */
  ghost predicate SpacesAndSign(sp: seq<byte>, sign: seq<byte>) {
    (forall k :: 0 <= k < |sp| ==> sp[k] in {0x20, 9, 10, 11, 12, 13}) && sign in {[], [0x2b], [0x2d]}
  }

  lemma SpacesSkipped(s: CString, sp: seq<byte>, sign: seq<byte>, rest: seq<byte>)
    requires SpacesAndSign(sp, sign) && s == sp + sign + rest && rest != []
    requires sign == [] ==> !IsSpace(rest[0]) && !IsSign(rest[0])
    ensures SkipSpaces(s, 0) == |sp| && Unsigned(s) == |sp| + |sign| && Negative(s) == (sign == [0x2d])
  {
    hide SkipSpaces;
    assert forall k :: 0 <= k < |sp| ==> s[k] == sp[k];
    assert s[|sp|] == if sign == [] then rest[0] else sign[0];
    SkipSpacesIs(s, 0, |sp|);
  }

  /** The digits between two other parts. */
  lemma DigitsBetween(s: CString, front: seq<byte>, cs: seq<byte>, rest: seq<byte>, b: nat)
    requires s == front + (cs + rest) && rest != [] && b <= 36
    requires (forall k :: 0 <= k < |cs| ==> DigitOf(cs[k]) < b) && DigitOf(rest[0]) >= b
    ensures var i := |front|;
            && RunEnd(s, i, b) == i + |cs| && Run(s, i, i + |cs|) == Run(cs, 0, |cs|)
            && s[i] == if cs != [] then cs[0] else rest[0]
  {
    hide DigitOf, RunEnd;
    var i := |front|;
    var n := i + |cs|;
    assert forall k :: 0 <= k < |cs| ==> s[i + k] == cs[k];
    assert forall k :: i <= k < n ==> s[k] == cs[k - i];
    assert s[n] == rest[0];
    RunEndIs(s, i, n, b);
  }

  lemma ReadFrom(s: CString, base: nat, i: nat, b: nat, cs: seq<byte>)
    requires ValidBase(base) && b <= 36 && Start(s, base) == i && Base(s, base) == b && cs != []
    requires i + |cs| < |s| && RunEnd(s, i, b) == i + |cs| && Run(s, i, i + |cs|) == Run(cs, 0, |cs|)
    ensures Exact(s, base) == var v := Value(Run(cs, 0, |cs|), b); if Negative(s) then 0 - v else v
    ensures EndOf(s, base) == i + |cs|
  {
    hide Start, Base, RunEnd, Run, Value, Negative;
  }

  lemma AutoBase(s: CString, j: nat)
    requires Unsigned(s) == j && (s[j] == ZERO ==> j + 1 < |s| && !IsX(s[j + 1]))
    ensures Start(s, 0) == j && Base(s, 0) == if s[j] == ZERO then 8 else 10
  {
    hide Unsigned;
  }

  lemma PrefixBase(s: CString, j: nat, base: nat)
    requires Unsigned(s) == j && j + 2 < |s| && s[j] == ZERO && IsX(s[j + 1]) && (base == 0 || base == 16)
    ensures Start(s, base) == j + 2 && Base(s, base) == 16
  {
    hide Unsigned;
  }

  /** 0x or 0X in front of hexadecimal digits makes the number hexadecimal in bases 0 and 16. */
  lemma PrefixRead(s: CString, sp: seq<byte>, sign: seq<byte>, x: byte, cs: seq<byte>, rest: seq<byte>, base: nat)
    requires SpacesAndSign(sp, sign) && s == sp + sign + ([0x30, x] + cs + rest) && cs != [] && rest != []
    requires (x == 0x78 || x == 0x58) && (base == 0 || base == 16)
    requires (forall k :: 0 <= k < |cs| ==> DigitOf(cs[k]) < 16) && DigitOf(rest[0]) >= 16
    ensures Exact(s, base) == var v := Value(Run(cs, 0, |cs|), 16); if sign == [0x2d] then 0 - v else v
    ensures EndOf(s, base) == |s| - |rest|
  {
    hide SkipSpaces, Unsigned, Value, Negative, DigitOf, RunEnd, Run, SpacesAndSign, Start, Base, Exact, EndOf;
    var all, front := [0x30, x] + cs + rest, sp + sign + [0x30, x];
    SpacesSkipped(s, sp, sign, all);
    var j := |sp| + |sign|;
    assert s[j] == all[0] && s[j + 1] == all[1];
    assert s == front + (cs + rest);
    DigitsBetween(s, front, cs, rest, 16);
    PrefixBase(s, j, base);
    ReadFrom(s, base, j + 2, 16, cs);
  }

  /** Base 0 reads a number as octal when it begins with 0, and as decimal when it begins with another digit. */
  lemma AutoBaseRead(s: CString, sp: seq<byte>, sign: seq<byte>, cs: seq<byte>, rest: seq<byte>, b: nat)
    requires SpacesAndSign(sp, sign) && s == sp + sign + (cs + rest) && cs != [] && rest != []
    requires 0x30 <= cs[0] <= 0x39 && (cs == [0x30] ==> rest[0] != 0x78 && rest[0] != 0x58)
    requires b == (if cs[0] == 0x30 then 8 else 10)
    requires (forall k :: 0 <= k < |cs| ==> DigitOf(cs[k]) < b) && DigitOf(rest[0]) >= b
    ensures Exact(s, 0) == var v := Value(Run(cs, 0, |cs|), b); if sign == [0x2d] then 0 - v else v
    ensures EndOf(s, 0) == |s| - |rest|
  {
    hide SkipSpaces, Unsigned, Value, Negative, DigitOf, RunEnd, Run, SpacesAndSign, Start, Base, Exact, EndOf;
    var j := |sp + sign|;
    SpacesSkipped(s, sp, sign, cs + rest);
    DigitsBetween(s, sp + sign, cs, rest, b);
    if cs[0] == 0x30 { SecondIsNoX(s, sp + sign, cs, rest); }
    AutoBase(s, j);
    ReadFrom(s, 0, j, b, cs);
  }

  lemma SecondIsNoX(s: CString, front: seq<byte>, cs: seq<byte>, rest: seq<byte>)
    requires s == front + (cs + rest) && cs != [] && rest != [] && forall k :: 0 <= k < |cs| ==> DigitOf(cs[k]) < 8
    requires |cs| == 1 ==> rest[0] != 0x78 && rest[0] != 0x58
    ensures |front| + 1 < |s| && !IsX(s[|front| + 1])
  {
    assert s[|front| + 1] == if |cs| > 1 then cs[1] else rest[0];
  }

  /** A text in which something else stands in the place of the number is read as 0, up to its start. */
  lemma NoNumber(s: CString, sp: seq<byte>, sign: seq<byte>, rest: seq<byte>, base: nat)
    requires SpacesAndSign(sp, sign) && s == sp + sign + rest && rest != [] && ValidBase(base)
    requires var c := rest[0]; !(0x30 <= c <= 0x39) && !(0x41 <= c <= 0x5a) && !(0x61 <= c <= 0x7a)
    requires sign == [] ==> var c := rest[0]; c !in {0x20, 9, 10, 11, 12, 13} && c != 0x2b && c != 0x2d
    ensures Exact(s, base) == 0 && EndOf(s, base) == 0
  {
    hide SkipSpaces, Unsigned, Negative;
    SpacesSkipped(s, sp, sign, rest);
    var j := |sp| + |sign|;
    assert s[j] == rest[0];
    RunEndIs(s, j, j, Base(s, base));
  }
}

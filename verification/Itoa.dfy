/** libc/stdlib/itoa.c and libc/string/strrev.c: 64-bit integers to text. */
module Itoa {
  import opened Common
  import opened Machine
  import opened Numerals
  import Strtoimax

  /** The value that is printed: the bits of v, or its magnitude when it gets a sign. */
  function UnsignedValue(v: i64, base: nat): u64 {
    if v < 0 && base == 10 then 0 - v else Wrap(v)
  }

  function Signs(v: i64, base: nat): seq<byte> {
    if v < 0 && base == 10 then [MINUS] else []
  }

  /** The text of v. */
  function Text(v: i64, base: nat): (t: seq<byte>)
    requires 2 <= base <= 36
  {
    Signs(v, base) + NumeralChars(UnsignedValue(v, base), base, LOWER)
  }

  // ---- what the text says ----

  lemma TextRead(v: i64, base: nat)
    requires 2 <= base <= 36
    ensures var s := Text(v, base) + [NUL];
            && Strtoimax.Exact(s, base) == (if v < 0 && base == 10 then v else Wrap(v))
            && Strtoimax.EndOf(s, base) == |s| - 1
  {
    hide Strtoimax.EndOf, Strtoimax.Start, Strtoimax.Unsigned, Digits, Value;
    var u := UnsignedValue(v, base);
    var cs := NumeralChars(u, base, LOWER);
    NumeralValue(u, base);
    Strtoimax.CharsRun(Numeral(u, base), LOWER);
    var s := Text(v, base) + [NUL];
    assert s == [] + Signs(v, base) + cs + [NUL];
    hide Strtoimax.Exact;
    Strtoimax.PartsRead(s, [], Signs(v, base), cs, [NUL], base);
  }

  /** Reading the text back gives the value modulo 2^64 in every base, and consumes all of it. */
  lemma UnsignedRoundTrip(v: i64, base: nat)
    requires 2 <= base <= 36
    ensures var s := Text(v, base) + [NUL];
            && Strtoimax.Magnitude(s, base) < TWO_64
            && Wrap(Strtoimax.Exact(s, base)) == Wrap(v) && Strtoimax.EndOf(s, base) == |s| - 1
  {
    TextRead(v, base);
    WrapWithin(Wrap(v));
  }

  /** In decimal the signed value comes back, the minimum included, without ERANGE. */
  lemma SignedRoundTrip(v: i64)
    ensures var s := Text(v, 10) + [NUL];
            && Strtoimax.Exact(s, 10) == v == Strtoimax.Clamp(Strtoimax.Exact(s, 10))
            && Strtoimax.EndOf(s, 10) == |s| - 1
  {
    hide Strtoimax.Exact, Strtoimax.EndOf, Text, Wrap;
    TextRead(v, 10);
    if v >= 0 { WrapWithin(v); }
  }

  /** Different values have different texts. */
  lemma TextsDiffer(v: i64, w: i64, base: nat)
    requires 2 <= base <= 36 && Text(v, base) == Text(w, base)
    ensures v == w
  {
    hide Strtoimax.Exact, Strtoimax.EndOf, Strtoimax.Magnitude, Text, Wrap, Signed;
    UnsignedRoundTrip(v, base);
    UnsignedRoundTrip(w, base);
    SignedWrap(v);
    SignedWrap(w);
  }

  /** A buffer of 65 bytes is always enough. */
  lemma TextLength(v: i64, base: nat)
    requires 2 <= base <= 36
    ensures 1 <= |Text(v, base)| <= 64
  {
    var u := UnsignedValue(v, base);
    NumeralLength(u, base);
    if v < 0 && base == 10 {
      DigitCount(u, 10, 19);
      TenPower19();
    }
  }

  /** A minus sign in front of negative decimal numbers, and otherwise digits and small letters only. */
  lemma TextCharacters(v: i64, base: nat, i: nat)
    requires 2 <= base <= 36 && i < |Text(v, base)|
    ensures var c, signed := Text(v, base)[i], v < 0 && base == 10;
            if signed && i == 0 then c == 0x2d else 0x30 <= c <= 0x39 || (0x61 <= c <= 0x7a && base > 10)
  {
    hide Numeral;
    var u := UnsignedValue(v, base);
    var first := |Signs(v, base)|;
    if i >= first { NumeralCharacters(u, base, i - first); }
  }

  /** ff */
  lemma TextOf255()
    ensures Text(255, 16) == [0x66, 0x66]
  {
    assert Digits(255, 16) == Digits(15, 16) + [15] && Digits(15, 16) == Digits(0, 16) + [15];
  }

  // ---- the code ----

  /** The text in a buffer ends at n. */
  ghost predicate TextEnds(s: seq<byte>, n: nat) {
    n < |s| && s[n] == NUL && forall i :: 0 <= i < n ==> s[i] != NUL
  }

  method Strlen(str: array<byte>, ghost n: nat) returns (len: nat)
    requires TextEnds(str[..], n)
    ensures len == n
  {
    len := 0;
    while str[len] != NUL
      invariant len <= n
      decreases n - len
    {
      assert str[..][len] == str[len];
      len := len + 1;
    }
    assert str[..][len] == str[len];
  }

  /** strrev: the text is reversed in place. */
  method Strrev(str: array<byte>, ghost n: nat)
    requires TextEnds(str[..], n)
    modifies str
    ensures str[..n] == Reversed(old(str[..n])) && str[n..] == old(str[n..])
  {
    var len := Strlen(str, n);
    var i, j := len as int - 1, 0;
    while i > j
      invariant 0 <= j <= n && i == n - 1 - j && j <= i + 1
      invariant forall k :: 0 <= k < j ==> str[k] == old(str[n - 1 - k]) && str[n - 1 - k] == old(str[k])
      invariant forall k :: j <= k <= i ==> str[k] == old(str[k])
      invariant str[n..] == old(str[n..])
      decreases i
    {
      var ch := str[i];
      str[i] := str[j];
      str[j] := ch;
      i, j := i - 1, j + 1;
    }
  }

  lemma ReversedTwice<T>(s: seq<T>)
    ensures Reversed(Reversed(s)) == s
  {
  }

  lemma ReversedSum<T>(s: seq<T>, t: seq<T>)
    requires |s| <= 1
    ensures Reversed(s + t) == Reversed(t) + s
  {
  }

  lemma ReversedCharacters(s: seq<byte>)
    requires forall i :: 0 <= i < |s| ==> s[i] != NUL
    ensures forall i :: 0 <= i < |Reversed(s)| ==> Reversed(s)[i] != NUL
  {
  }

  lemma TextHasNoNul(v: i64, base: nat)
    requires 2 <= base <= 36
    ensures forall i :: 0 <= i < |Text(v, base)| ==> Text(v, base)[i] != NUL
  {
    NumeralValue(UnsignedValue(v, base), base);
  }

  lemma UnsignedIs(v: i64, base: nat)
    ensures Wrap(Signed(Wrap(0 - v))) == if v < 0 then 0 - v else Wrap(0 - v)
    ensures Wrap(v) == 0 <==> v == 0
  {
  }

  lemma TextOfZero(base: nat)
    requires 2 <= base <= 36
    ensures Text(0, base) == [ZERO]
  {
  }

  /** lltoa */
  method Lltoa(value: i64, str: array<byte>, base: nat)
    requires 2 <= base <= 36 && |Text(value, base)| < str.Length
    modifies str
    ensures var t := Text(value, base);
            str[..|t| + 1] == t + [NUL] && str[|t| + 1..] == old(str[|t| + 1..])
  {
    hide NumeralChars, Wrap, Signed, TextEnds;
    ghost var t := Text(value, base);
    ghost var before := str[|t| + 1..];
    var uvalue: u64 := Wrap(value);
    UnsignedIs(value, base);
    if uvalue == 0 {
      TextOfZero(base);
      str[0] := ZERO;
      str[1] := NUL;
      assert value == 0;
      return;
    }
    var isNegative := false;
    if value < 0 && base == 10 {
      isNegative := true;
      uvalue := Wrap(Signed(Wrap(0 - value)));   // -value of a long long, whose minimum is its own negation
    }
    ghost var cs := NumeralChars(UnsignedValue(value, base), base, LOWER);
    var i := PutDigits(uvalue, str, base, |cs|);
    assert str[i..][|t| + 1 - i..] == before;
    if isNegative {
      str[i] := MINUS;
      i := i + 1;
    }
    ReversedSum(Signs(value, base), cs);
    assert str[..i] == Reversed(t);
    TextHasNoNul(value, base);
    ReversedCharacters(t);
    Finish(str, i, t);
  }

  /** The last statements of lltoa. */
  method Finish(str: array<byte>, i: nat, ghost t: seq<byte>)
    requires i == |t| < str.Length && str[..i] == Reversed(t)
    requires forall k :: 0 <= k < |Reversed(t)| ==> Reversed(t)[k] != NUL
    modifies str
    ensures str[..i + 1] == t + [NUL] && str[i + 1..] == old(str[i + 1..])
  {
    str[i] := NUL;
    ghost var s := str[..];
    assert s[..i] == Reversed(t);
    assert forall k {:trigger s[k]} :: 0 <= k < i ==> s[k] == Reversed(t)[k];
    Strrev(str, i);
    ReversedTwice(t);
    assert str[i..] == s[i..];
    assert str[i] == str[i..][0] && str[i..][1..] == str[i + 1..] && s[i..][1..] == s[i + 1..];
  }

  lemma NumeralStep(u: u64, base: nat, all: seq<nat>, m: nat)
    requires 2 <= base <= 36 && u > 0 && m <= |all| && all[..m] == Digits(u, base)
    ensures 0 <= u / base < u && m > 0 && all[m - 1] == u % base && all[..m - 1] == Digits(u / base, base)
  {
    hide Digits;
    DigitsStep(u, base);
    assert all[..m - 1] == all[..m][..m - 1] && all[m - 1] == all[..m][m - 1];
  }

  /** The loop of lltoa: the digits, last one first. */
  method PutDigits(value: u64, str: array<byte>, base: nat, ghost n: nat) returns (i: nat)
    requires 2 <= base <= 36 && value > 0 && n == |NumeralChars(value, base, LOWER)| <= str.Length
    modifies str
    ensures i == n && str[..i] == Reversed(NumeralChars(value, base, LOWER)) && str[i..] == old(str[i..])
  {
    hide Digits;
    ghost var all := Numeral(value, base);
    NumeralValue(value, base);
    i := 0;
    var uvalue: u64 := value;
    assert all[..n] == Digits(value, base);
    while uvalue != 0
      invariant i <= n == |all| && all[..n - i] == Digits(uvalue, base)
      invariant str[..i] == Reversed(Chars(all, LOWER))[..i]
      invariant str[n..] == old(str[n..])
      decreases uvalue
    {
      NumeralStep(uvalue, base, all, n - i);
      var rem := uvalue % base;
      str[i] := if rem > 9 then rem - 10 + 0x61 else rem + 0x30;
      i := i + 1;
      uvalue := uvalue / base;
    }
    NoDigits(base);
  }
}

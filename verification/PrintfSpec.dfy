/** libc/stdio/printf.c: fields, and the whole text a format stands for. */
module PrintfSpec {
  import opened Common
  import opened Machine
  import opened Numerals
  import Strtoimax

  type CString = Strtoimax.CString
  type u32 = x: int | 0 <= x < TWO_32

  /** A string argument: no NUL inside, and short enough for a 32-bit count. */
  type CText = t: seq<byte> | |t| < 0x7fff_ffff && forall i :: 0 <= i < |t| ==> t[i] != NUL witness []

  function Wrap32(x: int): u32 { x % TWO_32 }

  /** A uint32_t passed as an int32_t. */
  function Signed32(x: u32): int { if x < 0x8000_0000 then x else x - TWO_32 }

  function Ch(c: char): byte
    requires c as int < 128
  {
    c as int
  }

  // ---- the conversion specification ----

  /** Flags, width and precision between % and the conversion character. */
  datatype Spec = Spec(left: bool, sign: bool, blank: bool, comma: bool, long: bool, zero: bool, pad: bool, point: bool,
                       width: u32, precision: u32)

  const PLAIN := Spec(false, false, false, false, false, false, false, false, 0, 1)

  /** The specification read, the index of the conversion character, and the arguments used. */
  datatype Conversion = Conversion(spec: Spec, at: nat, used: nat)

  /** A number is the precision behind a point, and the width otherwise. */
  function WithNumber(sp: Spec, n: u32): Spec {
    if sp.point then sp.(precision := n) else sp.(pad := true, width := n)
  }

  predicate IsFlag(c: byte) {
    c == Ch('.') || c == Ch('-') || c == Ch('+') || c == Ch(' ') || c == Ch(',') || c == Ch('L') || c == Ch('l')
  }

  function WithFlag(sp: Spec, c: byte): Spec
    requires IsFlag(c)
  {
    if c == Ch('.') then sp.(point := true)
    else if c == Ch('-') then sp.(left := true)
    else if c == Ch('+') then sp.(sign := true)
    else if c == Ch(' ') then sp.(blank := true)
    else if c == Ch(',') then sp.(comma := true)
    else sp.(long := true)
  }

  /** The decimal number at i, modulo 2^32. */
  function NumberAt(format: CString, i: nat): (n: u32)
    requires i < |format|
  {
    Wrap32(Value(Strtoimax.Run(format, i, Strtoimax.RunEnd(format, i, 10)), 10))
  }

  function Parse(format: CString, i: nat, sp: Spec, k: nat, args: nat -> u64): (r: Conversion)
    requires i < |format|
    ensures i <= r.at < |format|
    decreases |format| - i
  {
    var c := format[i];
    if IsFlag(c) then Parse(format, i + 1, WithFlag(sp, c), k, args)
    else if c == Ch('*') then Parse(format, i + 1, WithNumber(sp, Wrap32(args(k))), k + 1, args)
    else if IsDigit(c) then
      var zero := sp.zero || (c == ZERO && !sp.point);
      Parse(format, Strtoimax.RunEnd(format, i, 10), WithNumber(sp.(zero := zero), NumberAt(format, i)), k, args)
    else if c == NUL then Conversion(sp.(precision := 0), i, k)
    else Conversion(sp, i, k)
  }

  predicate Has(fs: seq<byte>, c: byte) { c in fs }

  /** The specification with the flags of a run of flag characters: their order and number do not matter. */
  function WithFlags(sp: Spec, fs: seq<byte>): Spec {
    Spec(sp.left || Has(fs, Ch('-')), sp.sign || Has(fs, Ch('+')), sp.blank || Has(fs, Ch(' ')),
         sp.comma || Has(fs, Ch(',')), sp.long || Has(fs, Ch('l')) || Has(fs, Ch('L')), sp.zero, sp.pad,
         sp.point || Has(fs, Ch('.')), sp.width, sp.precision)
  }

  lemma NoFlags(sp: Spec)
    ensures WithFlags(sp, []) == sp
  {
  }

  lemma ParseFlag(format: CString, i: nat, sp: Spec, k: nat, args: nat -> u64)
    requires i + 1 < |format| && IsFlag(format[i])
    ensures Parse(format, i, sp, k, args) == Parse(format, i + 1, WithFlag(sp, format[i]), k, args)
  {
    hide IsFlag, WithFlag;
  }

  /** A run of flag characters is read as the set of its flags. */
  lemma {:induction false} ParseFlags(format: CString, i: nat, n: nat, sp: Spec, k: nat, args: nat -> u64)
    requires i + n < |format| && forall j :: i <= j < i + n ==> IsFlag(format[j])
    ensures Parse(format, i, sp, k, args) == Parse(format, i + n, WithFlags(sp, format[i..i + n]), k, args)
    decreases n
  {
    hide Parse, WithFlag, WithFlags, IsFlag;
    if n == 0 {
      NoFlags(sp);
      assert format[i..i] == [];
    } else {
      ParseFlag(format, i, sp, k, args);
      ParseFlags(format, i + 1, n - 1, WithFlag(sp, format[i]), k, args);
      FlagFirst(sp, format[i], format[i + 1..i + n]);
      assert format[i..i + n] == [format[i]] + format[i + 1..i + n];
    }
  }

  lemma FlagFirst(sp: Spec, c: byte, fs: seq<byte>)
    requires IsFlag(c)
    ensures WithFlags(WithFlag(sp, c), fs) == WithFlags(sp, [c] + fs)
  {
    hide Has, IsFlag, WithFlag, WithFlags;
    forall x: byte
      ensures Has([c] + fs, x) <==> x == c || Has(fs, x)
    {
      FirstHas(c, fs, x);
    }
    FlagAdds(sp, c, fs, [c] + fs);
  }

  lemma FlagAdds(sp: Spec, c: byte, fs: seq<byte>, all: seq<byte>)
    requires IsFlag(c) && forall x: byte :: Has(all, x) <==> x == c || Has(fs, x)
    ensures WithFlags(WithFlag(sp, c), fs) == WithFlags(sp, all)
  {
    hide Has, IsFlag, WithFlag;
    FlagFields(sp, c);
  }

  /** One flag character sets its flag and leaves everything else. */
  lemma FlagFields(sp: Spec, c: byte)
    requires IsFlag(c)
    ensures WithFlag(sp, c) ==
            Spec(sp.left || c == Ch('-'), sp.sign || c == Ch('+'), sp.blank || c == Ch(' '), sp.comma || c == Ch(','),
                 sp.long || c == Ch('l') || c == Ch('L'), sp.zero, sp.pad,
                 sp.point || c == Ch('.'), sp.width, sp.precision)
  {
  }

  lemma FirstHas(c: byte, fs: seq<byte>, x: byte)
    ensures Has([c] + fs, x) <==> x == c || Has(fs, x)
  {
    var all := [c] + fs;
    if x in fs {
      var j :| 0 <= j < |fs| && fs[j] == x;
      assert all[j + 1] == x;
    }
    if x == c { assert all[0] == x; }
  }

  /** A number behind the flags is read up to its end. */
  lemma ParseNumber(format: CString, i: nat, j: nat, sp: Spec, k: nat, args: nat -> u64)
    requires i <= j < |format| && (forall l :: i <= l < j ==> IsDigit(format[l])) && !IsDigit(format[j])
    ensures Parse(format, i, sp, k, args) ==
            if i == j then Parse(format, j, sp, k, args)
            else
              var n := Wrap32(Value(Strtoimax.Run(format, i, j), 10));
              Parse(format, j, WithNumber(sp.(zero := sp.zero || (format[i] == ZERO && !sp.point)), n), k, args)
  {
    if i < j { Strtoimax.RunEndIs(format, i, j, 10); }
  }

  /** The flags of the documented form; 0 is one of them wherever it stands in front of the width. */
  const FLAGS: set<byte> := {Ch('-'), Ch('+'), Ch(' '), Ch(','), Ch('l'), Ch('L'), Ch('0')}

  /** A width or a precision from i to j: digits, or an asterisk. */
  ghost predicate IsNumber(format: CString, i: nat, j: nat) {
    && i <= j < |format|
    && ((j == i + 1 && format[i] == Ch('*')) || forall l :: i <= l < j ==> Ch('0') <= format[l] <= Ch('9'))
  }

  /**
    * The form %[flags][width][.precision]type behind its %: flags from i to w, the width up to d, and, when there is a
    * point at d, the precision up to t, where the type is, or the end of a format that breaks off.
    * Zeros directly in front of the width belong to it.
    */
  ghost predicate IsForm(format: CString, i: nat, w: nat, d: nat, t: nat) {
    && i <= w <= d <= t < |format|
    && (forall j :: i <= j < w ==> format[j] in FLAGS)
    && (i < w && format[w - 1] == Ch('0') ==> !(Ch('0') <= format[w] <= Ch('9')))
    && IsNumber(format, w, d) && (d < t ==> format[d] == Ch('.') && IsNumber(format, d + 1, t))
    && format[t] !in FLAGS && !(Ch('0') <= format[t] <= Ch('9')) && format[t] != Ch('*') && format[t] != Ch('.')
  }

  /** The number from i to j, the asterisk standing for argument k. */
  function NumberFrom(format: CString, i: nat, j: nat, k: nat, args: nat -> u64): (n: u32)
    requires i < j < |format|
  {
    if format[i] == Ch('*') then args(k) % TWO_32 else Value(Strtoimax.Run(format, i, j), 10) % TWO_32
  }

  /** The arguments it takes. */
  function Stars(format: CString, i: nat, j: nat): (n: nat)
    requires i <= j < |format|
  {
    if i < j && format[i] == Ch('*') then 1 else 0
  }

  /** Flags, width and precision of such a form. */
  function FormSpec(format: CString, i: nat, w: nat, d: nat, t: nat, k: nat, args: nat -> u64): Spec
    requires i <= w <= d <= t < |format|
  {
    var fs := format[i..w];
    var width := if w < d then NumberFrom(format, w, d, k, args) else 0;
    var precision := if d + 1 < t then NumberFrom(format, d + 1, t, k + Stars(format, w, d), args) else 1;
    Spec(Has(fs, Ch('-')), Has(fs, Ch('+')), Has(fs, Ch(' ')), Has(fs, Ch(',')), Has(fs, Ch('l')) || Has(fs, Ch('L')),
         Has(fs, Ch('0')) || (w < d && format[w] == Ch('0')), Has(fs, Ch('0')) || w < d, d < t,
         width, if format[t] == NUL then 0 else precision)
  }

  function FormStars(format: CString, w: nat, d: nat, t: nat): (n: nat)
    requires w <= d <= t < |format|
  {
    Stars(format, w, d) + if d < t then Stars(format, d + 1, t) else 0
  }

  /** The flags and zeros of a form; a zero counts as the width 0 as well. */
  function Flagged(sp: Spec, fs: seq<byte>): Spec {
    WithFlags(sp, fs).(zero := sp.zero || Has(fs, ZERO), pad := sp.pad || Has(fs, ZERO),
                                                                width := if Has(fs, ZERO) then 0 else sp.width)
  }

  lemma FlaggedFirst(sp: Spec, c: byte, fs: seq<byte>)
    requires IsFlag(c)
    ensures Flagged(WithFlag(sp, c), fs) == Flagged(sp, [c] + fs)
  {
    hide Has, WithFlags, WithFlag, IsFlag;
    FlagFirst(sp, c, fs);
    FirstHas(c, fs, ZERO);
    FlagLeaves(sp, c);
  }

  lemma FlagLeaves(sp: Spec, c: byte)
    requires IsFlag(c)
    ensures var sp' := WithFlag(sp, c); sp'.zero == sp.zero && sp'.pad == sp.pad && sp'.width == sp.width && c != ZERO
  {
    hide WithFlag;
    FlagFields(sp, c);
  }

  lemma FlaggedZeros(sp: Spec, zs: seq<byte>, fs: seq<byte>)
    requires zs != [] && forall j :: 0 <= j < |zs| ==> zs[j] == ZERO
    ensures Flagged(sp.(zero := true, pad := true, width := 0), fs) == Flagged(sp, zs + fs)
  {
    hide Has;
    forall x: byte
      ensures Has(zs + fs, x) <==> x == ZERO || Has(fs, x)
    {
      ZerosHave(zs, fs, x);
    }
  }

  lemma ZerosHave(zs: seq<byte>, fs: seq<byte>, x: byte)
    requires zs != [] && forall j :: 0 <= j < |zs| ==> zs[j] == ZERO
    ensures Has(zs + fs, x) <==> x == ZERO || Has(fs, x)
  {
    var all := zs + fs;
    assert all[0] == ZERO;
    if x in fs {
      var j :| 0 <= j < |fs| && fs[j] == x;
      assert all[|zs| + j] == x;
    }
  }

  /** A run of zeros in front of something that is no digit. */
  lemma ParseZeros(format: CString, i: nat, j: nat, sp: Spec, k: nat, args: nat -> u64)
    requires i < j < |format| && !sp.point && !IsDigit(format[j]) && forall l :: i <= l < j ==> format[l] == ZERO
    ensures Parse(format, i, sp, k, args) == Parse(format, j, sp.(zero := true, pad := true, width := 0), k, args)
  {
    hide Parse, Value;
    ParseNumber(format, i, j, sp, k, args);
    var ds := Strtoimax.Run(format, i, j);
    ValueOfZeros(ds, 10);
  }

  /** The flags of a form are read as the set of its flags. */
  lemma {:induction false} ParseFlagged(format: CString, i: nat, w: nat, sp: Spec, k: nat, args: nat -> u64)
    requires i <= w < |format| && !sp.point && forall j :: i <= j < w ==> format[j] in FLAGS
    requires i < w && format[w - 1] == ZERO ==> !IsDigit(format[w])
    ensures Parse(format, i, sp, k, args) == Parse(format, w, Flagged(sp, format[i..w]), k, args)
    decreases w - i
  {
    hide Parse, Flagged, IsFlag, WithFlag;
    if i == w {
      assert format[i..w] == [];
      NoneFlagged(sp);
    } else if format[i] == ZERO {
      var j := ZerosEnd(format, i, w);
      ParseZeros(format, i, j, sp, k, args);
      ParseFlagged(format, j, w, sp.(zero := true, pad := true, width := 0), k, args);
      FlaggedZeros(sp, format[i..j], format[j..w]);
      assert format[i..w] == format[i..j] + format[j..w];
    } else {
      FlagIn(format[i], sp);
      ParseFlag(format, i, sp, k, args);
      ParseFlagged(format, i + 1, w, WithFlag(sp, format[i]), k, args);
      FlaggedFirst(sp, format[i], format[i + 1..w]);
      assert format[i..w] == [format[i]] + format[i + 1..w];
    }
  }

  lemma NoneFlagged(sp: Spec)
    ensures Flagged(sp, []) == sp
  {
  }

  lemma FlagIn(c: byte, sp: Spec)
    requires c in FLAGS && c != ZERO
    ensures IsFlag(c) && (WithFlag(sp, c).point <==> sp.point)
  {
  }

  lemma {:induction false} ZerosEnd(format: CString, i: nat, w: nat) returns (j: nat)
    requires i < w < |format| && format[i] == ZERO && (forall l :: i <= l < w ==> format[l] in FLAGS)
    requires format[w - 1] == ZERO ==> !IsDigit(format[w])
    ensures i < j <= w && !IsDigit(format[j]) && forall l :: i <= l < j ==> format[l] == ZERO
    decreases w - i
  {
    j := i + 1;
    if j < w && format[j] == ZERO { j := ZerosEnd(format, j, w); }
  }

  lemma ParseStar(format: CString, i: nat, sp: Spec, k: nat, args: nat -> u64)
    requires i + 1 < |format| && format[i] == Ch('*')
    ensures Parse(format, i, sp, k, args) == Parse(format, i + 1, WithNumber(sp, Wrap32(args(k))), k + 1, args)
  {
  }

  /** A width or a precision is read up to its end. */
  lemma ParseEither(format: CString, i: nat, j: nat, sp: Spec, k: nat, args: nat -> u64)
    requires IsNumber(format, i, j) && !IsDigit(format[j])
    ensures Parse(format, i, sp, k, args) ==
            if i == j then Parse(format, j, sp, k, args)
            else Parse(format, j, WithNumber(sp.(zero := sp.zero || (format[i] == ZERO && !sp.point)),
                                             NumberFrom(format, i, j, k, args)), k + Stars(format, i, j), args)
  {
    hide Parse, Value, Strtoimax.Run;
    if i < j && format[i] == Ch('*') {
      ParseStar(format, i, sp, k, args);
    } else {
      ParseNumber(format, i, j, sp, k, args);
    }
  }

  function WidthSpec(format: CString, sp: Spec, w: nat, d: nat, k: nat, args: nat -> u64): Spec
    requires w <= d < |format|
  {
    if w == d then sp
    else WithNumber(sp.(zero := sp.zero || (format[w] == ZERO && !sp.point)), NumberFrom(format, w, d, k, args))
  }

  lemma ParseWidth(format: CString, i: nat, j: nat, sp: Spec, k: nat, args: nat -> u64)
    requires IsNumber(format, i, j) && !IsDigit(format[j])
    ensures Parse(format, i, sp, k, args) ==
            Parse(format, j, WidthSpec(format, sp, i, j, k, args), k + Stars(format, i, j), args)
  {
    hide Parse, NumberFrom, WithNumber;
    ParseEither(format, i, j, sp, k, args);
  }

  /** The specification behind the point and its number. */
  function PointSpec(format: CString, sp: Spec, d: nat, t: nat, k: nat, args: nat -> u64): Spec
    requires d <= t < |format|
  {
    if d < t then WidthSpec(format, sp.(point := true), d + 1, t, k, args) else sp
  }

  lemma ParsePoint(format: CString, d: nat, sp: Spec, k: nat, args: nat -> u64)
    requires d + 1 < |format| && format[d] == Ch('.')
    ensures Parse(format, d, sp, k, args) == Parse(format, d + 1, sp.(point := true), k, args)
  {
  }

  lemma ParsePrecision(format: CString, d: nat, t: nat, sp: Spec, k: nat, args: nat -> u64)
    requires d <= t < |format| && (d < t ==> format[d] == Ch('.') && IsNumber(format, d + 1, t)) && !IsDigit(format[t])
    ensures Parse(format, d, sp, k, args) ==
            Parse(format, t, PointSpec(format, sp, d, t, k, args), k + (if d < t then Stars(format, d + 1, t) else 0),
                  args)
  {
    hide Parse, WidthSpec, Stars, IsNumber;
    if d < t {
      ParsePoint(format, d, sp, k, args);
      ParseWidth(format, d + 1, t, sp.(point := true), k, args);
    }
  }

  lemma FlaggedPlain(fs: seq<byte>)
    requires forall j :: 0 <= j < |fs| ==> fs[j] in FLAGS
    ensures Flagged(PLAIN, fs) ==
            Spec(Has(fs, Ch('-')), Has(fs, Ch('+')), Has(fs, Ch(' ')), Has(fs, Ch(',')),
                 Has(fs, Ch('l')) || Has(fs, Ch('L')), Has(fs, ZERO), Has(fs, ZERO), false, 0, 1)
  {
    assert !Has(fs, Ch('.'));
    hide Has;
  }

  lemma WidthFields(format: CString, sp: Spec, w: nat, d: nat, k: nat, args: nat -> u64)
    requires w <= d < |format| && !sp.point
    ensures WidthSpec(format, sp, w, d, k, args) ==
            Spec(sp.left, sp.sign, sp.blank, sp.comma, sp.long, sp.zero || (w < d && format[w] == ZERO),
                 sp.pad || w < d, false, if w < d then NumberFrom(format, w, d, k, args) else sp.width, sp.precision)
  {
    hide NumberFrom;
  }

  lemma PointFields(format: CString, sp: Spec, d: nat, t: nat, k: nat, args: nat -> u64)
    requires d <= t < |format| && !sp.point
    ensures PointSpec(format, sp, d, t, k, args) ==
            Spec(sp.left, sp.sign, sp.blank, sp.comma, sp.long, sp.zero, sp.pad, d < t, sp.width,
                 if d + 1 < t then NumberFrom(format, d + 1, t, k, args) else sp.precision)
  {
    hide NumberFrom;
    if d < t {
      var sp' := sp.(point := true);
      assert sp'.(zero := sp'.zero) == sp';
    }
  }

  lemma FormSpecIs(format: CString, i: nat, w: nat, d: nat, t: nat, k: nat, args: nat -> u64)
    requires i <= w <= d <= t < |format| && forall j :: i <= j < w ==> format[j] in FLAGS
    ensures var sp := WidthSpec(format, Flagged(PLAIN, format[i..w]), w, d, k, args);
            var sp' := PointSpec(format, sp, d, t, k + Stars(format, w, d), args);
            FormSpec(format, i, w, d, t, k, args) == if format[t] == NUL then sp'.(precision := 0) else sp'
  {
    hide Has, NumberFrom, Flagged, WidthSpec, PointSpec, Stars;
    var fs := format[i..w];
    FlaggedPlain(fs);
    var sp := WidthSpec(format, Flagged(PLAIN, fs), w, d, k, args);
    WidthFields(format, Flagged(PLAIN, fs), w, d, k, args);
    PointFields(format, sp, d, t, k + Stars(format, w, d), args);
  }

  /** The form %[flags][width][.precision]type is read as its flags, width and precision, up to its type. */
  lemma ParseForm(format: CString, i: nat, w: nat, d: nat, t: nat, k: nat, args: nat -> u64)
    requires IsForm(format, i, w, d, t)
    ensures Parse(format, i, PLAIN, k, args) ==
            Conversion(FormSpec(format, i, w, d, t, k, args), t, k + FormStars(format, w, d, t))
  {
    hide Parse, NumberFrom, Has, Flagged, WidthSpec, FormSpec, IsNumber, PointSpec, Stars;
    FormEnds(format, i, w, d, t);
    ParseFlagged(format, i, w, PLAIN, k, args);
    var sp := Flagged(PLAIN, format[i..w]);
    ParseWidth(format, w, d, sp, k, args);
    var sp1, k1 := WidthSpec(format, sp, w, d, k, args), k + Stars(format, w, d);
    ParsePrecision(format, d, t, sp1, k1, args);
    ParseEnds(format, t, k + FormStars(format, w, d, t), args);
    FormSpecIs(format, i, w, d, t, k, args);
  }

  lemma FormEnds(format: CString, i: nat, w: nat, d: nat, t: nat)
    requires IsForm(format, i, w, d, t)
    ensures !IsDigit(format[d]) && !IsDigit(format[t]) && !IsFlag(format[t]) && format[t] != Ch('*')
    ensures i < w && format[w - 1] == ZERO ==> !IsDigit(format[w])
  {
  }

  lemma ParseEnds(format: CString, t: nat, k: nat, args: nat -> u64)
    requires t < |format| && !IsFlag(format[t]) && !IsDigit(format[t]) && format[t] != Ch('*')
    ensures forall sp :: Parse(format, t, sp, k, args)
                         == Conversion(if format[t] == NUL then sp.(precision := 0) else sp, t, k)
  {
  }

  // ---- fields ----

  function Fill(c: byte, n: int): (s: seq<byte>)
    ensures |s| == (if n > 0 then n else 0) && forall i :: 0 <= i < |s| ==> s[i] == c
  {
    seq<byte>(if n > 0 then n else 0, _ => c)
  }

  /** What is printed for one conversion, before it is padded. */
  datatype Layout = Layout(width: u32, pad: bool, left: bool, precision: u32, prefix: seq<byte>, zeros: bool,
                           content: seq<byte>) {
    function Count(): nat { |prefix| + |content| }
    function Inner(): nat { if precision < Count() then Count() else precision }
    /** The spaces on one side. */
    function Blanks(): seq<byte> { Fill(SPACE, Signed32(Wrap32(width - Inner()))) }
    /** Zeros go behind the sign, spaces in front of it. */
    function Filled(): seq<byte> {
      var n := Signed32(Wrap32(Inner() - Count()));
      if zeros then prefix + Fill(ZERO, n) else Fill(SPACE, n) + prefix
    }
    function Render(): seq<byte> {
      (if pad && !left then Blanks() else []) + Filled() + content + (if pad && left then Blanks() else [])
    }
  }

  /** A field is as long as the largest of its width, its precision and its content. */
  lemma FieldLength(l: Layout)
    requires l.width < 0x8000_0000 && l.precision < 0x8000_0000 && l.Count() < 0x8000_0000
    ensures |l.Render()| == if l.pad && l.width > l.Inner() then l.width else l.Inner()
  {
    var d, n := l.width - l.Inner(), l.Inner() - l.Count();
    assert Signed32(Wrap32(d)) == d && Signed32(Wrap32(n)) == n;
  }

  /** A field with zeros is its spaces, sign, zeros, content and spaces. */
  lemma RenderedAs(l: Layout, blanks: nat, right: nat, n: int)
    requires l.zeros && n == Signed32(Wrap32(l.Inner() - l.Count()))
    requires var d := Signed32(Wrap32(l.width - l.Inner()));
             && blanks == (if l.pad && !l.left && d > 0 then d else 0)
             && right == (if l.pad && l.left && d > 0 then d else 0)
    ensures l.Render() == Fill(SPACE, blanks) + (l.prefix + Fill(ZERO, n)) + l.content + Fill(SPACE, right)
  {
  }

  lemma InParts(x: seq<byte>, p: seq<byte>, z: seq<byte>, c: seq<byte>, y: seq<byte>, i: nat)
    requires i < |x + (p + z) + c + y|
    ensures (x + (p + z) + c + y)[i] ==
            if i < |x| then x[i]
            else if i < |x| + |p| then p[i - |x|]
            else if i < |x| + |p| + |z| then z[i - |x| - |p|]
            else if i < |x| + |p| + |z| + |c| then c[i - |x| - |p| - |z|]
            else y[i - |x| - |p| - |z| - |c|]
  {
  }

  /**
    * From left to right: spaces unless the field is left-justified, the sign, zeros, the content, and spaces
    * when it is left-justified.
    */
  lemma FieldCharacters(l: Layout, i: nat)
    requires l.zeros && l.width < 0x8000_0000 && l.precision < 0x8000_0000 && l.Count() < 0x8000_0000
             && i < |l.Render()|
    ensures var a := if l.pad && !l.left && l.width > l.Inner() then l.width - l.Inner() else 0;
            var z := a + |l.prefix| + (l.Inner() - l.Count());
            l.Render()[i] ==
            if i < a then SPACE
            else if i < a + |l.prefix| then l.prefix[i - a]
            else if i < z then ZERO
            else if i < z + |l.content| then l.content[i - z]
            else SPACE
  {
    hide Layout.Render;
    var d, n := l.width - l.Inner(), l.Inner() - l.Count();
    assert Signed32(Wrap32(d)) == d && Signed32(Wrap32(n)) == n;
    var blanks := if l.pad && !l.left && d > 0 then d else 0;
    var right := if l.pad && l.left && d > 0 then d else 0;
    RenderedAs(l, blanks, right, n);
    InParts(Fill(SPACE, blanks), l.prefix, Fill(ZERO, n), l.content, Fill(SPACE, right), i);
  }

  // ---- integers ----

  predicate IsInteger(c: byte) {
    c == Ch('p') || c == Ch('X') || c == Ch('x') || c == Ch('o') || c == Ch('b') || c == Ch('u') || c == Ch('d')
    || c == Ch('i')
  }

  /** Only x is hexadecimal: p and X are printed in decimal. */
  function Radix(c: byte): (r: nat) {
    if c == Ch('x') then 16 else if c == Ch('o') then 8 else if c == Ch('b') then 2 else 10
  }

  /** The flags a conversion forces. */
  function Adjusted(c: byte, sp: Spec): Spec {
    if c == Ch('p') then sp.(blank := false, sign := false, zero := false, long := true)
    else if c == Ch('X') then sp.(zero := true)
    else if c == Ch('u') then sp.(sign := false)
    else sp
  }

  /** The argument: an int, or an int64_t. */
  function Argument(sp: Spec, word: u64): i64 {
    if sp.long then Signed(word) else Signed32(Wrap32(word))
  }

  predicate Minus(c: byte, v: i64) {
    v < 0 && Radix(c) == 10 && c != Ch('u')
  }

  /** The value without its sign; other radices and u print the bits. */
  function Magnitude(c: byte, sp: Spec, v: i64): u64 {
    if Minus(c, v) then 0 - v
    else if (c == Ch('u') || c == Ch('x')) && !sp.long then Wrap32(v)
    else Wrap(v)
  }

  function Prefix(c: byte, sp: Spec, v: i64): seq<byte> {
    if Minus(c, v) then [MINUS] else if sp.sign then [PLUS] else if sp.blank then [SPACE] else []
  }

  /** A comma in front of every group of three digits from the right. */
  function Grouped(ds: seq<byte>): (t: seq<byte>) {
    if |ds| <= 3 then ds else Grouped(ds[..|ds| - 3]) + [COMMA] + ds[|ds| - 3..]
  }

  function IntegerDigits(c: byte, sp: Spec, v: i64): seq<byte> {
    var m := Magnitude(c, sp, v);
    if m == 0 && sp.precision == 0 && !(sp.comma && Radix(c) == 10) then [] else NumeralChars(m, Radix(c), UPPER)
  }

  /** Precision 1 and no zeros for decimal numbers with commas. */
  function IntegerPrecision(c: byte, sp: Spec, prefix: nat): u32 {
    var grouped := sp.comma && Radix(c) == 10;
    if sp.zero && !grouped && !sp.left && sp.pad && !sp.point then sp.width
    else Wrap32((if grouped then 1 else sp.precision) + prefix)
  }

  function IntegerLayout(c: byte, given: Spec, word: u64): Layout {
    var sp := Adjusted(c, given);
    var v := Argument(sp, word);
    var prefix := Prefix(c, sp, v);
    var ds := IntegerDigits(c, sp, v);
    var content := if sp.comma then Grouped(ds) else ds;
    Layout(sp.width, sp.pad, sp.left, IntegerPrecision(c, sp, |prefix|), prefix, true, content)
  }

  /** The digits fit the local buffer of MAXIMUM_VALUE_CHARACTERS bytes. */
  predicate DigitsFit(c: byte, given: Spec, word: u64) {
    var sp := Adjusted(c, given);
    |NumeralChars(Magnitude(c, sp, Argument(sp, word)), Radix(c), UPPER)| <= 37
  }

  // ---- texts ----

  // <null string>
  const NULL_STRING: seq<byte> := [0x3c, 0x6e, 0x75, 0x6c, 0x6c, 0x20, 0x73, 0x74, 0x72, 0x69, 0x6e, 0x67, 0x3e]

  predicate IsString(c: byte) { c == Ch('s') || c == Ch('S') }
  predicate TakesArgument(c: byte) { IsInteger(c) || IsString(c) || c == Ch('c') }

  /** The string a conversion prints; strings(p) is the text at address p. */
  function Source(c: byte, word: u64, strings: u64 -> CText): CText {
    if IsString(c) then (if word == 0 then NULL_STRING else strings(word))
    else
      var ch := if c == Ch('c') then word % 256 else c;
      if ch == NUL then [] else [ch]
  }

  /** At most precision characters, when there is a point. */
  function Cut(sp: Spec, t: seq<byte>): seq<byte> {
    if sp.point && sp.precision < |t| then t[..sp.precision] else t
  }

  function LayoutOf(c: byte, sp: Spec, word: u64, strings: u64 -> CText): Layout {
    if IsInteger(c) then IntegerLayout(c, sp, word)
    else
      Layout(sp.width, sp.pad, sp.left, if IsString(c) && !sp.point then 0 else sp.precision, [], false,
             Cut(sp, Source(c, word, strings)))
  }

  const PERCENT: byte := 0x25

  /** The conversion at i, a % with what follows it or a single character. */
  function ConversionAt(format: CString, i: nat, k: nat, args: nat -> u64): (r: Conversion)
    requires i < |format| && format[i] != NUL
    ensures i <= r.at < |format| && (r.at == i ==> format[i] != PERCENT)
  {
    if format[i] == PERCENT then Parse(format, i + 1, PLAIN, k, args) else Conversion(PLAIN, i, k)
  }

  /** A character outside a conversion stands for itself. */
  function Item(format: CString, i: nat, k: nat, args: nat -> u64, strings: u64 -> CText): Layout
    requires i < |format| && format[i] != NUL
  {
    var r := ConversionAt(format, i, k, args);
    if format[i] == PERCENT then LayoutOf(format[r.at], r.spec, args(r.used), strings)
    else Layout(0, false, false, 1, [], false, [format[i]])
  }

  function NextIndex(format: CString, i: nat, k: nat, args: nat -> u64): (j: nat)
    requires i < |format| && format[i] != NUL
    ensures i < j < |format|
  {
    var r := ConversionAt(format, i, k, args);
    if format[r.at] == NUL then r.at else r.at + 1
  }

  function NextArgument(format: CString, i: nat, k: nat, args: nat -> u64): (j: nat)
    requires i < |format| && format[i] != NUL
  {
    var r := ConversionAt(format, i, k, args);
    if format[i] == PERCENT && TakesArgument(format[r.at]) then r.used + 1 else r.used
  }

  /** What the format stands for from i on, its next argument being number k. */
  function Text(format: CString, i: nat, k: nat, args: nat -> u64, strings: u64 -> CText): seq<byte>
    requires i < |format|
    decreases |format| - i
  {
    if format[i] == NUL then [] else
    Item(format, i, k, args, strings).Render()
    + Text(format, NextIndex(format, i, k, args), NextArgument(format, i, k, args), args, strings)
  }

  /** No integer of the format has more than 37 digits. */
  ghost predicate Fits(format: CString, i: nat, k: nat, args: nat -> u64)
    requires i < |format|
    decreases |format| - i
  {
    format[i] != NUL ==>
      var r := ConversionAt(format, i, k, args);
      && (format[i] == PERCENT && IsInteger(format[r.at]) ==> DigitsFit(format[r.at], r.spec, args(r.used)))
      && Fits(format, NextIndex(format, i, k, args), NextArgument(format, i, k, args), args)
  }

  /** A format without conversions stands for itself. */
  lemma {:induction false} PlainText(format: CString, i: nat, n: nat, k: nat, args: nat -> u64, strings: u64 -> CText)
    requires i <= n < |format| && format[n] == NUL
    requires forall j :: i <= j < n ==> format[j] != NUL && format[j] != PERCENT
    ensures Text(format, i, k, args, strings) == format[i..n] && Fits(format, i, k, args)
    decreases n - i
  {
    hide Text, Fits;
    if i == n {
      NoText(format, n, k, args, strings);
    } else {
      PlainText(format, i + 1, n, k, args, strings);
      PlainCharacter(format, i, k, args, strings);
      assert format[i..n] == [format[i]] + format[i + 1..n];
    }
  }

  lemma NoText(format: CString, i: nat, k: nat, args: nat -> u64, strings: u64 -> CText)
    requires i < |format| && format[i] == NUL
    ensures Text(format, i, k, args, strings) == [] && Fits(format, i, k, args)
  {
  }

  lemma PlainCharacter(format: CString, i: nat, k: nat, args: nat -> u64, strings: u64 -> CText)
    requires i < |format| && format[i] != NUL && format[i] != PERCENT && i + 1 < |format|
    ensures Text(format, i, k, args, strings) == [format[i]] + Text(format, i + 1, k, args, strings)
    ensures Fits(format, i, k, args) == Fits(format, i + 1, k, args)
  {
    hide Layout.Render;
    RenderCharacter(format[i]);
    assert Item(format, i, k, args, strings) == Layout(0, false, false, 1, [], false, [format[i]]);
    assert NextIndex(format, i, k, args) == i + 1 && NextArgument(format, i, k, args) == k;
  }

  lemma RenderCharacter(c: byte)
    ensures Layout(0, false, false, 1, [], false, [c]).Render() == [c]
  {
    var l := Layout(0, false, false, 1, [], false, [c]);
    assert l.Filled() == [];
  }

  // ---- the value buffer ----

  /** The bits an integer conversion prints, without the sign. */
  function Printed(c: byte, given: Spec, word: u64): u64 {
    Magnitude(c, Adjusted(c, given), Argument(Adjusted(c, given), word))
  }

  /** The digits fit the local buffer except for binary numbers of 2^37 and more. */
  lemma DigitsFitIff(c: byte, given: Spec, word: u64)
    ensures DigitsFit(c, given, word) <==> c != Ch('b') || Printed(c, given, word) < 0x20_0000_0000
  {
    hide Magnitude, Argument;
    var u := Printed(c, given, word);
    if c == Ch('b') {
      TwoPower37();
      if u > 0 { DigitCount(u, 2, 37); }
    } else {
      EightPower22();
      if u > 0 {
        PowerMonotone(8, Radix(c), 22);
        DigitCount(u, Radix(c), 22);
      }
    }
  }

  /** %b of -1 takes 64 digits. */
  lemma MinusOneInBinary()
    ensures !DigitsFit(Ch('b'), PLAIN, TWO_64 - 1)
            && |NumeralChars(Printed(Ch('b'), PLAIN, TWO_64 - 1), 2, UPPER)| == 64
  {
    hide NumeralChars, Power, DigitsFit, Digits;
    var u := TWO_64 - 1;
    assert Printed(Ch('b'), PLAIN, u) == u;
    DigitsFitIff(Ch('b'), PLAIN, u);
    TwoPower(64);
    TwoPower(63);
    Pow2Values();
    DigitCount(u, 2, 64);
    DigitCount(u, 2, 63);
  }

  lemma TwoPower37()
    ensures Power(2, 37) == 0x20_0000_0000
  {
    assert Power(2, 10) == 0x400;
    assert Power(2, 20) == 0x10_0000;
    assert Power(2, 30) == 0x4000_0000;
  }

  lemma EightPower22()
    ensures Power(8, 22) >= TWO_64
  {
    assert Power(8, 5) == 0x8000;
    assert Power(8, 10) == 0x4000_0000;
    assert Power(8, 15) == 0x2000_0000_0000;
    assert Power(8, 20) == 0x1000_0000_0000_0000;
  }

  // ---- zeros in front ----

  /** With the flag 0, zeros behind the sign take the place of the spaces. */
  lemma ZeroPadded(c: byte, given: Spec, word: u64)
    requires IsInteger(c) && c != Ch('p') && (given.zero || c == Ch('X')) && given.pad && !given.left && !given.point
    requires !(given.comma && Radix(c) == 10) && given.width < 0x8000_0000
    requires IntegerLayout(c, given, word).Count() < 0x8000_0000
    ensures var l := IntegerLayout(c, given, word);
            l.Render() == l.prefix + Fill(ZERO, given.width - l.Count()) + l.content
  {
    hide Magnitude, Argument, Minus, Prefix, NumeralChars, Grouped, IntegerDigits;
    var l := IntegerLayout(c, given, word);
    assert l.precision == l.width == given.width;
    assert Signed32(Wrap32(l.Inner() - l.Count())) == l.Inner() - l.Count();
    assert Signed32(Wrap32(l.width - l.Inner())) == l.width - l.Inner() <= 0;
  }

  // ---- commas ----

  /** The commas as the copying loop places them: `since` digits after the last one. */
  function Grouping(ds: seq<byte>, since: nat): (t: seq<byte>)
    requires since < 3
    ensures |t| >= |ds|
  {
    if ds == [] then []
    else if since == 2 then [ds[0]] + (if |ds| > 1 then [COMMA] else []) + Grouping(ds[1..], 0)
    else [ds[0]] + Grouping(ds[1..], since + 1)
  }

  /** The count the loop starts from, for n digits. */
  function Since(n: nat): (d: nat)
    ensures d < 3
  {
    if n % 3 == 0 then 0 else 3 - n % 3
  }

  /** The first digit, and the comma behind it. */
  function FirstOf(ds: seq<byte>, since: nat): seq<byte>
    requires ds != []
  {
    if since == 2 && |ds| > 1 then [ds[0], COMMA] else [ds[0]]
  }

  lemma GroupingStep(ds: seq<byte>, since: nat)
    requires ds != [] && since < 3
    ensures Grouping(ds, since) == FirstOf(ds, since) + Grouping(ds[1..], (since + 1) % 3)
  {
  }

  lemma InitRest(ds: seq<byte>)
    requires |ds| > 4
    ensures ds[1..][..|ds| - 4] == ds[..|ds| - 3][1..] && ds[1..][|ds| - 4..] == ds[|ds| - 3..]
  {
  }

  /** With a multiple of three digits to come after the next comma, the last three follow a comma. */
  lemma {:induction false} GroupingAhead(ds: seq<byte>, since: nat)
    requires |ds| > 3 && since < 3 && (|ds| + since) % 3 == 0
    ensures Grouping(ds, since) == Grouping(ds[..|ds| - 3], since) + [COMMA] + ds[|ds| - 3..]
  {
    hide Grouping;
    var rest, init, last := ds[1..], ds[..|ds| - 3], ds[|ds| - 3..];
    GroupingStep(ds, since);
    GroupingStep(init, since);
    if |ds| == 4 {
      LastGroup(rest);
      NoGroups();
      assert init[1..] == [];
    } else {
      var next := (since + 1) % 3;
      GroupingAhead(rest, next);
      InitRest(ds);
      assert FirstOf(ds, since) == FirstOf(init, since);
      JoinFour(FirstOf(ds, since), Grouping(init[1..], next), [COMMA], last);
    }
  }

  lemma JoinFour(a: seq<byte>, b: seq<byte>, c: seq<byte>, d: seq<byte>)
    ensures a + (b + c + d) == a + b + c + d
  {
  }

  lemma NoGroups()
    ensures Grouping([], 0) == []
  {
  }

  lemma LastGroup(ds: seq<byte>)
    requires |ds| == 3
    ensures Grouping(ds, 0) == ds
  {
    assert ds[1..][1..] == [ds[2]] && ds[1..] == [ds[1], ds[2]];
    assert Grouping([ds[2]], 2) == [ds[2]];
    assert Grouping([ds[1], ds[2]], 1) == [ds[1]] + Grouping([ds[2]], 2) by { assert [ds[1], ds[2]][1..] == [ds[2]]; }
  }

  lemma ShortGroups(ds: seq<byte>)
    requires |ds| <= 3
    ensures Grouping(ds, Since(|ds|)) == ds
  {
    if |ds| == 3 {
      LastGroup(ds);
    } else if |ds| == 2 {
      assert ds == [ds[0], ds[1]] && ds[1..] == [ds[1]] && Grouping([ds[1]], 2) == [ds[1]];
    }
  }

  lemma SinceStep(n: nat)
    requires n > 3
    ensures Since((n - 3) as nat) == Since(n) && (n + Since(n)) % 3 == 0
  {
  }

  /** The loop's commas are those before every three digits from the right. */
  lemma {:induction false} GroupingIsGrouped(ds: seq<byte>)
    ensures Grouping(ds, Since(|ds|)) == Grouped(ds)
    decreases |ds|
  {
    hide Grouping, Since;
    if |ds| <= 3 {
      ShortGroups(ds);
    } else {
      SinceStep(|ds|);
      GroupingAhead(ds, Since(|ds|));
      GroupingIsGrouped(ds[..|ds| - 3]);
    }
  }

  /** n digits get (n - 1) / 3 commas. */
  lemma {:induction false} GroupedLength(ds: seq<byte>)
    ensures |Grouped(ds)| == if ds == [] then 0 else |ds| + (|ds| - 1) / 3
    decreases |ds|
  {
    if |ds| > 3 { GroupedLength(ds[..|ds| - 3]); }
  }

  function WithoutCommas(t: seq<byte>): seq<byte> {
    if t == [] then [] else WithoutCommas(t[..|t| - 1]) + if t[|t| - 1] == COMMA then [] else [t[|t| - 1]]
  }

  lemma {:induction false} WithoutCommasSum(s: seq<byte>, t: seq<byte>)
    ensures WithoutCommas(s + t) == WithoutCommas(s) + WithoutCommas(t)
  {
    if t == [] {
      assert s + t == s;
    } else {
      var init := t[..|t| - 1];
      assert (s + t)[..|s + t| - 1] == s + init;
      WithoutCommasSum(s, init);
    }
  }

  lemma {:induction false} NothingToStrip(t: seq<byte>)
    requires forall i :: 0 <= i < |t| ==> t[i] != COMMA
    ensures WithoutCommas(t) == t
  {
    if t != [] { NothingToStrip(t[..|t| - 1]); }
  }

  /** Commas only add to the digits. */
  lemma {:induction false} GroupedKeepsDigits(ds: seq<byte>)
    requires forall i :: 0 <= i < |ds| ==> ds[i] != COMMA
    ensures WithoutCommas(Grouped(ds)) == ds
    decreases |ds|
  {
    if |ds| <= 3 {
      NothingToStrip(ds);
    } else {
      var init, group := ds[..|ds| - 3], ds[|ds| - 3..];
      GroupedKeepsDigits(init);
      WithoutCommasSum(Grouped(init) + [COMMA], group);
      WithoutCommasSum(Grouped(init), [COMMA]);
      NothingToStrip(group);
      assert WithoutCommas([COMMA]) == [] by { assert [COMMA][..0] == []; }
    }
  }

  /** The commas are exactly at every fourth place from the right. */
  lemma {:induction false} CommaPlaces(ds: seq<byte>, i: nat)
    requires i < |Grouped(ds)| && forall j :: 0 <= j < |ds| ==> ds[j] != COMMA
    ensures Grouped(ds)[i] == COMMA <==> (|Grouped(ds)| - i) % 4 == 0
    decreases |ds|
  {
    if |ds| > 3 && i < |Grouped(ds)| - 4 { CommaPlaces(ds[..|ds| - 3], i); }
  }

  // ---- reading a field back ----

  /** A text as a C string. */
  function Line(t: seq<byte>): (s: CString)
    ensures s == t + [NUL]
  {
    t + [NUL]
  }

  /** The signed number an integer field stands for. */
  function Shown(c: byte, given: Spec, word: u64): int {
    var sp := Adjusted(c, given);
    var v := Argument(sp, word);
    if Minus(c, v) then v else Magnitude(c, sp, v)
  }

  lemma ZerosRun(n: int, cs: seq<byte>)
    ensures Strtoimax.Run(Fill(ZERO, n) + cs, 0, |Fill(ZERO, n) + cs|)
         == Strtoimax.Run(Fill(ZERO, n), 0, |Fill(ZERO, n)|) + Strtoimax.Run(cs, 0, |cs|)
  {
  }

  lemma ZerosValue(n: int, cs: seq<byte>, b: nat)
    ensures Value(Strtoimax.Run(Fill(ZERO, n) + cs, 0, |Fill(ZERO, n) + cs|), b) == Value(Strtoimax.Run(cs, 0, |cs|), b)
  {
    ZerosRun(n, cs);
    LeadingZeros(Strtoimax.Run(Fill(ZERO, n), 0, |Fill(ZERO, n)|), Strtoimax.Run(cs, 0, |cs|), b);
  }

  /** Padded text with zeros behind the sign is read as its sign and its digits. */
  lemma PaddedRead(blanks: nat, prefix: seq<byte>, zeros: int, cs: seq<byte>, right: nat, b: nat)
    requires 2 <= b <= 16 && prefix in {[], [PLUS], [SPACE], [MINUS]}
    requires forall i :: 0 <= i < |cs| ==> DigitOf(cs[i]) < b
    ensures var s: CString := Fill(SPACE, blanks) + (prefix + Fill(ZERO, zeros)) + cs + Fill(SPACE, right) + [NUL];
            Strtoimax.Exact(s, b) ==
            var v := Value(Strtoimax.Run(cs, 0, |cs|), b); if prefix == [MINUS] then 0 - v else v
  {
    hide Strtoimax.Exact;
    var s: CString := Fill(SPACE, blanks) + (prefix + Fill(ZERO, zeros)) + cs + Fill(SPACE, right) + [NUL];
    var digits := Fill(ZERO, zeros) + cs;
    var sp := Fill(SPACE, blanks) + if prefix == [SPACE] then [SPACE] else [];
    var sign := if prefix == [SPACE] then [] else prefix;
    if digits == [] {
      assert s == sp + sign + seq(right, _ => SPACE) + [NUL];
      Strtoimax.BlankRead(s, sp, sign, right, b);
    } else {
      var rest := Fill(SPACE, right) + [NUL];
      assert s == sp + sign + digits + rest;
      Strtoimax.PartsRead(s, sp, sign, digits, rest, b);
      ZerosValue(zeros, cs, b);
    }
  }

  /** A field without commas reads back as the value it shows, whatever its flags, width and precision. */
  lemma FieldReadBack(c: byte, given: Spec, word: u64)
    requires IsInteger(c) && !given.comma
    ensures var s := Line(IntegerLayout(c, given, word).Render());
            Strtoimax.Exact(s, Radix(c)) == Shown(c, given, word)
  {
    hide Strtoimax.Exact, Fill, Argument, Value, IntegerDigits, Magnitude, Minus, Shown, Adjusted, Prefix,
      IntegerLayout, Layout.Render;
    var sp := Adjusted(c, given);
    var v := Argument(sp, word);
    var l := IntegerLayout(c, given, word);
    var ds := IntegerDigits(c, sp, v);
    BareLayout(c, given, word);
    DigitsRead(c, sp, v);
    ShownSign(c, given, word);
    var d := Signed32(Wrap32(l.width - l.Inner()));
    var n := Signed32(Wrap32(l.Inner() - l.Count()));
    var blanks := if l.pad && !l.left && d > 0 then d else 0;
    var right := if l.pad && l.left && d > 0 then d else 0;
    PaddedRead(blanks, l.prefix, n, ds, right, Radix(c));
    RenderedAs(l, blanks, right, n);
  }

  lemma BareLayout(c: byte, given: Spec, word: u64)
    requires !given.comma
    ensures var sp := Adjusted(c, given);
            var v := Argument(sp, word);
            var l := IntegerLayout(c, given, word);
            l.zeros && l.prefix == Prefix(c, sp, v) && l.content == IntegerDigits(c, sp, v)
  {
    hide Argument, Prefix, IntegerDigits, IntegerPrecision, Grouped;
  }

  lemma ShownSign(c: byte, given: Spec, word: u64)
    ensures var sp := Adjusted(c, given);
            var v := Argument(sp, word);
            && Shown(c, given, word) == (if Minus(c, v) then 0 - Magnitude(c, sp, v) else Magnitude(c, sp, v))
            && (Prefix(c, sp, v) == [MINUS] <==> Minus(c, v)) && Prefix(c, sp, v) in {[], [PLUS], [SPACE], [MINUS]}
  {
  }

  /** The digits of a field have the value of its magnitude. */
  lemma DigitsRead(c: byte, sp: Spec, v: i64)
    ensures var cs := IntegerDigits(c, sp, v);
            && Value(Strtoimax.Run(cs, 0, |cs|), Radix(c)) == Magnitude(c, sp, v)
            && forall i :: 0 <= i < |cs| ==> DigitOf(cs[i]) < Radix(c)
  {
    var m := Magnitude(c, sp, v);
    NumeralValue(m, Radix(c));
    Strtoimax.CharsRun(Numeral(m, Radix(c)), UPPER);
  }

  /** A signed decimal field gives the signed argument back, the minimum included. */
  lemma SignedReadBack(c: byte, given: Spec, word: u64)
    requires (c == Ch('d') || c == Ch('i')) && !given.comma
    ensures var s := Line(IntegerLayout(c, given, word).Render());
            Strtoimax.Exact(s, 10) == Argument(given, word) == Strtoimax.Clamp(Strtoimax.Exact(s, 10))
  {
    hide Strtoimax.Exact, IntegerLayout, Wrap, Signed;
    FieldReadBack(c, given, word);
    var v := Argument(given, word);
    if v >= 0 { WrapWithin(v); }
  }

  /** Any field of a long argument gives its 64 bits back, without ERANGE. */
  lemma LongReadBack(c: byte, given: Spec, word: u64)
    requires IsInteger(c) && !given.comma && given.long
    ensures var s := Line(IntegerLayout(c, given, word).Render());
            Strtoimax.Magnitude(s, Radix(c)) < TWO_64 && Wrap(Strtoimax.Exact(s, Radix(c))) == word
  {
    hide Strtoimax.Magnitude, Strtoimax.Exact, IntegerLayout, Shown;
    FieldReadBack(c, given, word);
    ShownOfLong(c, given, word);
    ExactMagnitude(Line(IntegerLayout(c, given, word).Render()), Radix(c));
  }

  lemma ShownOfLong(c: byte, given: Spec, word: u64)
    requires given.long
    ensures -TWO_64 < Shown(c, given, word) < TWO_64 && Wrap(Shown(c, given, word)) == word
  {
  }

  lemma ExactMagnitude(s: CString, base: nat)
    requires Strtoimax.ValidBase(base)
    ensures var v := Strtoimax.Exact(s, base); Strtoimax.Magnitude(s, base) == if v < 0 then 0 - v else v
  {
    hide Strtoimax.Magnitude, Strtoimax.Negative;
  }

  lemma StripField(front: seq<byte>, content: seq<byte>, back: seq<byte>)
    requires COMMA !in front && COMMA !in back
    ensures WithoutCommas(front + content + back) == front + WithoutCommas(content) + back
  {
    WithoutCommasSum(front + content, back);
    WithoutCommasSum(front, content);
    NothingToStrip(front);
    NothingToStrip(back);
  }

  lemma StripContent(ds: seq<byte>, comma: bool)
    requires COMMA !in ds
    ensures WithoutCommas(if comma then Grouped(ds) else ds) == ds
  {
    if comma { GroupedKeepsDigits(ds); } else { NothingToStrip(ds); }
  }

  /** With its commas removed, any field reads back as the value it shows. */
  lemma StrippedReadBack(c: byte, given: Spec, word: u64)
    requires IsInteger(c)
    ensures var s := Line(WithoutCommas(IntegerLayout(c, given, word).Render()));
            Strtoimax.Exact(s, Radix(c)) == Shown(c, given, word)
  {
    hide Strtoimax.Exact, Argument, Value, IntegerDigits, Magnitude, Minus, Shown, IntegerPrecision, Prefix,
      WithoutCommas, Grouped, Layout.Render;
    var sp := Adjusted(c, given);
    var v := Argument(sp, word);
    var l := IntegerLayout(c, given, word);
    var ds := IntegerDigits(c, sp, v);
    DigitsRead(c, sp, v);
    ShownSign(c, given, word);
    var d := Signed32(Wrap32(l.width - l.Inner()));
    var n := Signed32(Wrap32(l.Inner() - l.Count()));
    var blanks := if l.pad && !l.left && d > 0 then d else 0;
    var right := if l.pad && l.left && d > 0 then d else 0;
    PaddedRead(blanks, l.prefix, n, ds, right, Radix(c));
    RenderedAs(l, blanks, right, n);
    NoCommaAround(blanks, l.prefix, n, right);
    StripField(Fill(SPACE, blanks) + (l.prefix + Fill(ZERO, n)), l.content, Fill(SPACE, right));
    StripContent(ds, sp.comma);
  }

  lemma NoCommaAround(blanks: nat, prefix: seq<byte>, n: int, right: nat)
    requires prefix in {[], [PLUS], [SPACE], [MINUS]}
    ensures COMMA !in Fill(SPACE, blanks) + (prefix + Fill(ZERO, n)) && COMMA !in Fill(SPACE, right)
  {
  }

  /** %d and %i, where the comma flag is allowed, give the signed argument back once the commas are removed. */
  lemma SignedStripped(c: byte, given: Spec, word: u64)
    requires c == Ch('d') || c == Ch('i')
    ensures var s := Line(WithoutCommas(IntegerLayout(c, given, word).Render()));
            Strtoimax.Exact(s, 10) == Argument(given, word) == Strtoimax.Clamp(Strtoimax.Exact(s, 10))
  {
    hide Strtoimax.Exact, IntegerLayout, Wrap, Signed, WithoutCommas, Layout.Render;
    StrippedReadBack(c, given, word);
    var v := Argument(given, word);
    if v >= 0 { WrapWithin(v); }
  }

  /** The format %ld. */
  lemma PercentLd(word: u64, args: nat -> u64, strings: u64 -> CText)
    requires args(0) == word
    ensures var format: CString := [PERCENT, Ch('l'), Ch('d'), NUL];
            var s := Line(Text(format, 0, 0, args, strings));
            Fits(format, 0, 0, args) && Strtoimax.Clamp(Strtoimax.Exact(s, 10)) == Signed(word)
  {
    hide Strtoimax.Exact, IntegerLayout, Signed, DigitsFit;
    var format: CString := [PERCENT, Ch('l'), Ch('d'), NUL];
    LongField(format, Ch('d'), args, strings);
    SignedReadBack(Ch('d'), PLAIN.(long := true), word);
    DigitsFitIff(Ch('d'), PLAIN.(long := true), word);
  }

  /** The format %lx. */
  lemma PercentLx(word: u64, args: nat -> u64, strings: u64 -> CText)
    requires args(0) == word
    ensures var format: CString := [PERCENT, Ch('l'), Ch('x'), NUL];
            var s := Line(Text(format, 0, 0, args, strings));
            Fits(format, 0, 0, args) && Strtoimax.Magnitude(s, 16) < TWO_64 && Wrap(Strtoimax.Exact(s, 16)) == word
  {
    hide Strtoimax.Exact, IntegerLayout, Strtoimax.Magnitude, DigitsFit, Wrap;
    var format: CString := [PERCENT, Ch('l'), Ch('x'), NUL];
    LongField(format, Ch('x'), args, strings);
    LongReadBack(Ch('x'), PLAIN.(long := true), word);
    DigitsFitIff(Ch('x'), PLAIN.(long := true), word);
  }

  lemma LongField(format: CString, c: byte, args: nat -> u64, strings: u64 -> CText)
    requires IsInteger(c) && c != NUL && !IsFlag(c) && !IsDigit(c) && c != Ch('*')
             && format == [PERCENT, Ch('l'), c, NUL]
    ensures Text(format, 0, 0, args, strings) == IntegerLayout(c, PLAIN.(long := true), args(0)).Render()
    ensures Fits(format, 0, 0, args) <==> DigitsFit(c, PLAIN.(long := true), args(0))
  {
    hide IntegerLayout, DigitsFit;
    var sp := PLAIN.(long := true);
    assert Parse(format, 2, sp, 0, args) == Conversion(sp, 2, 0);
    assert Parse(format, 1, PLAIN, 0, args) == Conversion(sp, 2, 0);
    assert ConversionAt(format, 0, 0, args) == Conversion(sp, 2, 0);
    assert Item(format, 0, 0, args, strings) == IntegerLayout(c, sp, args(0));
    assert NextIndex(format, 0, 0, args) == 3 && Text(format, 3, 1, args, strings) == [] && Fits(format, 3, 1, args);
  }
}

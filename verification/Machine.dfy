/** The integer widths of the x86-64 target, with wrap-around written out. */
module Machine {

  const TWO_32: int := 0x1_0000_0000
  const TWO_64: int := 0x1_0000_0000_0000_0000

  type byte = b: int | 0 <= b < 256
  type u64 = x: int | 0 <= x < TWO_64

  const NUL: byte := 0   // ends a C string

  /** The value an unsigned 64-bit variable holds after receiving x. */
  function Wrap(x: int): u64 {
    x % TWO_64
  }

  lemma WrapWithin(x: u64)
    ensures Wrap(x) == x
  {
  }

  lemma WrapAdd(x: int, d: int)
    ensures Wrap(Wrap(x) + d) == Wrap(x + d)
  {
    var q := x / TWO_64;
    assert x + d == Wrap(x) + d + q * TWO_64;
    ModShift(Wrap(x) + d, q, TWO_64);
  }

  lemma SmallMultiple(m: int, e: int)
    requires -m < m * e < m
    ensures e == 0
  {
  }

  lemma ModShift(x: int, q: int, m: int)
    requires 0 < m
    ensures (x + q * m) % m == x % m
  {
    var y := x + q * m;
    var e := y / m - q - x / m;
    assert y == m * (y / m) + y % m && x == m * (x / m) + x % m;
    assert m * e == x % m - y % m by {
      assert m * e == m * (y / m) - m * q - m * (x / m);
    }
    SmallMultiple(m, e);
  }

  lemma DivModUnique(w: nat, m: nat, q: nat, t: nat)
    requires m > 0 && w == m * q + t && t < m
    ensures w / m == q && w % m == t
  {
    assert w == m * (w / m) + w % m;
    var e := w / m - q;
    assert m * e == t - w % m by {
      assert m * e == m * (w / m) - m * q;
    }
    SmallMultiple(m, e);
  }

  function Pow2(n: nat): (p: nat)
    ensures p >= 1
  {
    if n == 0 then 1 else 2 * Pow2(n - 1)
  }

  lemma {:induction false} Pow2Monotone(m: nat, n: nat)
    requires m <= n
    ensures Pow2(m) <= Pow2(n)
    decreases n - m
  {
    if m < n { Pow2Monotone(m, n - 1); }
  }

  /** The two powers the sources name. */
  lemma Pow2Values()
    ensures Pow2(12) == 4096 && Pow2(32) == TWO_32 && Pow2(64) == TWO_64
  {
    assert Pow2(8) == 256;
    assert Pow2(12) == 4096;
    assert Pow2(16) == 65536;
    assert Pow2(20) == 0x10_0000;
    assert Pow2(24) == 0x100_0000;
    assert Pow2(28) == 0x1000_0000;
    assert Pow2(32) == TWO_32;
    assert Pow2(36) == 0x10_0000_0000;
    assert Pow2(40) == 0x100_0000_0000;
    assert Pow2(44) == 0x1000_0000_0000;
    assert Pow2(48) == 0x1_0000_0000_0000;
    assert Pow2(52) == 0x10_0000_0000_0000;
    assert Pow2(56) == 0x100_0000_0000_0000;
    assert Pow2(60) == 0x1000_0000_0000_0000;
  }
}

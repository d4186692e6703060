/** Single bits of an unsigned word, as pgm.c reads and flips them. */
module Bits {
  import opened Machine

  predicate Bit(w: nat, i: nat) {
    if i == 0 then w % 2 == 1 else Bit(w / 2, i - 1)
  }

  /** w ^ (1 << i) */
  function Flip(w: nat, i: nat): nat {
    if i == 0 then (if w % 2 == 1 then w - 1 else w + 1) else w % 2 + 2 * Flip(w / 2, i - 1)
  }

  lemma {:induction false} FlipBit(w: nat, i: nat, j: nat)
    ensures Bit(Flip(w, i), j) <==> if i == j then !Bit(w, j) else Bit(w, j)
  {
    if i > 0 && j > 0 {
      assert Flip(w, i) / 2 == Flip(w / 2, i - 1);
      FlipBit(w / 2, i - 1, j - 1);
    } else if i > 0 {
      assert Flip(w, i) % 2 == w % 2;
    } else if j > 0 {
      assert Flip(w, 0) / 2 == w / 2;
    }
  }

  lemma {:induction false} FlipBounded(w: nat, i: nat, n: nat)
    requires w < Pow2(n) && i < n
    ensures Flip(w, i) < Pow2(n)
  {
    var half := Pow2(n - 1);
    assert Pow2(n) == 2 * half;
    hide Pow2;
    if i == 0 {
      BelowEven(w, half);
    } else {
      FlipBounded(w / 2, i - 1, n - 1);
      BelowDouble(w % 2, Flip(w / 2, i - 1), half);
    }
  }

  lemma BelowEven(w: nat, half: nat)
    requires w < 2 * half
    ensures w % 2 == 0 ==> w + 1 < 2 * half
  {
  }

  lemma BelowDouble(bit: nat, x: nat, half: nat)
    requires bit < 2 && x < half
    ensures bit + 2 * x < 2 * half
  {
  }

  lemma {:induction false} ZeroHasNoBit(i: nat)
    ensures !Bit(0, i)
  {
    if i > 0 { ZeroHasNoBit(i - 1); }
  }

  lemma {:induction false} NoBitIsZero(w: nat, n: nat)
    requires w < Pow2(n) && forall i :: 0 <= i < n ==> !Bit(w, i)
    ensures w == 0
  {
    if n > 0 {
      assert !Bit(w, 0);
      forall i | 0 <= i < n - 1
        ensures !Bit(w / 2, i)
      {
        assert !Bit(w, i + 1);
      }
      NoBitIsZero(w / 2, n - 1);
    }
  }

  lemma {:induction false} AllOnes(n: nat, i: nat)
    requires i < n
    ensures Bit(Pow2(n) - 1, i)
  {
    if i > 0 {
      assert (Pow2(n) - 1) / 2 == Pow2(n - 1) - 1;
      AllOnes(n - 1, i - 1);
    }
  }

  // ---- shifting out low zero bits ----

  lemma DivTwice(w: nat, p: nat)
    requires p > 0
    ensures w / (2 * p) == w / 2 / p
    ensures w % (2 * p) == 0 <==> w % 2 == 0 && (w / 2) % p == 0
  {
    var h, q, r := w / 2, w / 2 / p, (w / 2) % p;
    assert h == p * q + r;
    var t := 2 * r + w % 2;
    assert w == (2 * p) * q + t by {
      assert (2 * p) * q == 2 * (p * q);
    }
    assert 0 <= t < 2 * p;
    DivModUnique(w, 2 * p, q, t);
  }

  /** w >> k */
  function Shr(w: nat, k: nat): nat {
    if k == 0 then w else Shr(w / 2, k - 1)
  }

  predicate LowZeros(w: nat, k: nat) {
    k == 0 || (w % 2 == 0 && LowZeros(w / 2, k - 1))
  }

  lemma {:induction false} ShiftIsDivision(w: nat, k: nat)
    ensures Shr(w, k) == w / Pow2(k)
    ensures LowZeros(w, k) <==> w % Pow2(k) == 0
  {
    if k > 0 {
      DivTwice(w, Pow2(k - 1));
      ShiftIsDivision(w / 2, k - 1);
    }
  }

  lemma {:induction false} ShiftBit(w: nat, k: nat, j: nat)
    ensures Bit(Shr(w, k), j) <==> Bit(w, j + k)
  {
    if k > 0 { ShiftBit(w / 2, k - 1, j); }
  }

  lemma {:induction false} LowZerosHaveNoBit(w: nat, k: nat, j: nat)
    requires LowZeros(w, k) && j < k
    ensures !Bit(w, j)
  {
    if j > 0 { LowZerosHaveNoBit(w / 2, k - 1, j - 1); }
  }

  /** Shifting d more zero bits out of w >> k. */
  lemma {:induction false} ShiftMore(w: nat, k: nat, d: nat)
    requires LowZeros(w, k) && LowZeros(Shr(w, k), d)
    ensures Shr(Shr(w, k), d) == Shr(w, k + d) && LowZeros(w, k + d)
  {
    if k > 0 { ShiftMore(w / 2, k - 1, d); }
  }

  /** i is the number of trailing zero bits of w. */
  ghost predicate TrailingZeros(w: nat, i: nat) {
    Bit(w, i) && forall j :: 0 <= j < i ==> !Bit(w, j)
  }

  lemma ShiftedOut(w: nat, k: nat)
    requires LowZeros(w, k) && Shr(w, k) % 2 == 1
    ensures TrailingZeros(w, k)
  {
    ShiftBit(w, k, 0);
    forall j | 0 <= j < k
      ensures !Bit(w, j)
    {
      LowZerosHaveNoBit(w, k, j);
    }
  }

  lemma SmallPowers()
    ensures Pow2(0) == 1 && Pow2(1) == 2 && Pow2(2) == 4 && Pow2(4) == 16 && Pow2(8) == 256 && Pow2(16) == 65536
            && Pow2(32) == TWO_32
  {
    Pow2Values();
    assert Pow2(4) == 16;
    assert Pow2(8) == 256;
    assert Pow2(12) == 4096;
  }
}

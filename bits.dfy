/** Arithmetic view of bit strings: powers of two, the i-th bit of a natural
    number, and bitwise AND, OR and NOT over a fixed width. Every bit-level
    fact in the model is reduced to these definitions. */
module Bits {

  /** 2 to the power n. */
  function Pow2(n: nat): (r: nat)
    ensures r >= 1
  {
    if n == 0 then 1 else 2 * Pow2(n - 1)
  }

  /** x * 2^n, a left shift without a width, by doubling n times. */
  function MulPow2(x: nat, n: nat): nat
  {
    if n == 0 then x else 2 * MulPow2(x, n - 1)
  }

  /** x / 2^n, a logical right shift, by halving n times. */
  function DivPow2(x: nat, n: nat): nat
  {
    if n == 0 then x else DivPow2(x / 2, n - 1)
  }

  /** x mod 2^n, the low n bits of x, one bit at a time. */
  function ModPow2(x: nat, n: nat): nat
  {
    if n == 0 then 0 else 2 * ModPow2(x / 2, n - 1) + x % 2
  }

  /** Bit i of x, counting from the least significant bit. */
  predicate Bit(x: nat, i: nat)
  {
    if i == 0 then x % 2 == 1 else Bit(x / 2, i - 1)
  }

  /** Bitwise AND of the low `width` bits of x and y. */
  function BitAnd(x: nat, y: nat, width: nat): (r: nat)
    ensures forall i: nat :: Bit(r, i) <==> i < width && Bit(x, i) && Bit(y, i)
  {
    if width == 0 then
      BitsOfZero();
      0
    else
      var q := BitAnd(x / 2, y / 2, width - 1);
      var b := if x % 2 == 1 && y % 2 == 1 then 1 else 0;
      BitsOfDouble(q, b);
      2 * q + b
  }

  /** Bitwise OR of the low `width` bits of x and y. */
  function BitOr(x: nat, y: nat, width: nat): (r: nat)
    ensures forall i: nat :: Bit(r, i) <==> i < width && (Bit(x, i) || Bit(y, i))
  {
    if width == 0 then
      BitsOfZero();
      0
    else
      var q := BitOr(x / 2, y / 2, width - 1);
      var b := if x % 2 == 1 || y % 2 == 1 then 1 else 0;
      BitsOfDouble(q, b);
      2 * q + b
  }

  /** Bitwise complement of the low `width` bits of x. */
  function BitNot(x: nat, width: nat): (r: nat)
    ensures forall i: nat :: Bit(r, i) <==> i < width && !Bit(x, i)
  {
    if width == 0 then
      BitsOfZero();
      0
    else
      var q := BitNot(x / 2, width - 1);
      var b := if x % 2 == 1 then 0 else 1;
      BitsOfDouble(q, b);
      2 * q + b
  }

  /** The bitwise operations over a width stay below 2^width. */
  lemma {:induction false} BitAndBound(x: nat, y: nat, width: nat)
    ensures BitAnd(x, y, width) < Pow2(width)
  {
    if width > 0 {
      BitAndBound(x / 2, y / 2, width - 1);
    }
  }

  lemma {:induction false} BitOrBound(x: nat, y: nat, width: nat)
    ensures BitOr(x, y, width) < Pow2(width)
  {
    if width > 0 {
      BitOrBound(x / 2, y / 2, width - 1);
    }
  }

  lemma {:induction false} BitNotBound(x: nat, width: nat)
    ensures BitNot(x, width) < Pow2(width)
  {
    if width > 0 {
      BitNotBound(x / 2, width - 1);
    }
  }

  // ---------------------------------------------------------------------------
  // Powers of two

  lemma {:induction false} Pow2Add(a: nat, b: nat)
    ensures Pow2(a + b) == Pow2(a) * Pow2(b)
  {
    if a > 0 {
      Pow2Add(a - 1, b);
      assert Pow2(a + b) == 2 * Pow2(a - 1 + b);
      assert Pow2(a) * Pow2(b) == 2 * (Pow2(a - 1) * Pow2(b));
    }
  }

  lemma {:induction false} Pow2Le(a: nat, b: nat)
    requires a <= b
    ensures Pow2(a) <= Pow2(b)
  {
    if a < b {
      Pow2Le(a, b - 1);
    }
  }

  lemma Pow2Values()
    ensures Pow2(6) == 64 && Pow2(30) == 0x4000_0000
    ensures Pow2(31) == 0x8000_0000 && Pow2(32) == 0x1_0000_0000
    ensures Pow2(64) == 0x1_0000_0000_0000_0000
  {
    assert Pow2(8) == 256;
    Pow2Add(8, 8);
    Pow2Add(16, 8);
    Pow2Add(24, 6);
    assert Pow2(30) == 0x4000_0000;
    assert Pow2(31) == 2 * Pow2(30);
    assert Pow2(32) == 2 * Pow2(31);
    Pow2Add(32, 32);
  }

  // ---------------------------------------------------------------------------
  // Multiplication and division

  lemma {:induction false} MulLe(a: int, b: int, c: nat)
    requires a <= b
    ensures a * c <= b * c
  {
    if c > 0 {
      MulLe(a, b, c - 1);
      assert a * c == a * (c - 1) + a;
      assert b * c == b * (c - 1) + b;
    }
  }

  /** Division with remainder has a unique quotient and remainder. */
  lemma DivUnique(x: int, d: int, q: int, r: int)
    requires d > 0 && 0 <= r < d && x == q * d + r
    ensures x / d == q && x % d == r
  {
    var q0, r0 := x / d, x % d;
    assert x == q0 * d + r0;
    if q0 < q {
      MulLe(q0 + 1, q, d);
      assert false;
    } else if q < q0 {
      MulLe(q + 1, q0, d);
      assert false;
    }
  }

  lemma DivLe(x: nat, d: nat)
    requires d > 0
    ensures x / d <= x
  {
    MulLe(1, d, x / d);
  }

  lemma DivHalf(x: nat, p: nat)
    requires p > 0
    ensures x / (2 * p) == (x / 2) / p
    ensures x % (2 * p) == 2 * ((x / 2) % p) + x % 2
  {
    var q, r := (x / 2) / p, (x / 2) % p;
    assert x == q * (2 * p) + (2 * r + x % 2);
    DivUnique(x, 2 * p, q, 2 * r + x % 2);
  }

  /** The shift helpers are the arithmetic they stand for. */
  lemma {:induction false} MulPow2Value(x: nat, n: nat)
    ensures MulPow2(x, n) == x * Pow2(n)
  {
    if n > 0 {
      MulPow2Value(x, n - 1);
      assert x * Pow2(n) == 2 * (x * Pow2(n - 1));
    }
  }

  lemma {:induction false} DivPow2Value(x: nat, n: nat)
    ensures DivPow2(x, n) == x / Pow2(n)
  {
    if n > 0 {
      DivPow2Value(x / 2, n - 1);
      DivHalf(x, Pow2(n - 1));
    }
  }

  lemma {:induction false} ModPow2Value(x: nat, n: nat)
    ensures ModPow2(x, n) == x % Pow2(n)
  {
    if n > 0 {
      ModPow2Value(x / 2, n - 1);
      DivHalf(x, Pow2(n - 1));
    }
  }

  lemma {:induction false} ModPow2Bound(x: nat, n: nat)
    ensures ModPow2(x, n) < Pow2(n)
  {
    if n > 0 {
      ModPow2Bound(x / 2, n - 1);
    }
  }

  lemma {:induction false} DivPow2Bound(x: nat, a: nat, b: nat)
    requires x < Pow2(a + b)
    ensures DivPow2(x, a) < Pow2(b)
  {
    if a > 0 {
      assert Pow2(a + b) == 2 * Pow2(a - 1 + b);
      DivPow2Bound(x / 2, a - 1, b);
    }
  }

  lemma {:induction false} ConcatBound(hi: nat, lo: nat, a: nat, b: nat)
    requires hi < Pow2(a) && lo < Pow2(b)
    ensures MulPow2(hi, b) + lo < Pow2(a + b)
  {
    if b > 0 {
      ConcatBound(hi, lo / 2, a, b - 1);
      assert Pow2(a + b) == 2 * Pow2(a + (b - 1));
    }
  }

  // ---------------------------------------------------------------------------
  // Bits

  lemma {:induction false} BitsOfZero()
    ensures forall i: nat :: !Bit(0, i)
  {
    forall i: nat ensures !Bit(0, i) {
      BitOfZero(i);
    }
  }

  lemma {:induction false} BitOfZero(i: nat)
    ensures !Bit(0, i)
  {
    if i > 0 {
      BitOfZero(i - 1);
    }
  }

  /** Bits of 2 * q + b for a single bit b. */
  lemma BitsOfDouble(q: nat, b: nat)
    requires b < 2
    ensures var x := 2 * q + b; forall i: nat :: Bit(x, i) <==> if i == 0 then b == 1 else Bit(q, i - 1)
  {
    assert (2 * q + b) / 2 == q;
  }

  /** A number below 2^w has no bit at or above w. */
  lemma {:induction false} BitAbove(x: nat, w: nat, i: nat)
    requires x < Pow2(w) && w <= i
    ensures !Bit(x, i)
  {
    if w == 0 {
      BitOfZero(i);
    } else {
      BitAbove(x / 2, w - 1, i - 1);
    }
  }

  /** Two numbers below 2^w with the same w low bits are equal. */
  lemma {:induction false} BitsExt(x: nat, y: nat, w: nat)
    requires x < Pow2(w) && y < Pow2(w)
    requires forall i: nat :: i < w ==> (Bit(x, i) <==> Bit(y, i))
    ensures x == y
  {
    if w > 0 {
      assert Bit(x, 0) <==> Bit(y, 0);
      forall i: nat | i < w - 1
        ensures Bit(x / 2, i) <==> Bit(y / 2, i)
      {
        assert Bit(x, i + 1) <==> Bit(y, i + 1);
      }
      BitsExt(x / 2, y / 2, w - 1);
    }
  }

  /** The bits of hi * 2^k + lo are those of lo below k and those of hi above. */
  lemma {:induction false} BitOfConcat(hi: nat, lo: nat, k: nat, i: nat)
    requires lo < Pow2(k)
    ensures Bit(MulPow2(hi, k) + lo, i) <==> if i < k then Bit(lo, i) else Bit(hi, i - k)
  {
    if k > 0 {
      var q := MulPow2(hi, k - 1) + lo / 2;
      BitsOfDouble(q, lo % 2);
      assert MulPow2(hi, k) + lo == 2 * q + lo % 2;
      if i > 0 {
        BitOfConcat(hi, lo / 2, k - 1, i - 1);
      }
    }
  }

  lemma {:induction false} BitOfMulPow2(x: nat, n: nat, i: nat)
    ensures Bit(MulPow2(x, n), i) <==> n <= i && Bit(x, i - n)
  {
    if n > 0 {
      BitsOfDouble(MulPow2(x, n - 1), 0);
      if i > 0 {
        BitOfMulPow2(x, n - 1, i - 1);
      }
    }
  }

  lemma {:induction false} BitOfDivPow2(x: nat, n: nat, i: nat)
    ensures Bit(DivPow2(x, n), i) <==> Bit(x, i + n)
  {
    if n > 0 {
      BitOfDivPow2(x / 2, n - 1, i);
    }
  }

  /** BitOfDivPow2 with the source bit index given as j: its ensures then
      mention `Bit(x, j)` with the caller's own term for j, which the solver
      matches directly instead of rewriting `i + n`. */
  lemma BitOfDivPow2At(x: nat, n: nat, i: nat, j: nat)
    requires j == i + n
    ensures Bit(DivPow2(x, n), i) <==> Bit(x, j)
  {
    BitOfDivPow2(x, n, i);
  }

  lemma {:induction false} BitOfModPow2(x: nat, n: nat, i: nat)
    ensures Bit(ModPow2(x, n), i) <==> i < n && Bit(x, i)
  {
    if n == 0 {
      BitOfZero(i);
    } else {
      BitsOfDouble(ModPow2(x / 2, n - 1), x % 2);
      if i > 0 {
        BitOfModPow2(x / 2, n - 1, i - 1);
      }
    }
  }

  /** 2^n has exactly bit n set. */
  lemma {:induction false} BitOfPow2(n: nat, i: nat)
    ensures Bit(Pow2(n), i) <==> i == n
  {
    if n == 0 {
      if i > 0 {
        BitOfZero(i - 1);
      }
    } else {
      BitsOfDouble(Pow2(n - 1), 0);
      if i > 0 {
        BitOfPow2(n - 1, i - 1);
      }
    }
  }

  /** 2^k - 1 has exactly the bits below k. */
  lemma {:induction false} BitOfLowMask(k: nat, i: nat)
    ensures Bit(Pow2(k) - 1, i) <==> i < k
  {
    if k == 0 {
      BitOfZero(i);
    } else {
      assert Pow2(k) - 1 == 2 * (Pow2(k - 1) - 1) + 1;
      BitsOfDouble(Pow2(k - 1) - 1, 1);
      if i > 0 {
        BitOfLowMask(k - 1, i - 1);
      }
    }
  }

  /** x mod (a * b) mod a == x mod a. */
  lemma ModMod(x: int, a: int, b: int)
    requires a > 0 && b > 0
    ensures (x % (a * b)) % a == x % a
  {
    var r := x % (a * b);
    var q := x / (a * b);
    assert x == (q * b) * a + r;
    assert r == (r / a) * a + r % a;
    assert x == (q * b + r / a) * a + r % a;
    DivUnique(x, a, q * b + r / a, r % a);
  }
}

/** Emulated Java `long` values. A Long is a pair of JavaScript numbers, the
    high and the low 32 bits of a 64-bit two's-complement word. Every
    operation reads each half modulo 2^32 and returns halves in the signed
    32-bit range, so the pair stands for the unsigned 64-bit number Val. */
module Long64 {
  import opened Bits

  datatype Long = Long(high: int, low: int)

  const TWO31: int := 0x8000_0000
  const TWO32: int := 0x1_0000_0000
  const TWO64: int := 0x1_0000_0000_0000_0000

  /** JavaScript ToUint32 on an integral number. */
  function U32(x: int): (r: nat)
    ensures r < TWO32
  {
    x % TWO32
  }

  /** JavaScript ToInt32 on an integral number: the same 32 bits, read signed. */
  function I32(x: int): (r: int)
    ensures -TWO31 <= r < TWO31
    ensures U32(r) == U32(x)
  {
    var u := U32(x);
    if u < TWO31 then u else u - TWO32
  }

  /** Both halves are in the signed 32-bit range, as every operation returns them. */
  predicate IsInt32Pair(v: Long)
  {
    -TWO31 <= v.high < TWO31 && -TWO31 <= v.low < TWO31
  }

  /** The unsigned 64-bit number a pair stands for. */
  function Val(v: Long): (r: nat)
    ensures r < TWO64
  {
    U32(v.high) * TWO32 + U32(v.low)
  }

  /** Shift left by n < 64, discarding what leaves bit 63. */
  function ShiftLeft(v: Long, n: nat): (r: Long)
    requires n < 64
    ensures IsInt32Pair(r)
  {
    Long(I32(ShlHigh(U32(v.high), U32(v.low), n)), I32(ShlLow(U32(v.low), n)))
  }

  /** Logical (zero-filling) shift right by n < 64. */
  function ShiftRight(v: Long, n: nat): (r: Long)
    requires n < 64
    ensures IsInt32Pair(r)
  {
    Long(I32(ShrHigh(U32(v.high), n)), I32(ShrLow(U32(v.high), U32(v.low), n)))
  }

  /** Bitwise AND, half by half. */
  function And(a: Long, b: Long): (r: Long)
    ensures IsInt32Pair(r)
  {
    Long(I32(BitAnd(U32(a.high), U32(b.high), 32)), I32(BitAnd(U32(a.low), U32(b.low), 32)))
  }

  /** Bitwise OR, half by half. */
  function Or(a: Long, b: Long): (r: Long)
    ensures IsInt32Pair(r)
  {
    Long(I32(BitOr(U32(a.high), U32(b.high), 32)), I32(BitOr(U32(a.low), U32(b.low), 32)))
  }

  /** Bitwise complement, half by half. */
  function Not(a: Long): (r: Long)
    ensures IsInt32Pair(r)
  {
    Long(I32(BitNot(U32(a.high), 32)), I32(BitNot(U32(a.low), 32)))
  }

  // ---------------------------------------------------------------------------
  // The operations bit by bit

  /** Bit i of a shift left by n is bit i - n of the operand, and 0 below n. */
  lemma ShiftLeftBit(v: Long, n: nat, i: nat)
    requires n < 64 && i < 64
    ensures Bit(Val(ShiftLeft(v, n)), i) <==> n <= i && Bit(Val(v), i - n)
  {
    var h, l := U32(v.high), U32(v.low);
    var hi, lo := ShlHigh(h, l, n), ShlLow(l, n);
    ShlLowBit(l, n, 0);
    ShlHighBit(h, l, n, 0);
    FromHalvesBit(hi, lo, i);
    if n <= i {
      ValBit(v, i - n);
    }
    if i < 32 {
      ShlLowBit(l, n, i);
    } else {
      ShlHighBit(h, l, n, i - 32);
    }
  }

  /** Bit i of a shift right by n is bit i + n of the operand, and 0 from 64 - n on. */
  lemma ShiftRightBit(v: Long, n: nat, i: nat)
    requires n < 64 && i < 64
    ensures Bit(Val(ShiftRight(v, n)), i) <==> i + n < 64 && Bit(Val(v), i + n)
  {
    var h, l := U32(v.high), U32(v.low);
    var hi, lo := ShrHigh(h, n), ShrLow(h, l, n);
    ShrLowBit(h, l, n, 0);
    ShrHighBit(h, n, 0);
    FromHalvesBit(hi, lo, i);
    ValBit(v, i + n);
    if i + n >= 64 {
      NoBitAbove32(h, i + n - 32);
    }
    if i < 32 {
      ShrLowBit(h, l, n, i);
    } else {
      ShrHighBit(h, n, i - 32);
    }
  }

  lemma AndBit(a: Long, b: Long, i: nat)
    requires i < 64
    ensures Bit(Val(And(a, b)), i) <==> Bit(Val(a), i) && Bit(Val(b), i)
  {
    var hi, lo := BitAnd(U32(a.high), U32(b.high), 32), BitAnd(U32(a.low), U32(b.low), 32);
    BitAndBound(U32(a.high), U32(b.high), 32);
    BitAndBound(U32(a.low), U32(b.low), 32);
    Below32(hi, lo);
    FromHalvesBit(hi, lo, i);
    ValBit(a, i);
    ValBit(b, i);
  }

  lemma OrBit(a: Long, b: Long, i: nat)
    requires i < 64
    ensures Bit(Val(Or(a, b)), i) <==> Bit(Val(a), i) || Bit(Val(b), i)
  {
    var hi, lo := BitOr(U32(a.high), U32(b.high), 32), BitOr(U32(a.low), U32(b.low), 32);
    BitOrBound(U32(a.high), U32(b.high), 32);
    BitOrBound(U32(a.low), U32(b.low), 32);
    Below32(hi, lo);
    FromHalvesBit(hi, lo, i);
    ValBit(a, i);
    ValBit(b, i);
  }

  lemma NotBit(a: Long, i: nat)
    requires i < 64
    ensures Bit(Val(Not(a)), i) <==> !Bit(Val(a), i)
  {
    var hi, lo := BitNot(U32(a.high), 32), BitNot(U32(a.low), 32);
    BitNotBound(U32(a.high), 32);
    BitNotBound(U32(a.low), 32);
    Below32(hi, lo);
    FromHalvesBit(hi, lo, i);
    ValBit(a, i);
  }

  lemma Below32(hi: nat, lo: nat)
    requires hi < Pow2(32) && lo < Pow2(32)
    ensures hi < TWO32 && lo < TWO32
  {
    Pow2Of32();
  }

  lemma ShiftLeftBits(v: Long, n: nat)
    requires n < 64
    ensures forall i: nat :: i < 64 ==> (Bit(Val(ShiftLeft(v, n)), i) <==> n <= i && Bit(Val(v), i - n))
  {
    forall i: nat | i < 64
      ensures Bit(Val(ShiftLeft(v, n)), i) <==> n <= i && Bit(Val(v), i - n)
    {
      ShiftLeftBit(v, n, i);
    }
  }

  lemma ShiftRightBits(v: Long, n: nat)
    requires n < 64
    ensures forall i: nat :: i < 64 ==> (Bit(Val(ShiftRight(v, n)), i) <==> i + n < 64 && Bit(Val(v), i + n))
  {
    forall i: nat | i < 64
      ensures Bit(Val(ShiftRight(v, n)), i) <==> i + n < 64 && Bit(Val(v), i + n)
    {
      ShiftRightBit(v, n, i);
    }
  }

  // ---------------------------------------------------------------------------
  // The halves of a shift: the cross-half moves of the long module

  function ShlHigh(h: nat, l: nat, n: nat): nat
    requires n < 64
  {
    if n < 32 then MulPow2(ModPow2(h, 32 - n), n) + DivPow2(l, 32 - n)
    else MulPow2(ModPow2(l, 64 - n), n - 32)
  }

  function ShlLow(l: nat, n: nat): nat
    requires n < 64
  {
    if n < 32 then MulPow2(ModPow2(l, 32 - n), n) else 0
  }

  function ShrHigh(h: nat, n: nat): nat
    requires n < 64
  {
    if n < 32 then DivPow2(h, n) else 0
  }

  function ShrLow(h: nat, l: nat, n: nat): nat
    requires n < 64
  {
    if n < 32 then MulPow2(ModPow2(h, n), 32 - n) + DivPow2(l, n)
    else DivPow2(h, n - 32)
  }

  // ---------------------------------------------------------------------------
  // Lemmas about the halves

  lemma ValBit(v: Long, i: nat)
    ensures Bit(Val(v), i) <==> if i < 32 then Bit(U32(v.low), i) else Bit(U32(v.high), i - 32)
  {
    Pow2Of32();
    MulPow2Value(U32(v.high), 32);
    BitOfConcat(U32(v.high), U32(v.low), 32, i);
  }

  lemma Pow2Of32()
    ensures Pow2(32) == TWO32
  {
    Pow2Values();
  }

  /** 2^(a + b) for a split of 32; the sum is never a literal, which keeps
      the power from being unfolded at every use. */
  lemma Pow2Split(a: nat, b: nat)
    requires a + b == 32
    ensures Pow2(a + b) == TWO32
  {
    Pow2Of32();
  }

  /** Two 64-bit numbers with the same bits are equal. */
  lemma BitsExt64(x: nat, y: nat)
    requires x < TWO64 && y < TWO64
    requires forall i: nat :: i < 64 ==> (Bit(x, i) <==> Bit(y, i))
    ensures x == y
  {
    Pow2Values();
    BitsExt(x, y, 64);
  }

  /** A 32-bit number has no bit at or above 32. */
  lemma NoBitAbove32(x: nat, i: nat)
    requires x < TWO32 && 32 <= i
    ensures !Bit(x, i)
  {
    Pow2Of32();
    BitAbove(x, 32, i);
  }

  lemma SmallU32(x: nat)
    requires x < TWO32
    ensures U32(x) == x
  {
  }

  lemma ValOfSmall(x: nat)
    requires x < TWO32
    ensures Val(Long(0, x)) == x
  {
  }

  /** Bit i of a pair built from two unsigned halves. */
  lemma FromHalvesBit(hi: nat, lo: nat, i: nat)
    requires hi < TWO32 && lo < TWO32
    ensures Bit(Val(Long(I32(hi), I32(lo))), i) <==> if i < 32 then Bit(lo, i) else Bit(hi, i - 32)
  {
    SmallU32(hi);
    SmallU32(lo);
    assert U32(I32(hi)) == hi && U32(I32(lo)) == lo;
    ValBit(Long(I32(hi), I32(lo)), i);
  }

  lemma ShlLowBit(l: nat, n: nat, i: nat)
    requires l < TWO32 && n < 64 && i < 32
    ensures ShlLow(l, n) < TWO32
    ensures Bit(ShlLow(l, n), i) <==> n <= i && Bit(l, i - n)
  {
    Pow2Of32();
    if n < 32 {
      var a := ModPow2(l, 32 - n);
      ModPow2Bound(l, 32 - n);
      ConcatBound(a, 0, 32 - n, n);
      BitOfMulPow2(a, n, i);
      if n <= i {
        BitOfModPow2(l, 32 - n, i - n);
      }
    } else {
      BitOfZero(i);
    }
  }

  lemma ShlHighBit(h: nat, l: nat, n: nat, k: nat)
    requires h < TWO32 && l < TWO32 && n < 64 && k < 32
    ensures ShlHigh(h, l, n) < TWO32
    ensures Bit(ShlHigh(h, l, n), k) <==>
      n <= k + 32 && if k + 32 - n < 32 then Bit(l, k + 32 - n) else Bit(h, k - n)
  {
    if n < 32 {
      ShlHighBitShort(h, l, n, k);
    } else {
      ShlHighBitLong(l, n, k);
    }
  }

  /** A shift by less than 32: the high half takes h's low bits and l's top bits. */
  lemma ShlHighBitShort(h: nat, l: nat, n: nat, k: nat)
    requires h < TWO32 && l < TWO32 && n < 32 && k < 32
    ensures ShlHigh(h, l, n) < TWO32
    ensures Bit(ShlHigh(h, l, n), k) <==> if k < n then Bit(l, k + 32 - n) else Bit(h, k - n)
  {
    var b, c := ModPow2(h, 32 - n), DivPow2(l, 32 - n);
    Pow2Split(32 - n, n);
    ModPow2Bound(h, 32 - n);
    DivPow2Bound(l, 32 - n, n);
    ConcatBound(b, c, 32 - n, n);
    BitOfConcat(b, c, n, k);
    if k < n {
      BitOfDivPow2At(l, 32 - n, k, k + 32 - n);
    } else {
      BitOfModPow2(h, 32 - n, k - n);
    }
  }

  /** A shift by 32 or more: the high half takes l's low bits. */
  lemma ShlHighBitLong(l: nat, n: nat, k: nat)
    requires l < TWO32 && 32 <= n < 64 && k < 32
    ensures MulPow2(ModPow2(l, 64 - n), n - 32) < TWO32
    ensures Bit(MulPow2(ModPow2(l, 64 - n), n - 32), k) <==> n <= k + 32 && Bit(l, k + 32 - n)
  {
    var a := ModPow2(l, 64 - n);
    Pow2Split(64 - n, n - 32);
    ModPow2Bound(l, 64 - n);
    ConcatBound(a, 0, 64 - n, n - 32);
    BitOfMulPow2(a, n - 32, k);
    if n <= k + 32 {
      BitOfModPow2(l, 64 - n, k + 32 - n);
    }
  }

  lemma ShrLowBit(h: nat, l: nat, n: nat, i: nat)
    requires h < TWO32 && l < TWO32 && n < 64 && i < 32
    ensures ShrLow(h, l, n) < TWO32
    ensures Bit(ShrLow(h, l, n), i) <==> if i + n < 32 then Bit(l, i + n) else Bit(h, i + n - 32)
  {
    if n < 32 {
      ShrLowBitShort(h, l, n, i);
    } else {
      Pow2Split(n - 32, 64 - n);
      DivPow2Bound(h, n - 32, 64 - n);
      Pow2Le(64 - n, (n - 32) + (64 - n));
      BitOfDivPow2(h, n - 32, i);
    }
  }

  /** A shift by less than 32: the low half takes l's top bits and h's low bits. */
  lemma ShrLowBitShort(h: nat, l: nat, n: nat, i: nat)
    requires h < TWO32 && l < TWO32 && n < 32 && i < 32
    ensures ShrLow(h, l, n) < TWO32
    ensures Bit(ShrLow(h, l, n), i) <==> if i < 32 - n then Bit(l, i + n) else Bit(h, i + n - 32)
  {
    var a, c := ModPow2(h, n), DivPow2(l, n);
    Pow2Split(n, 32 - n);
    ModPow2Bound(h, n);
    DivPow2Bound(l, n, 32 - n);
    ConcatBound(a, c, n, 32 - n);
    BitOfConcat(a, c, 32 - n, i);
    if i < 32 - n {
      BitOfDivPow2(l, n, i);
    } else {
      BitOfModPow2(h, n, i - (32 - n));
    }
  }

  lemma ShrHighBit(h: nat, n: nat, k: nat)
    requires h < TWO32 && n < 64 && k < 32
    ensures ShrHigh(h, n) < TWO32
    ensures Bit(ShrHigh(h, n), k) <==> Bit(h, k + n)
  {
    if n < 32 {
      Pow2Split(n, 32 - n);
      DivPow2Bound(h, n, 32 - n);
      Pow2Le(32 - n, n + (32 - n));
      BitOfDivPow2(h, n, k);
    } else {
      BitOfZero(k);
      NoBitAbove32(h, k + n);
    }
  }

  /** `shiftLeft` is multiplication by 2^n modulo 2^64. */
  lemma ShiftLeftValue(v: Long, n: nat)
    requires n < 64
    ensures Val(ShiftLeft(v, n)) == Val(v) * Pow2(n) % TWO64
  {
    ShiftLeftBits(v, n);
    ShiftLeftVal(Val(v), n, Val(ShiftLeft(v, n)));
  }

  /** `shiftRight` is division by 2^n, filling with zeros. */
  lemma ShiftRightValue(v: Long, n: nat)
    requires n < 64
    ensures Val(ShiftRight(v, n)) == Val(v) / Pow2(n)
  {
    ShiftRightBits(v, n);
    ShiftRightVal(Val(v), n, Val(ShiftRight(v, n)));
  }

  /** A 64-bit number whose bits are those of x moved up by n is x * 2^n mod 2^64. */
  lemma ShiftLeftVal(x: nat, n: nat, y: nat)
    requires x < TWO64 && y < TWO64
    requires forall i: nat :: i < 64 ==> (Bit(y, i) <==> n <= i && Bit(x, i - n))
    ensures y == x * Pow2(n) % TWO64
  {
    Pow2Values();
    var z := ModPow2(MulPow2(x, n), 64);
    ModPow2Bound(MulPow2(x, n), 64);
    forall i: nat | i < 64
      ensures Bit(y, i) <==> Bit(z, i)
    {
      BitOfModPow2(MulPow2(x, n), 64, i);
      BitOfMulPow2(x, n, i);
    }
    BitsExt(y, z, 64);
    MulPow2Value(x, n);
    ModPow2Value(MulPow2(x, n), 64);
  }

  /** A 64-bit number whose bits are those of x moved down by n is x / 2^n. */
  lemma ShiftRightVal(x: nat, n: nat, y: nat)
    requires x < TWO64 && y < TWO64
    requires forall i: nat :: i < 64 ==> (Bit(y, i) <==> i + n < 64 && Bit(x, i + n))
    ensures y == x / Pow2(n)
  {
    Pow2Values();
    var z := DivPow2(x, n);
    DivPow2Value(x, n);
    DivLe(x, Pow2(n));
    forall i: nat | i < 64
      ensures Bit(y, i) <==> Bit(z, i)
    {
      BitOfDivPow2(x, n, i);
      if i + n >= 64 {
        BitAbove(x, 64, i + n);
      }
    }
    BitsExt(y, z, 64);
  }

  // ---------------------------------------------------------------------------
  // The test vectors of the long module

  /** A pair in the int32 range is determined by the number it stands for. */
  lemma ValInjective(a: Long, b: Long)
    requires IsInt32Pair(a) && IsInt32Pair(b) && Val(a) == Val(b)
    ensures a == b
  {
    DivUnique(Val(a), TWO32, U32(a.high), U32(a.low));
    DivUnique(Val(b), TWO32, U32(b.high), U32(b.low));
    assert U32(a.high) == U32(b.high) && U32(a.low) == U32(b.low);
    Int32OfU32(a.high);
    Int32OfU32(b.high);
    Int32OfU32(a.low);
    Int32OfU32(b.low);
  }

  /** On the int32 range, U32 adds 2^32 to the negative numbers. */
  lemma Int32OfU32(x: int)
    requires -TWO31 <= x < TWO31
    ensures U32(x) == if x >= 0 then x else x + TWO32
  {
    if x < 0 {
      DivUnique(x, TWO32, -1, x + TWO32);
    }
  }

  /** A shift is fixed by the number it produces: x, p and y stand for the
      shifted number, 2^n and the result. */
  lemma ShiftLeftIs(v: Long, n: nat, r: Long, x: nat, p: nat, y: nat)
    requires n < 64 && IsInt32Pair(r) && x == Val(v) && p == Pow2(n) && y == Val(r)
    requires y == x * p % TWO64
    ensures ShiftLeft(v, n) == r
  {
    ShiftLeftValue(v, n);
    ValInjective(ShiftLeft(v, n), r);
  }

  lemma ShiftRightIs(v: Long, n: nat, r: Long, x: nat, p: nat, y: nat)
    requires n < 64 && IsInt32Pair(r) && x == Val(v) && p == Pow2(n) && y == Val(r)
    requires y == x / p
    ensures ShiftRight(v, n) == r
  {
    ShiftRightValue(v, n);
    ValInjective(ShiftRight(v, n), r);
  }

  /** The left-shift cases of the long module's tests. */
  lemma ShiftLeftOnesBy32()
    ensures ShiftLeft(Long(0, 4294967295), 32) == Long(-1, 0)
  {
    Pow2Of32();
    ShiftLeftIs(Long(0, 4294967295), 32, Long(-1, 0), 4294967295, 4294967296, 18446744069414584320);
  }

  lemma ShiftLeftThreeBy32()
    ensures ShiftLeft(Long(0, 3), 32) == Long(3, 0)
  {
    Pow2Of32();
    ShiftLeftIs(Long(0, 3), 32, Long(3, 0), 3, 4294967296, 12884901888);
  }

  lemma ShiftLeftThreeBy33()
    ensures ShiftLeft(Long(0, 3), 33) == Long(6, 0)
  {
    Pow2Of32();
    assert Pow2(33) == 2 * Pow2(32);
    ShiftLeftIs(Long(0, 3), 33, Long(6, 0), 3, 8589934592, 25769803776);
  }

  lemma ShiftLeftThreeBy31()
    ensures ShiftLeft(Long(0, 3), 31) == Long(1, -2147483648)
  {
    Pow2Of32();
    assert Pow2(32) == 2 * Pow2(31);
    ShiftLeftIs(Long(0, 3), 31, Long(1, -2147483648), 3, 2147483648, 6442450944);
  }

  /** The right-shift cases of the long module's tests. */
  lemma ShiftRightOneBy32()
    ensures ShiftRight(Long(1, 0), 32) == Long(0, 1)
  {
    Pow2Of32();
    ShiftRightIs(Long(1, 0), 32, Long(0, 1), 4294967296, 4294967296, 1);
  }

  lemma ShiftRightOneBy1()
    ensures ShiftRight(Long(1, 0), 1) == Long(0, -2147483648)
  {
    assert Pow2(1) == 2;
    ShiftRightIs(Long(1, 0), 1, Long(0, -2147483648), 4294967296, 2, 2147483648);
  }

  lemma ShiftRightThreeBy1()
    ensures ShiftRight(Long(3, 0), 1) == Long(1, -2147483648)
  {
    assert Pow2(1) == 2;
    ShiftRightIs(Long(3, 0), 1, Long(1, -2147483648), 12884901888, 2, 6442450944);
  }
}

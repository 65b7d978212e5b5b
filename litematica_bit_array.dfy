/** The Litematica bit array: palette indices packed at a fixed bit width into
    an array of emulated 64-bit words. An entry of `numBits` bits for slot
    `index` occupies bits [index * numBits, (index + 1) * numBits) of the
    stream formed by the words, word 0 holding stream bits 0..63, and may
    straddle two words. */
module LitematicaBitArray {
  import opened Bits
  import opened Long64

  // ---------------------------------------------------------------------------
  // Bit width

  /** The least k with size <= 2^k: the integer value of ceil(log2(size)). */
  function CeilLog2(size: nat): (k: nat)
    ensures size <= Pow2(k)
    ensures k == 0 || Pow2(k - 1) < size
    decreases size
  {
    if size <= 1 then 0 else 1 + CeilLog2((size + 1) / 2)
  }

  /** `getNeededBits`: the bits per entry for a palette of `size` entries, at least 2. */
  function NeededBits(size: nat): (r: nat)
    ensures r >= 2 && size <= Pow2(r)
    ensures r == 2 || Pow2(r - 1) < size
  {
    var k := CeilLog2(size);
    if k > 2 then k else 2
  }

  /** No width below NeededBits(size) and at least 2 can hold `size` entries. */
  lemma NeededBitsIsLeast(size: nat, k: nat)
    requires 2 <= k && size <= Pow2(k)
    ensures NeededBits(size) <= k
  {
    var r := NeededBits(size);
    if k < r {
      Pow2Le(k, r - 1);
    }
  }

  const TWO30: int := 0x4000_0000

  /** Widths up to 30 are exactly the palettes of at most 2^30 entries. */
  lemma NeededBitsAtMost30(size: nat)
    ensures NeededBits(size) <= 30 <==> size <= TWO30
  {
    var r := NeededBits(size);
    if r <= 30 {
      Pow2AtMost30(r);
    } else {
      Pow2Le(30, r - 1);
      Pow2Of30();
    }
  }

  lemma Pow2Of30()
    ensures Pow2(30) == TWO30
  {
    Pow2Values();
  }

  /** An entry of at most 30 bits is a non-negative int32. */
  lemma Pow2AtMost30(n: nat)
    requires n <= 30
    ensures Pow2(n) <= TWO30 < TWO31
  {
    Pow2Le(n, 30);
    Pow2Of30();
  }

  // ---------------------------------------------------------------------------
  // The JavaScript 32-bit operators the code applies to plain numbers

  /** JavaScript `x << n`: the count is taken mod 32 and the result read as int32. */
  function JsShl(x: int, n: nat): int
  {
    I32(MulPow2(U32(x), n % 32))
  }

  /** JavaScript `x >> n`: an arithmetic shift of the int32 reading of x. */
  function JsShr(x: int, n: nat): int
  {
    I32(x) / Pow2(n % 32)
  }

  /** JavaScript `x & y`. */
  function JsAnd(x: int, y: int): int
  {
    I32(BitAnd(U32(x), U32(y), 32))
  }

  /** `(1 << numBits) - 1`: the entry mask, right only up to 30 bits. */
  function MaskFor(numBits: nat): (mask: int)
    ensures numBits <= 30 ==> mask == Pow2(numBits) - 1
    ensures numBits == 31 ==> mask == -TWO31 - 1
    ensures numBits == 32 ==> mask == 0
  {
    JsShlOneSmall(numBits);
    JsShlOneWide(numBits);
    JsShl(1, numBits) - 1
  }

  /** A number in the non-negative int32 range reads back as itself. */
  lemma SmallI32(x: int)
    requires 0 <= x < TWO31
    ensures I32(x) == x
  {
  }

  /** Whatever the width, the 32 bits of the mask `(1 << numBits) - 1` are
      numBits mod 32 ones: the wrapped 31-bit mask still acts as 31 ones
      under `&` and under the long primitives, and only 32 bits (mask 0)
      break it. */
  lemma MaskBits(numBits: nat)
    ensures U32(MaskFor(numBits)) == Pow2(numBits % 32) - 1
  {
    var k := numBits % 32;
    var a := JsShl(1, numBits);
    JsShlOneBits(numBits);
    if a == Pow2(k) {
      assert U32(a - 1) == Pow2(k) - 1;
    } else {
      assert a == Pow2(k) - TWO32;
      assert U32(a - 1) == Pow2(k) - 1;
    }
  }

  /** `1 << n` is 2^(n mod 32) read as int32. */
  lemma JsShlOneBits(n: nat)
    ensures 0 < Pow2(n % 32) <= TWO31
    ensures JsShl(1, n) == Pow2(n % 32) || JsShl(1, n) == Pow2(n % 32) - TWO32
  {
    var k := n % 32;
    assert U32(1) == 1;
    MulPow2Value(1, k);
    if k <= 30 {
      Pow2AtMost30(k);
    } else {
      Pow2Split(k, 1);
    }
  }

  /** `1 << n` for n <= 30 is 2^n. */
  lemma JsShlOneSmall(n: nat)
    ensures n <= 30 ==> JsShl(1, n) == Pow2(n)
  {
    if n <= 30 {
      assert n % 32 == n && U32(1) == 1;
      MulPow2Value(1, n);
      Pow2AtMost30(n);
      SmallI32(Pow2(n));
    }
  }

  /** `1 << 31` wraps into the sign bit and `1 << 32` back to 1. */
  lemma JsShlOneWide(n: nat)
    ensures n == 31 ==> JsShl(1, n) == -TWO31
    ensures n == 32 ==> JsShl(1, n) == 1
  {
    if n == 31 {
      JsShlOneSignBit(n);
    } else if n == 32 {
      JsShlOneFull(n);
    }
  }

  lemma JsShlOneSignBit(n: nat)
    requires n == 31
    ensures JsShl(1, n) == -TWO31
  {
    var k := n % 32;
    assert U32(1) == 1;
    MulPow2Value(1, k);
    Pow2Split(k, 1);
    assert MulPow2(U32(1), k) == TWO31;
  }

  lemma JsShlOneFull(n: nat)
    requires n == 32
    ensures JsShl(1, n) == 1
  {
    assert n % 32 == 0 && U32(1) == 1;
  }

  /** AND with k low ones keeps the low k bits. */
  lemma AndLowMask(x: nat, k: nat, w: nat)
    requires k <= w && x < Pow2(w)
    ensures BitAnd(x, Pow2(k) - 1, w) == ModPow2(x, k)
  {
    var a := BitAnd(x, Pow2(k) - 1, w);
    var r := ModPow2(x, k);
    BitAndBound(x, Pow2(k) - 1, w);
    ModPow2Bound(x, k);
    Pow2Le(k, w);
    forall i: nat | i < w
      ensures Bit(a, i) <==> Bit(r, i)
    {
      BitOfLowMask(k, i);
      BitOfModPow2(x, k, i);
    }
    BitsExt(a, r, w);
  }

  /** Reducing mod 2^32 first does not change the low k <= 32 bits. */
  lemma U32Mod(value: int, k: nat)
    requires k <= 32
    ensures U32(value) % Pow2(k) == value % Pow2(k)
  {
    Pow2Split(k, 32 - k);
    Pow2Add(k, 32 - k);
    ModMod(value, Pow2(k), Pow2(32 - k));
  }

  /** `& mask` with a mask of numBits ones keeps the value mod 2^numBits. */
  lemma JsAndMask(value: int, numBits: nat)
    requires numBits <= 30
    ensures JsAnd(value, Pow2(numBits) - 1) == value % Pow2(numBits)
  {
    var u := U32(value);
    Pow2AtMost30(numBits);
    SmallU32(Pow2(numBits) - 1);
    Pow2Split(numBits, 32 - numBits);
    AndLowMask(u, numBits, numBits + (32 - numBits));
    ModPow2Value(u, numBits);
    ModPow2Bound(u, numBits);
    U32Mod(value, numBits);
    SmallI32(ModPow2(u, numBits));
  }

  /** The entry `value & mask` fits in numBits bits. */
  lemma MaskedEntryRange(value: int, numBits: nat, mask: int)
    requires numBits <= 30 && mask == Pow2(numBits) - 1
    ensures 0 <= JsAnd(value, mask) < Pow2(numBits)
  {
    JsAndMask(value, numBits);
  }

  /** For offsets below 2^31, `>> 6` and `& 0x3f` are division and remainder by 64. */
  lemma JsWordIndexing(x: nat)
    requires x < TWO31
    ensures JsShr(x, 6) == x / 64 && JsAnd(x, 0x3f) == x % 64
  {
    assert Pow2(6) == 64;
    SmallI32(x);
    JsAndMask(x, 6);
  }

  // ---------------------------------------------------------------------------
  // Where an entry lies

  /** The first stream bit of slot `index`. */
  function Offset(index: nat, numBits: nat): nat
  {
    MulLe(0, index, numBits);
    index * numBits
  }

  /** `startArrIndex`: the word holding the first bit of the entry. */
  function StartWord(index: nat, numBits: nat): nat
  {
    Offset(index, numBits) / 64
  }

  /** `endArrIndex`: the word holding the last bit of the entry. */
  function EndWord(index: nat, numBits: nat): int
  {
    (Offset(index + 1, numBits) - 1) / 64
  }

  /** `startBitOffset`: the position of the first bit within its word. */
  function StartBitOffset(index: nat, numBits: nat): nat
  {
    Offset(index, numBits) % 64
  }

  /** An entry of at most 64 bits spans one word or two adjacent words, and it
      spans two exactly when it runs past bit 63 of the first. */
  lemma WordSpan(index: nat, numBits: nat)
    requires 1 <= numBits <= 64
    ensures Offset(index + 1, numBits) == Offset(index, numBits) + numBits
    ensures Offset(index, numBits) == 64 * StartWord(index, numBits) + StartBitOffset(index, numBits)
    ensures EndWord(index, numBits) == StartWord(index, numBits)
         || EndWord(index, numBits) == StartWord(index, numBits) + 1
    ensures EndWord(index, numBits) != StartWord(index, numBits)
        <==> StartBitOffset(index, numBits) + numBits > 64
  {
    var p := Offset(index, numBits);
    assert Offset(index + 1, numBits) == p + numBits;
    var s, o := p / 64, p % 64;
    var t := if o + numBits > 64 then 1 else 0;
    DivUnique(p + numBits - 1, 64, s + t, o + numBits - 1 - 64 * t);
  }

  /** Every word `set` touches for a slot below 64 * volume is inside an
      array of volume * numBits words: `createBitArray` allocates a word per
      entry bit, 64 times what the volume slots need. */
  lemma SetIndicesInBounds(index: nat, numBits: nat, volume: nat)
    requires index < 64 * volume && 1 <= numBits <= 64
    ensures 0 <= StartWord(index, numBits) <= EndWord(index, numBits) < volume * numBits
  {
    WordSpan(index, numBits);
    MulLe(index + 1, 64 * volume, numBits);
    assert (64 * volume) * numBits == 64 * (volume * numBits);
  }

  /** From slot 64 * volume on, the start word lies past the array. */
  lemma SetIndicesOutOfBounds(index: nat, numBits: nat, volume: nat)
    requires 64 * volume <= index && 1 <= numBits <= 64
    ensures volume * numBits <= StartWord(index, numBits)
  {
    MulLe(64 * volume, index, numBits);
    assert (64 * volume) * numBits == 64 * (volume * numBits);
  }

  // ---------------------------------------------------------------------------
  // The array

  /** `BitArray`: the word array, the bits per entry, the entry mask and the
      number of slots. The record is shared; `set` changes the words in place. */
  datatype BitArray = BitArray(words: array<Long>, numBits: nat, mask: int, volume: nat)

  /** The states `set` is defined on: a width whose mask is right, and the
      word count `createBitArray` allocates. */
  predicate Valid(b: BitArray)
  {
    2 <= b.numBits <= 30 && b.mask == Pow2(b.numBits) - 1
    && b.words.Length == b.volume * b.numBits
  }

  /** `createBitArray`: volume * numBits zero words (one word per entry bit, far
      more than the ceil(volume * numBits / 64) the entries need). */
  method CreateBitArray(volume: nat, paletteLength: nat) returns (b: BitArray)
    ensures fresh(b.words)
    ensures b.numBits == NeededBits(paletteLength) && b.mask == MaskFor(b.numBits)
    ensures b.volume == volume
    ensures b.words.Length == volume * b.numBits
    ensures forall k :: 0 <= k < b.words.Length ==> b.words[k] == Long(0, 0)
    ensures paletteLength <= TWO30 ==> Valid(b)
  {
    var numBits := NeededBits(paletteLength);
    MulLe(0, volume, numBits);
    var words := new Long[volume * numBits](_ => Long(0, 0));
    var mask := MaskFor(numBits);
    NeededBitsAtMost30(paletteLength);
    b := BitArray(words, numBits, mask, volume);
  }

  // ---------------------------------------------------------------------------
  // What `set` does, bit by bit

  /** The start word after `set`: the slot's bits cleared with the mask moved
      up to bit o, then the entry OR-ed in at bit o. */
  function StartWordAfterSet(w: Long, mask: int, o: nat, entry: int): Long
    requires o < 64
  {
    Or(And(w, Not(ShiftLeft(Long(0, mask), o))), ShiftLeft(Long(0, entry), o))
  }

  /** The end word after `set` as written: shifted left then right by j1, which
      clears the top j1 bits, then the rest of the entry OR-ed into the low bits. */
  function EndWordAfterSet(w: Long, j1: nat, endOffset: nat, entry: int): Long
    requires j1 < 64 && endOffset < 64
  {
    Or(ShiftRight(ShiftLeft(w, j1), j1), ShiftRight(Long(0, entry), endOffset))
  }

  /** The end word after `set` as the Java original computes it: shifted right
      then left by j1, which clears the low j1 bits, then the rest of the entry. */
  function EndWordAfterSetCorrected(w: Long, j1: nat, endOffset: nat, entry: int): Long
    requires j1 < 64 && endOffset < 64
  {
    Or(ShiftLeft(ShiftRight(w, j1), j1), ShiftRight(Long(0, entry), endOffset))
  }

  /** The new start word: bits [o, o + numBits) of w replaced by m; when the
      entry runs past bit 63 only its low 64 - o bits land here. */
  lemma StartWordBits(w: Long, r: Long, numBits: nat, mask: int, o: nat, m: nat)
    requires 1 <= numBits <= 30 && mask == Pow2(numBits) - 1 && o < 64 && m < Pow2(numBits)
    requires r == StartWordAfterSet(w, mask, o, m)
    ensures forall i: nat :: i < 64 ==>
      (Bit(Val(r), i) <==> if o <= i < o + numBits then Bit(m, i - o) else Bit(Val(w), i))
  {
    forall i: nat | i < 64 {
      StartWordBit(w, numBits, mask, o, m, i);
    }
  }

  lemma StartWordBit(w: Long, numBits: nat, mask: int, o: nat, m: nat, i: nat)
    requires 1 <= numBits <= 30 && mask == Pow2(numBits) - 1 && o < 64 && m < Pow2(numBits) && i < 64
    ensures Bit(Val(StartWordAfterSet(w, mask, o, m)), i) <==>
      if o <= i < o + numBits then Bit(m, i - o) else Bit(Val(w), i)
  {
    var sm := ShiftLeft(Long(0, mask), o);
    var kept := And(w, Not(sm));
    var sv := ShiftLeft(Long(0, m), o);
    ShiftedMaskBit(numBits, mask, o, i);
    ShiftedEntryBit(numBits, o, m, i);
    OrBit(kept, sv, i);
    AndBit(w, Not(sm), i);
    NotBit(sm, i);
  }

  /** The mask moved up to bit o covers exactly bits [o, o + numBits). */
  lemma ShiftedMaskBit(numBits: nat, mask: int, o: nat, i: nat)
    requires 1 <= numBits <= 30 && mask == Pow2(numBits) - 1 && o < 64 && i < 64
    ensures Bit(Val(ShiftLeft(Long(0, mask), o)), i) <==> o <= i < o + numBits
  {
    Pow2AtMost30(numBits);
    ValOfSmall(mask);
    ShiftLeftBit(Long(0, mask), o, i);
    if o <= i {
      BitOfLowMask(numBits, i - o);
    }
  }

  /** An entry moved up to bit o has its bits in [o, o + numBits) only. */
  lemma ShiftedEntryBit(numBits: nat, o: nat, m: nat, i: nat)
    requires 1 <= numBits <= 30 && o < 64 && m < Pow2(numBits) && i < 64
    ensures Bit(Val(ShiftLeft(Long(0, m), o)), i) <==> o <= i < o + numBits && Bit(m, i - o)
  {
    Pow2AtMost30(numBits);
    ValOfSmall(m);
    ShiftLeftBit(Long(0, m), o, i);
    if o + numBits <= i {
      BitAbove(m, numBits, i - o);
    }
  }

  /** The high bits of an entry moved down by 64 - o land in bits [0, j1). */
  lemma CarriedEntryBit(numBits: nat, o: nat, m: nat, i: nat)
    requires 1 <= numBits <= 30 && o < 64 && 64 < o + numBits && m < Pow2(numBits) && i < 64
    ensures Bit(Val(ShiftRight(Long(0, m), 64 - o)), i) <==> i < o + numBits - 64 && Bit(m, i + 64 - o)
  {
    Pow2AtMost30(numBits);
    ValOfSmall(m);
    ShiftRightBit(Long(0, m), 64 - o, i);
    if o + numBits - 64 <= i {
      BitAbove(m, numBits, i + 64 - o);
    }
  }

  /** The new end word of a straddling entry as the code computes it, with
      j1 = o + numBits - 64 entry bits past the start word and endOffset =
      64 - o: the high bits of m are OR-ed into the low j1 bits without
      clearing them first, and the top j1 bits are cleared instead. */
  lemma EndWordBits(w: Long, r: Long, numBits: nat, o: nat, j1: nat, endOffset: nat, m: nat)
    requires 1 <= numBits <= 30 && o < 64 && j1 == o + numBits - 64 && endOffset == 64 - o
    requires 0 < j1 && m < Pow2(numBits)
    requires r == EndWordAfterSet(w, j1, endOffset, m)
    ensures forall i: nat :: i < 64 ==>
      (Bit(Val(r), i) <==>
        (i < 64 - j1 && Bit(Val(w), i)) || (i < j1 && Bit(m, i + 64 - o)))
  {
    forall i: nat | i < 64 {
      EndWordBit(w, numBits, o, j1, endOffset, m, i);
    }
  }

  lemma EndWordBit(w: Long, numBits: nat, o: nat, j1: nat, endOffset: nat, m: nat, i: nat)
    requires 1 <= numBits <= 30 && o < 64 && j1 == o + numBits - 64 && endOffset == 64 - o
    requires 0 < j1 && m < Pow2(numBits) && i < 64
    ensures Bit(Val(EndWordAfterSet(w, j1, endOffset, m)), i) <==>
      (i < 64 - j1 && Bit(Val(w), i)) || (i < j1 && Bit(m, i + 64 - o))
  {
    var kept := ShiftRight(ShiftLeft(w, j1), j1);
    var carried := ShiftRight(Long(0, m), endOffset);
    CarriedEntryBit(numBits, o, m, i);
    OrBit(kept, carried, i);
    ClearedTopBit(w, j1, i);
  }

  /** `<< j1` then `>>> j1` clears the top j1 bits and keeps the others. */
  lemma ClearedTopBit(w: Long, j1: nat, i: nat)
    requires j1 < 64 && i < 64
    ensures Bit(Val(ShiftRight(ShiftLeft(w, j1), j1)), i) <==> i + j1 < 64 && Bit(Val(w), i)
  {
    ShiftRightBit(ShiftLeft(w, j1), j1, i);
    if i + j1 < 64 {
      ShiftLeftBit(w, j1, i + j1);
    }
  }

  /** The new end word of a straddling entry as the Java original computes it:
      the low j1 bits become the high bits of m and every other bit is kept. */
  lemma EndWordBitsCorrected(w: Long, r: Long, numBits: nat, o: nat, j1: nat, endOffset: nat, m: nat)
    requires 1 <= numBits <= 30 && o < 64 && j1 == o + numBits - 64 && endOffset == 64 - o
    requires 0 < j1 && m < Pow2(numBits)
    requires r == EndWordAfterSetCorrected(w, j1, endOffset, m)
    ensures forall i: nat :: i < 64 ==>
      (Bit(Val(r), i) <==>
        if i < j1 then Bit(m, i + 64 - o) else Bit(Val(w), i))
  {
    forall i: nat | i < 64 {
      EndWordBitCorrected(w, numBits, o, j1, endOffset, m, i);
    }
  }

  lemma EndWordBitCorrected(w: Long, numBits: nat, o: nat, j1: nat, endOffset: nat, m: nat, i: nat)
    requires 1 <= numBits <= 30 && o < 64 && j1 == o + numBits - 64 && endOffset == 64 - o
    requires 0 < j1 && m < Pow2(numBits) && i < 64
    ensures Bit(Val(EndWordAfterSetCorrected(w, j1, endOffset, m)), i) <==>
      if i < j1 then Bit(m, i + 64 - o) else Bit(Val(w), i)
  {
    var kept := ShiftLeft(ShiftRight(w, j1), j1);
    var carried := ShiftRight(Long(0, m), endOffset);
    CarriedEntryBit(numBits, o, m, i);
    OrBit(kept, carried, i);
    ClearedLowBit(w, j1, i);
  }

  /** `>>> j1` then `<< j1` clears the low j1 bits and keeps the others. */
  lemma ClearedLowBit(w: Long, j1: nat, i: nat)
    requires j1 < 64 && i < 64
    ensures Bit(Val(ShiftLeft(ShiftRight(w, j1), j1)), i) <==> j1 <= i && Bit(Val(w), i)
  {
    ShiftLeftBit(ShiftRight(w, j1), j1, i);
    if j1 <= i {
      ShiftRightBit(w, j1, i - j1);
    }
  }

  /** The effect of `set` on the words when the entry starts at bit o of word
      s, with m = value & mask, as written: only the start word and the end
      word change; bits [o, o + numBits) of the start word become the low bits
      of m; a straddling entry ORs the rest of m into the end word's low j1
      bits and clears that word's top j1 bits. */
  ghost predicate WordsWrittenAsSet(before: seq<Long>, after: seq<Long>, numBits: nat, s: nat, o: nat, m: nat)
  {
    var e := if o + numBits > 64 then s + 1 else s;
    var j1 := o + numBits - 64;
    o < 64 && |after| == |before| && e < |before|
    && (forall k :: 0 <= k < |before| && k != s && k != e ==> after[k] == before[k])
    && IsInt32Pair(after[s]) && IsInt32Pair(after[e])
    && (forall i: nat :: i < 64 ==>
          (Bit(Val(after[s]), i) <==> if o <= i < o + numBits then Bit(m, i - o) else Bit(Val(before[s]), i)))
    && (s != e ==> forall i: nat :: i < 64 ==>
          (Bit(Val(after[e]), i) <==> (i < 64 - j1 && Bit(Val(before[e]), i)) || (i < j1 && Bit(m, i + 64 - o))))
  }

  /** The effect of `set(index, value)` on the words, with m = value & mask. */
  ghost predicate WrittenAsSet(before: seq<Long>, after: seq<Long>, numBits: nat, index: nat, m: nat)
  {
    WordsWrittenAsSet(before, after, numBits, StartWord(index, numBits), StartBitOffset(index, numBits), m)
  }

  /** What `set` computes before it writes, for a slot below 64 * volume in an
      array of `len` words: the word indices and bit offset of the slot (the
      end word is the start word or the next one, and inside the array) and
      the entry value & mask, which is value mod 2^numBits. */
  lemma SetIndices(index: nat, numBits: nat, mask: int, volume: nat, len: nat, value: int,
                   s: int, e: int, o: int, entry: int)
    requires 2 <= numBits <= 30 && mask == Pow2(numBits) - 1
    requires index < 64 * volume && (index + 1) * numBits <= TWO31 && len == volume * numBits
    requires s == JsShr(index * numBits, 6) && e == JsShr((index + 1) * numBits - 1, 6)
    requires o == JsAnd(index * numBits, 0x3f) && entry == JsAnd(value, mask)
    ensures 0 <= s && 0 <= o < 64 && e == (if o + numBits > 64 then s + 1 else s) && e < len
    ensures s == StartWord(index, numBits) && o == StartBitOffset(index, numBits)
    ensures 0 <= entry < Pow2(numBits) && entry == value % Pow2(numBits)
  {
    SetIndexing(index, numBits, index * numBits, (index + 1) * numBits - 1);
    WordSpan(index, numBits);
    SetIndicesInBounds(index, numBits, volume);
    JsAndMask(value, numBits);
  }

  /** The word indices and bit offset `set` computes with JavaScript's 32-bit
      operators are those of the slot, as long as (index + 1) * numBits stays
      below 2^31. */
  lemma SetIndexing(index: nat, numBits: nat, startOffset: int, lastBit: int)
    requires 1 <= numBits <= 64 && (index + 1) * numBits <= TWO31
    requires startOffset == index * numBits && lastBit == (index + 1) * numBits - 1
    ensures JsShr(startOffset, 6) == StartWord(index, numBits)
    ensures JsAnd(startOffset, 0x3f) == StartBitOffset(index, numBits)
    ensures JsShr(lastBit, 6) == EndWord(index, numBits)
  {
    assert lastBit == Offset(index + 1, numBits) - 1;
    MulLe(index, index + 1, numBits);
    MulLe(1, index + 1, numBits);
    JsWordIndexing(startOffset);
    JsWordIndexing(lastBit);
  }

  /** `after` is `before` with bits [o, o + numBits) of word s replaced by
      the entry and every other bit of every word kept: the first of the two
      writes WordsWrittenAsSet combines (SetSteps), stated for one array
      state so that each method write can be specified on its own. */
  ghost predicate StartWordWritten(before: seq<Long>, after: seq<Long>, s: int, numBits: nat, o: int, entry: int)
  {
    0 <= s < |before| == |after| && 0 <= o < 64 && 0 <= entry
    && (forall k :: 0 <= k < |before| && k != s ==> after[k] == before[k])
    && IsInt32Pair(after[s])
    && forall i: nat :: i < 64 ==>
         (Bit(Val(after[s]), i) <==> if o <= i < o + numBits then Bit(entry, i - o) else Bit(Val(before[s]), i))
  }

  /** `after` is `before` with word e changed as `set` changes the end word
      of a straddling entry: its top j1 bits cleared and the entry's high
      bits OR-ed into its low j1 bits. */
  ghost predicate EndWordWritten(before: seq<Long>, after: seq<Long>, e: int, o: int, j1: int, entry: int)
  {
    0 <= e < |before| == |after| && 0 <= o < 64 && 0 < j1 && 0 <= entry
    && (forall k :: 0 <= k < |before| && k != e ==> after[k] == before[k])
    && IsInt32Pair(after[e])
    && forall i: nat :: i < 64 ==>
         (Bit(Val(after[e]), i) <==> (i < 64 - j1 && Bit(Val(before[e]), i)) || (i < j1 && Bit(entry, i + 64 - o)))
  }

  /** Lines 53-56 of `set`: the start-word update. */
  method WriteStartWord(words: array<Long>, s: int, numBits: nat, mask: int, o: int, entry: int)
    requires 0 <= s < words.Length && 0 <= o < 64
    requires 1 <= numBits <= 30 && mask == Pow2(numBits) - 1 && 0 <= entry < Pow2(numBits)
    modifies words
    ensures StartWordWritten(old(words[..]), words[..], s, numBits, o, entry)
  {
    ghost var before := words[..];
    var r := StartWordAfterSet(words[s], mask, o, entry);
    StartWordBits(before[s], r, numBits, mask, o, entry);
    words[s] := r;
    assert words[..] == before[s := r];
  }

  /** Lines 59-65 of `set`: the end-word update as written. */
  method WriteEndWord(words: array<Long>, e: int, numBits: nat, o: int, j1: int, endOffset: int, entry: int)
    requires 0 <= e < words.Length && 0 <= o < 64 && 1 <= numBits <= 30
    requires j1 == o + numBits - 64 && 0 < j1 && endOffset == 64 - o && 0 <= entry < Pow2(numBits)
    modifies words
    ensures EndWordWritten(old(words[..]), words[..], e, o, j1, entry)
  {
    ghost var before := words[..];
    var r := EndWordAfterSet(words[e], j1, endOffset, entry);
    EndWordBits(before[e], r, numBits, o, j1, endOffset, entry);
    words[e] := r;
    assert words[..] == before[e := r];
  }

  /** The two word updates of `set(index, value)` together have the effect
      WrittenAsSet describes. */
  lemma SetSteps(before: seq<Long>, mid: seq<Long>, after: seq<Long>, numBits: nat, index: nat,
                  s: int, e: int, o: int, m: int)
    requires 1 <= numBits <= 30 && s == StartWord(index, numBits) && o == StartBitOffset(index, numBits)
    requires e == (if o + numBits > 64 then s + 1 else s)
    requires StartWordWritten(before, mid, s, numBits, o, m)
    requires s != e ==> EndWordWritten(mid, after, e, o, numBits - (64 - o), m)
    requires s == e ==> after == mid
    ensures WrittenAsSet(before, after, numBits, index, m)
  {
  }

  /** `set`: write value & mask into slot `index`, changing the words in place
      and returning the same record. */
  method Set(b: BitArray, index: nat, value: int) returns (r: BitArray)
    requires Valid(b)
    requires index < 64 * b.volume
    requires (index + 1) * b.numBits <= TWO31
    modifies b.words
    ensures r == b
    ensures WrittenAsSet(old(b.words[..]), b.words[..], b.numBits, index, value % Pow2(b.numBits))
  {
    ghost var before := b.words[..];
    var startOffset := index * b.numBits;
    var startArrIndex := JsShr(startOffset, 6);
    var endArrIndex := JsShr((index + 1) * b.numBits - 1, 6);
    var startBitOffset := JsAnd(startOffset, 0x3f);
    var entry := JsAnd(value, b.mask);
    SetIndices(index, b.numBits, b.mask, b.volume, b.words.Length, value,
               startArrIndex, endArrIndex, startBitOffset, entry);
    WriteStartWord(b.words, startArrIndex, b.numBits, b.mask, startBitOffset, entry);
    ghost var mid := b.words[..];
    if startArrIndex != endArrIndex {
      var endOffset := 64 - startBitOffset;
      var j1 := b.numBits - endOffset;
      WriteEndWord(b.words, endArrIndex, b.numBits, startBitOffset, j1, endOffset, entry);
    }
    SetSteps(before, mid, b.words[..], b.numBits, index, startArrIndex, endArrIndex, startBitOffset, entry);
    r := b;
  }

  // ---------------------------------------------------------------------------
  // Reading an entry back

  /** Bit p of the stream formed by the words (0 past the last word). */
  ghost predicate StreamBit(words: seq<Long>, p: nat)
  {
    p / 64 < |words| && Bit(Val(words[p / 64]), p % 64)
  }

  /** The last word an entry of numBits bits starting at stream bit p0 touches
      lies inside the words. */
  ghost predicate EntryInside(words: seq<Long>, numBits: nat, p0: nat)
  {
    p0 / 64 + (if p0 % 64 + numBits > 64 then 1 else 0) < |words|
  }

  /** The read sketched in the commented-out `get`, for the entry whose first
      bit is stream bit p0: the start word shifted right by o, OR-ed with the
      end word shifted left by 64 - o when the entry straddles two words, and
      masked. */
  ghost function DecodeAt(words: seq<Long>, numBits: nat, mask: int, p0: nat): nat
    requires numBits <= 64 && EntryInside(words, numBits, p0)
  {
    var s, o := p0 / 64, p0 % 64;
    if o + numBits <= 64 then ReadOne(words[s], o, mask)
    else ReadTwo(words[s], words[s + 1], o, mask)
  }

  /** The read of an entry inside one word: the word moved down by o, masked. */
  ghost function ReadOne(w: Long, o: nat, mask: int): nat
    requires o < 64
  {
    Val(And(ShiftRight(w, o), Long(0, mask)))
  }

  /** The read of an entry across two words: the first moved down by o, OR
      the second moved up by 64 - o, masked. */
  ghost function ReadTwo(w1: Long, w2: Long, o: nat, mask: int): nat
    requires 0 < o < 64
  {
    Val(And(Or(ShiftRight(w1, o), ShiftLeft(w2, 64 - o)), Long(0, mask)))
  }

  lemma ReadOneBit(w: Long, o: nat, numBits: nat, mask: int, i: nat)
    requires 2 <= numBits <= 30 && mask == Pow2(numBits) - 1 && o < 64 && i < 64
    ensures Bit(ReadOne(w, o, mask), i) <==> i < numBits && i + o < 64 && Bit(Val(w), i + o)
  {
    ShiftRightBit(w, o, i);
    MaskedBit(ShiftRight(w, o), numBits, mask, i);
  }

  lemma ReadTwoBit(w1: Long, w2: Long, o: nat, numBits: nat, mask: int, i: nat)
    requires 2 <= numBits <= 30 && mask == Pow2(numBits) - 1 && 0 < o < 64 && i < 64
    ensures Bit(ReadTwo(w1, w2, o, mask), i) <==>
      i < numBits && if i + o < 64 then Bit(Val(w1), i + o) else Bit(Val(w2), i + o - 64)
  {
    var lo, hi := ShiftRight(w1, o), ShiftLeft(w2, 64 - o);
    ShiftRightBit(w1, o, i);
    ShiftLeftBit(w2, 64 - o, i);
    OrBit(lo, hi, i);
    MaskedBit(Or(lo, hi), numBits, mask, i);
  }

  /** The value of slot `index` (the entry spans two words exactly when the
      start and end word indices differ, as WordSpan shows). */
  ghost function Decode(words: seq<Long>, numBits: nat, mask: int, index: nat): nat
    requires 1 <= numBits <= 64 && 0 <= EndWord(index, numBits) < |words|
  {
    WordSpan(index, numBits);
    DecodeAt(words, numBits, mask, Offset(index, numBits))
  }

  /** Stream bit 64 * s + t is bit t of word s. */
  lemma StreamBitAt(words: seq<Long>, s: nat, t: nat, p: nat)
    requires t < 64 && p == 64 * s + t
    ensures StreamBit(words, p) <==> s < |words| && Bit(Val(words[s]), t)
  {
    DivUnique(p, 64, s, t);
  }

  /** Bit i of the masked read: below numBits, bit i of what was read. */
  lemma MaskedBit(x: Long, numBits: nat, mask: int, i: nat)
    requires 2 <= numBits <= 30 && mask == Pow2(numBits) - 1 && i < 64
    ensures Bit(Val(And(x, Long(0, mask))), i) <==> i < numBits && Bit(Val(x), i)
  {
    Pow2AtMost30(numBits);
    ValOfSmall(mask);
    BitOfLowMask(numBits, i);
    AndBit(x, Long(0, mask), i);
  }

  /** Bit i of a decoded entry is bit i + o of the start word, or bit
      i + o - 64 of the end word. */
  lemma ReadBit(words: seq<Long>, numBits: nat, mask: int, p0: nat, i: nat)
    requires 2 <= numBits <= 30 && mask == Pow2(numBits) - 1 && i < 64
    requires EntryInside(words, numBits, p0)
    ensures Bit(DecodeAt(words, numBits, mask, p0), i) <==>
      (i < numBits && if p0 % 64 + i < 64 then Bit(Val(words[p0 / 64]), p0 % 64 + i)
                      else Bit(Val(words[p0 / 64 + 1]), p0 % 64 + i - 64))
  {
    if p0 % 64 + numBits <= 64 {
      ReadOneBit(words[p0 / 64], p0 % 64, numBits, mask, i);
    } else {
      ReadTwoBit(words[p0 / 64], words[p0 / 64 + 1], p0 % 64, numBits, mask, i);
    }
  }

  /** Bit i of a decoded entry is stream bit p0 + i. */
  lemma DecodeAtBit(words: seq<Long>, numBits: nat, mask: int, p0: nat, i: nat)
    requires 2 <= numBits <= 30 && mask == Pow2(numBits) - 1 && i < 64
    requires EntryInside(words, numBits, p0)
    ensures Bit(DecodeAt(words, numBits, mask, p0), i) <==> i < numBits && StreamBit(words, p0 + i)
  {
    if p0 % 64 + i < 64 {
      StreamBitAt(words, p0 / 64, p0 % 64 + i, p0 + i);
    } else {
      StreamBitAt(words, p0 / 64 + 1, p0 % 64 + i - 64, p0 + i);
    }
    ReadBit(words, numBits, mask, p0, i);
  }

  /** An entry whose stream bits are those of m decodes to m. */
  lemma DecodeAtEquals(words: seq<Long>, numBits: nat, mask: int, p0: nat, m: nat)
    requires 2 <= numBits <= 30 && mask == Pow2(numBits) - 1 && m < Pow2(numBits)
    requires EntryInside(words, numBits, p0)
    requires forall p: nat :: p0 <= p < p0 + numBits ==> (StreamBit(words, p) <==> Bit(m, p - p0))
    ensures DecodeAt(words, numBits, mask, p0) == m
  {
    var d := DecodeAt(words, numBits, mask, p0);
    forall i: nat | i < 64
      ensures Bit(d, i) <==> Bit(m, i)
    {
      DecodeAtBit(words, numBits, mask, p0, i);
      if i >= numBits {
        BitAbove(m, numBits, i);
      } else {
        assert StreamBit(words, p0 + i) <==> Bit(m, p0 + i - p0);
      }
    }
    Pow2AtMost30(numBits);
    BitsExt64(d, m);
  }

  /** Two entries with the same stream bits decode to the same value. */
  lemma DecodeAtSame(w1: seq<Long>, w2: seq<Long>, numBits: nat, mask: int, p0: nat)
    requires 2 <= numBits <= 30 && mask == Pow2(numBits) - 1
    requires EntryInside(w1, numBits, p0) && EntryInside(w2, numBits, p0)
    requires forall p: nat :: p0 <= p < p0 + numBits ==> (StreamBit(w1, p) <==> StreamBit(w2, p))
    ensures DecodeAt(w1, numBits, mask, p0) == DecodeAt(w2, numBits, mask, p0)
  {
    var d1, d2 := DecodeAt(w1, numBits, mask, p0), DecodeAt(w2, numBits, mask, p0);
    forall i: nat | i < 64
      ensures Bit(d1, i) <==> Bit(d2, i)
    {
      DecodeAtBit(w1, numBits, mask, p0, i);
      DecodeAtBit(w2, numBits, mask, p0, i);
    }
    BitsExt64(d1, d2);
  }

  /** The low j bits of w are clear. */
  ghost predicate LowBitsClear(w: Long, j: nat)
  {
    forall i: nat :: i < j ==> !Bit(Val(w), i)
  }

  /** One stream bit of SetThenDecode. */
  lemma SetThenDecodeBit(before: seq<Long>, after: seq<Long>, numBits: nat, s: nat, o: nat, m: nat, p: nat)
    requires 2 <= numBits <= 30 && m < Pow2(numBits)
    requires WordsWrittenAsSet(before, after, numBits, s, o, m)
    requires o + numBits > 64 ==> LowBitsClear(before[s + 1], o + numBits - 64)
    requires 64 * s + o <= p < 64 * s + o + numBits
    ensures StreamBit(after, p) <==> Bit(m, p - (64 * s + o))
  {
    var i := p - (64 * s + o);
    if o + i < 64 {
      DivUnique(p, 64, s, o + i);
      assert Bit(Val(after[s]), o + i) <==> Bit(m, o + i - o);
    } else {
      var e := s + 1;
      DivUnique(p, 64, e, o + i - 64);
      assert Bit(Val(after[e]), o + i - 64) <==> Bit(m, o + i - 64 + 64 - o);
    }
  }

  /** The stream bits of an entry written by `set` as written, when the low
      j1 bits of the end word were clear before the write. */
  lemma SetThenStreamBits(before: seq<Long>, after: seq<Long>, numBits: nat, s: nat, o: nat, m: nat)
    requires 2 <= numBits <= 30 && m < Pow2(numBits)
    requires WordsWrittenAsSet(before, after, numBits, s, o, m)
    requires o + numBits > 64 ==> LowBitsClear(before[s + 1], o + numBits - 64)
    ensures EntryInside(after, numBits, 64 * s + o)
    ensures forall p: nat :: 64 * s + o <= p < 64 * s + o + numBits ==>
      (StreamBit(after, p) <==> Bit(m, p - (64 * s + o)))
  {
    DivUnique(64 * s + o, 64, s, o);
    forall p: nat | 64 * s + o <= p < 64 * s + o + numBits
      ensures StreamBit(after, p) <==> Bit(m, p - (64 * s + o))
    {
      SetThenDecodeBit(before, after, numBits, s, o, m, p);
    }
  }

  /** Round trip of `set` as written: the slot decodes to value & mask when
      the entry fits in its start word, or when the low j1 bits of the end
      word were clear before the write. */
  lemma SetThenDecode(before: seq<Long>, after: seq<Long>, numBits: nat, mask: int, s: nat, o: nat, m: nat)
    requires 2 <= numBits <= 30 && mask == Pow2(numBits) - 1 && m < Pow2(numBits)
    requires WordsWrittenAsSet(before, after, numBits, s, o, m)
    requires o + numBits > 64 ==> LowBitsClear(before[s + 1], o + numBits - 64)
    ensures EntryInside(after, numBits, 64 * s + o)
    ensures DecodeAt(after, numBits, mask, 64 * s + o) == m
  {
    SetThenStreamBits(before, after, numBits, s, o, m);
    DecodeAtSlot(after, numBits, mask, s, o, m);
  }

  /** DecodeAtEquals for the entry at bit o of word s. Its requires match
      what SetThenStreamBits ensures term for term, so the solver does not
      have to relate `64 * s + o` to a bound variable p0. */
  lemma DecodeAtSlot(after: seq<Long>, numBits: nat, mask: int, s: nat, o: nat, m: nat)
    requires 2 <= numBits <= 30 && mask == Pow2(numBits) - 1 && m < Pow2(numBits)
    requires EntryInside(after, numBits, 64 * s + o)
    requires forall p: nat :: 64 * s + o <= p < 64 * s + o + numBits ==>
      (StreamBit(after, p) <==> Bit(m, p - (64 * s + o)))
    ensures DecodeAt(after, numBits, mask, 64 * s + o) == m
  {
    DecodeAtEquals(after, numBits, mask, 64 * s + o, m);
  }

  // ---------------------------------------------------------------------------
  // What a correct `set` promises for every slot

  /** The intended effect of writing m into the entry at stream bit p0:
      stream bits [p0, p0 + numBits) become m and no other stream bit changes. */
  ghost predicate WrittenAsIntendedAt(before: seq<Long>, after: seq<Long>, numBits: nat, p0: nat, m: nat)
  {
    |after| == |before|
    && forall p: nat :: (StreamBit(after, p) <==>
         if p0 <= p < p0 + numBits then Bit(m, p - p0) else StreamBit(before, p))
  }

  /** The intended effect of `set(index, value)`, with m = value & mask. */
  ghost predicate WrittenAsIntended(before: seq<Long>, after: seq<Long>, numBits: nat, index: nat, m: nat)
  {
    WrittenAsIntendedAt(before, after, numBits, Offset(index, numBits), m)
  }

  /** The word-level form of the intended effect, as the Java original
      computes it: the start word as in WordsWrittenAsSet, and the low j1 bits
      of the end word replaced by the high bits of m. */
  ghost predicate WordsWrittenAsIntended(before: seq<Long>, after: seq<Long>, numBits: nat, s: nat, o: nat, m: nat)
  {
    var e := if o + numBits > 64 then s + 1 else s;
    var j1 := o + numBits - 64;
    o < 64 && |after| == |before| && e < |before|
    && (forall k :: 0 <= k < |before| && k != s && k != e ==> after[k] == before[k])
    && IsInt32Pair(after[s]) && IsInt32Pair(after[e])
    && (forall i: nat :: i < 64 ==>
          (Bit(Val(after[s]), i) <==> if o <= i < o + numBits then Bit(m, i - o) else Bit(Val(before[s]), i)))
    && (s != e ==> forall i: nat :: i < 64 ==>
          (Bit(Val(after[e]), i) <==> if i < j1 then Bit(m, i + 64 - o) else Bit(Val(before[e]), i)))
  }

  /** One stream bit of IntendedFromWords. */
  lemma IntendedFromWordsBit(before: seq<Long>, after: seq<Long>, numBits: nat, s: nat, o: nat, m: nat, p: nat)
    requires 1 <= numBits <= 30 && m < Pow2(numBits)
    requires WordsWrittenAsIntended(before, after, numBits, s, o, m)
    ensures var p0 := 64 * s + o;
      StreamBit(after, p) <==> if p0 <= p < p0 + numBits then Bit(m, p - p0) else StreamBit(before, p)
  {
    var p0 := 64 * s + o;
    var e := if o + numBits > 64 then s + 1 else s;
    var k, t := p / 64, p % 64;
    if k == s {
      if o <= t < o + numBits {
        assert Bit(Val(after[s]), t) <==> Bit(m, t - o);
      }
    } else if k == e {
      assert Bit(Val(after[e]), t) <==> if t < o + numBits - 64 then Bit(m, t + 64 - o) else Bit(Val(before[e]), t);
    } else if k < |before| {
      assert after[k] == before[k];
    }
  }

  /** The word-level intended effect is the stream-level one. */
  lemma IntendedFromWords(before: seq<Long>, after: seq<Long>, numBits: nat, s: nat, o: nat, m: nat)
    requires 1 <= numBits <= 30 && m < Pow2(numBits)
    requires WordsWrittenAsIntended(before, after, numBits, s, o, m)
    ensures WrittenAsIntendedAt(before, after, numBits, 64 * s + o, m)
  {
    forall p: nat
      ensures StreamBit(after, p) <==>
        if 64 * s + o <= p < 64 * s + o + numBits then Bit(m, p - (64 * s + o)) else StreamBit(before, p)
    {
      IntendedFromWordsBit(before, after, numBits, s, o, m, p);
    }
  }

  /** After a correct `set` the slot decodes to m. */
  lemma IntendedRoundTrip(before: seq<Long>, after: seq<Long>, numBits: nat, mask: int, p0: nat, m: nat)
    requires 2 <= numBits <= 30 && mask == Pow2(numBits) - 1 && m < Pow2(numBits)
    requires EntryInside(after, numBits, p0)
    requires WrittenAsIntendedAt(before, after, numBits, p0, m)
    ensures DecodeAt(after, numBits, mask, p0) == m
  {
    DecodeAtEquals(after, numBits, mask, p0, m);
  }

  /** After a correct `set` every entry that does not overlap the written one
      decodes as before. */
  lemma IntendedLeavesOtherSlots(before: seq<Long>, after: seq<Long>, numBits: nat, mask: int, p0: nat, q0: nat, m: nat)
    requires 2 <= numBits <= 30 && mask == Pow2(numBits) - 1 && m < Pow2(numBits)
    requires q0 + numBits <= p0 || p0 + numBits <= q0
    requires EntryInside(before, numBits, q0)
    requires WrittenAsIntendedAt(before, after, numBits, p0, m)
    ensures EntryInside(after, numBits, q0)
    ensures DecodeAt(after, numBits, mask, q0) == DecodeAt(before, numBits, mask, q0)
  {
    DecodeAtSame(after, before, numBits, mask, q0);
  }

  /** Bits 0 to j - 1 and 64 - j to 63 of w are clear. */
  ghost predicate EndBitsClear(w: Long, j: nat)
  {
    forall i: nat :: i < 64 && (i < j || 64 - j <= i) ==> !Bit(Val(w), i)
  }

  /** `set` as written does what was intended when the end word of a
      straddling entry had its low j1 and its top j1 bits clear. */
  lemma AsWrittenIsIntended(before: seq<Long>, after: seq<Long>, numBits: nat, s: nat, o: nat, m: nat)
    requires 1 <= numBits <= 30 && m < Pow2(numBits)
    requires WordsWrittenAsSet(before, after, numBits, s, o, m)
    requires o + numBits > 64 ==> EndBitsClear(before[s + 1], o + numBits - 64)
    ensures WrittenAsIntendedAt(before, after, numBits, 64 * s + o, m)
  {
    if o + numBits > 64 {
      var e, j1 := s + 1, o + numBits - 64;
      forall i: nat | i < 64
        ensures Bit(Val(after[e]), i) <==> if i < j1 then Bit(m, i + 64 - o) else Bit(Val(before[e]), i)
      {
        if j1 <= i {
          BitAbove(m, numBits, i + 64 - o);
        }
      }
    }
    IntendedFromWords(before, after, numBits, s, o, m);
  }

  /** Filling slots in increasing order: when no stream bit at or past the
      entry's first bit is set, `set` as written does what was intended, and
      afterwards no stream bit past the entry is set. */
  lemma InOrderSetIsIntended(before: seq<Long>, after: seq<Long>, numBits: nat, s: nat, o: nat, m: nat)
    requires 1 <= numBits <= 30 && m < Pow2(numBits)
    requires WordsWrittenAsSet(before, after, numBits, s, o, m)
    requires forall p: nat :: 64 * s + o <= p ==> !StreamBit(before, p)
    ensures WrittenAsIntendedAt(before, after, numBits, 64 * s + o, m)
    ensures forall p: nat :: 64 * s + o + numBits <= p ==> !StreamBit(after, p)
  {
    if o + numBits > 64 {
      var e := s + 1;
      forall i: nat | i < 64
        ensures !Bit(Val(before[e]), i)
      {
        assert !StreamBit(before, 64 * e + i);
        DivUnique(64 * e + i, 64, e, i);
      }
    }
    AsWrittenIsIntended(before, after, numBits, s, o, m);
  }

  // ---------------------------------------------------------------------------
  // The correction: the end word as the Java original writes it

  /** `after` is `before` with the low j1 bits of word e replaced by the
      entry's high bits, as the Java original changes the end word. */
  ghost predicate EndWordWrittenCorrected(before: seq<Long>, after: seq<Long>, e: int, o: int, j1: int, entry: int)
  {
    0 <= e < |before| == |after| && 0 <= o < 64 && 0 < j1 && 0 <= entry
    && (forall k :: 0 <= k < |before| && k != e ==> after[k] == before[k])
    && IsInt32Pair(after[e])
    && forall i: nat :: i < 64 ==>
         (Bit(Val(after[e]), i) <==> if i < j1 then Bit(entry, i + 64 - o) else Bit(Val(before[e]), i))
  }

  /** The end-word update as the Java original writes it (`>>> j1 << j1`
      instead of `<< j1 >>> j1`). */
  method WriteEndWordCorrected(words: array<Long>, e: int, numBits: nat, o: int, j1: int, endOffset: int, entry: int)
    requires 0 <= e < words.Length && 0 <= o < 64 && 1 <= numBits <= 30
    requires j1 == o + numBits - 64 && 0 < j1 && endOffset == 64 - o && 0 <= entry < Pow2(numBits)
    modifies words
    ensures EndWordWrittenCorrected(old(words[..]), words[..], e, o, j1, entry)
  {
    ghost var before := words[..];
    var r := EndWordAfterSetCorrected(words[e], j1, endOffset, entry);
    EndWordBitsCorrected(before[e], r, numBits, o, j1, endOffset, entry);
    words[e] := r;
    assert words[..] == before[e := r];
  }

  /** The start-word update followed by the corrected end-word update is the
      word-level intended effect. */
  lemma CorrectedWordSteps(before: seq<Long>, mid: seq<Long>, after: seq<Long>, numBits: nat, s: nat, e: int, o: nat, entry: int)
    requires 1 <= numBits <= 30 && e == (if o + numBits > 64 then s + 1 else s)
    requires StartWordWritten(before, mid, s, numBits, o, entry)
    requires s != e ==> EndWordWrittenCorrected(mid, after, e, o, numBits - (64 - o), entry)
    requires s == e ==> after == mid
    ensures WordsWrittenAsIntended(before, after, numBits, s, o, entry)
  {
  }

  /** The start-word update followed by the corrected end-word update does
      what was intended. */
  lemma SetCorrectedSteps(before: seq<Long>, mid: seq<Long>, after: seq<Long>, numBits: nat, index: nat,
                           s: nat, e: int, o: nat, m: nat)
    requires 1 <= numBits <= 30 && m < Pow2(numBits)
    requires s == StartWord(index, numBits) && o == StartBitOffset(index, numBits)
    requires e == (if o + numBits > 64 then s + 1 else s)
    requires StartWordWritten(before, mid, s, numBits, o, m)
    requires s != e ==> EndWordWrittenCorrected(mid, after, e, o, numBits - (64 - o), m)
    requires s == e ==> after == mid
    ensures WrittenAsIntended(before, after, numBits, index, m)
  {
    WordSpan(index, numBits);
    CorrectedWordSteps(before, mid, after, numBits, s, e, o, m);
    IntendedFromWords(before, after, numBits, s, o, m);
    IntendedAtSlot(before, after, numBits, index, 64 * s + o, m, m);
  }

  /** WrittenAsIntendedAt at the slot's first stream bit is WrittenAsIntended.
      It lets callers state the stream form at `64 * s + o` and conclude the
      slot form without unfolding Offset inside the quantified predicate. */
  lemma IntendedAtSlot(before: seq<Long>, after: seq<Long>, numBits: nat, index: nat, p0: nat, entry: nat, m: nat)
    requires p0 == Offset(index, numBits) && entry == m
    requires WrittenAsIntendedAt(before, after, numBits, p0, entry)
    ensures WrittenAsIntended(before, after, numBits, index, m)
  {
  }

  /** `set` with the corrected end word, in place: the slot's stream bits
      become value & mask and no other stream bit changes. */
  method SetCorrected(b: BitArray, index: nat, value: int) returns (r: BitArray)
    requires Valid(b)
    requires index < 64 * b.volume
    requires (index + 1) * b.numBits <= TWO31
    modifies b.words
    ensures r == b
    ensures WordsWrittenAsIntended(old(b.words[..]), b.words[..], b.numBits,
      StartWord(index, b.numBits), StartBitOffset(index, b.numBits), value % Pow2(b.numBits))
    ensures WrittenAsIntended(old(b.words[..]), b.words[..], b.numBits, index, value % Pow2(b.numBits))
  {
    ghost var before := b.words[..];
    var startOffset := index * b.numBits;
    var startArrIndex := JsShr(startOffset, 6);
    var endArrIndex := JsShr((index + 1) * b.numBits - 1, 6);
    var startBitOffset := JsAnd(startOffset, 0x3f);
    var entry := JsAnd(value, b.mask);
    SetIndices(index, b.numBits, b.mask, b.volume, b.words.Length, value,
               startArrIndex, endArrIndex, startBitOffset, entry);
    WriteStartWord(b.words, startArrIndex, b.numBits, b.mask, startBitOffset, entry);
    ghost var mid := b.words[..];
    if startArrIndex != endArrIndex {
      var endOffset := 64 - startBitOffset;
      var j1 := b.numBits - endOffset;
      WriteEndWordCorrected(b.words, endArrIndex, b.numBits, startBitOffset, j1, endOffset, entry);
    }
    CorrectedWordSteps(before, mid, b.words[..], b.numBits, startArrIndex, endArrIndex, startBitOffset, entry);
    SetCorrectedSteps(before, mid, b.words[..], b.numBits, index, startArrIndex, endArrIndex, startBitOffset, entry);
    r := b;
  }

  // ---------------------------------------------------------------------------
  // Round trips through the array

  /** No stream bit of the zero words `createBitArray` allocates is set. */
  lemma ZeroWordsHaveNoBits(words: seq<Long>)
    requires forall k :: 0 <= k < |words| ==> words[k] == Long(0, 0)
    ensures forall p: nat :: !StreamBit(words, p)
  {
    ValOfSmall(0);
    BitsOfZero();
  }

  /** On zero words `set` as written does what was intended. */
  lemma FreshSetIsIntended(before: seq<Long>, after: seq<Long>, numBits: nat, index: nat, m: nat)
    requires 2 <= numBits <= 30 && m < Pow2(numBits)
    requires forall k :: 0 <= k < |before| ==> before[k] == Long(0, 0)
    requires WrittenAsSet(before, after, numBits, index, m)
    ensures WrittenAsIntended(before, after, numBits, index, m)
  {
    var s, o := StartWord(index, numBits), StartBitOffset(index, numBits);
    WordSpan(index, numBits);
    ZeroWordsHaveNoBits(before);
    InOrderSetIsIntended(before, after, numBits, s, o, m);
    IntendedAtSlot(before, after, numBits, index, 64 * s + o, m, m);
  }

  /** After a correct `set` of slot `index` the slot decodes to m. */
  lemma IntendedSlotDecodes(before: seq<Long>, after: seq<Long>, volume: nat, numBits: nat, mask: int, index: nat, m: nat)
    requires 2 <= numBits <= 30 && mask == Pow2(numBits) - 1 && m < Pow2(numBits)
    requires index < volume && |after| == volume * numBits
    requires WrittenAsIntended(before, after, numBits, index, m)
    ensures 0 <= EndWord(index, numBits) < |after| && Decode(after, numBits, mask, index) == m
  {
    WordSpan(index, numBits);
    SetIndicesInBounds(index, numBits, volume);
    IntendedRoundTrip(before, after, numBits, mask, Offset(index, numBits), m);
  }

  /** After a correct `set` of slot `index` every other slot decodes as before. */
  lemma IntendedOtherSlotDecodes(before: seq<Long>, after: seq<Long>, volume: nat, numBits: nat, mask: int,
                                 index: nat, j: nat, m: nat)
    requires 2 <= numBits <= 30 && mask == Pow2(numBits) - 1 && m < Pow2(numBits)
    requires index < volume && j < volume && j != index && |before| == volume * numBits
    requires WrittenAsIntended(before, after, numBits, index, m)
    ensures 0 <= EndWord(j, numBits) < |after|
    ensures Decode(after, numBits, mask, j) == Decode(before, numBits, mask, j)
  {
    SetIndicesInBounds(j, numBits, volume);
    WordSpan(j, numBits);
    WordSpan(index, numBits);
    if j < index {
      MulLe(j + 1, index, numBits);
    } else {
      MulLe(index + 1, j, numBits);
    }
    IntendedLeavesOtherSlots(before, after, numBits, mask, Offset(index, numBits), Offset(j, numBits), m);
  }

  /** Every slot of the zero words decodes to 0. */
  lemma ZeroSlotDecodes(words: seq<Long>, volume: nat, numBits: nat, mask: int, j: nat)
    requires 2 <= numBits <= 30 && mask == Pow2(numBits) - 1
    requires j < volume && |words| == volume * numBits
    requires forall k :: 0 <= k < |words| ==> words[k] == Long(0, 0)
    ensures 0 <= EndWord(j, numBits) < |words| && Decode(words, numBits, mask, j) == 0
  {
    SetIndicesInBounds(j, numBits, volume);
    WordSpan(j, numBits);
    ZeroWordsHaveNoBits(words);
    BitsOfZero();
    DecodeAtEquals(words, numBits, mask, Offset(j, numBits), 0);
  }

  /** One `set` on a fresh array: the slot decodes to value & mask and every
      other slot still decodes to 0. */
  method SetOnFresh(volume: nat, paletteLength: nat, index: nat, value: int) returns (b: BitArray)
    requires paletteLength <= TWO30
    requires index < volume
    requires (index + 1) * NeededBits(paletteLength) <= TWO31
    ensures Valid(b) && b.volume == volume && b.numBits == NeededBits(paletteLength)
    ensures 0 <= EndWord(index, b.numBits) < b.words.Length
      && Decode(b.words[..], b.numBits, b.mask, index) == value % Pow2(b.numBits)
    ensures forall j: nat :: j < volume && j != index ==>
      0 <= EndWord(j, b.numBits) < b.words.Length && Decode(b.words[..], b.numBits, b.mask, j) == 0
  {
    b := CreateBitArray(volume, paletteLength);
    ghost var before := b.words[..];
    b := Set(b, index, value);
    ghost var m := value % Pow2(b.numBits);
    FreshSetIsIntended(before, b.words[..], b.numBits, index, m);
    IntendedSlotDecodes(before, b.words[..], volume, b.numBits, b.mask, index, m);
    forall j: nat | j < volume && j != index
      ensures 0 <= EndWord(j, b.numBits) < b.words.Length && Decode(b.words[..], b.numBits, b.mask, j) == 0
    {
      IntendedOtherSlotDecodes(before, b.words[..], volume, b.numBits, b.mask, index, j, m);
      ZeroSlotDecodes(before, volume, b.numBits, b.mask, j);
    }
  }

  // ---------------------------------------------------------------------------
  // Writing a straddling slot twice

  /** Two `set`s as written of the same straddling entry: the low j1 bits of
      the end word accumulate the high bits of both entries instead of taking
      those of the second. */
  lemma EndWordAccumulates(w0: seq<Long>, w1: seq<Long>, w2: seq<Long>, numBits: nat, s: nat, o: nat,
                           m1: nat, m2: nat, i: nat)
    requires WordsWrittenAsSet(w0, w1, numBits, s, o, m1)
    requires WordsWrittenAsSet(w1, w2, numBits, s, o, m2)
    requires numBits <= 30 && 64 < o + numBits && i < o + numBits - 64
    ensures Bit(Val(w2[s + 1]), i) <==>
      Bit(Val(w0[s + 1]), i) || Bit(m1, i + 64 - o) || Bit(m2, i + 64 - o)
  {
    assert Bit(Val(w1[s + 1]), i) <==> Bit(Val(w0[s + 1]), i) || Bit(m1, i + 64 - o);
  }

  /** The input that shows it: on zero words with 5-bit entries, slot 12
      spans bits 60 to 64, so its top bit lies in word 1. After setting it to
      16 and then to 0 it still reads 16. */
  lemma StaleBitCounterexample(w0: seq<Long>, w1: seq<Long>, w2: seq<Long>)
    requires 2 <= |w0| && forall k :: 0 <= k < |w0| ==> w0[k] == Long(0, 0)
    requires WrittenAsSet(w0, w1, 5, 12, 16)
    requires WrittenAsSet(w1, w2, 5, 12, 0)
    ensures 0 <= EndWord(12, 5) < |w2| && Decode(w2, 5, 31, 12) == 16
  {
    assert StartWord(12, 5) == 0 && StartBitOffset(12, 5) == 60 && EndWord(12, 5) == 1;
    assert Pow2(5) == 32 && Pow2(4) == 16;
    forall p: nat | 60 <= p < 65
      ensures StreamBit(w2, p) <==> Bit(16, p - 60)
    {
      BitOfPow2(4, p - 60);
      if p < 64 {
        StreamBitAt(w2, 0, p, p);
        BitOfZero(p - 60);
      } else {
        StreamBitAt(w2, 1, 0, p);
        ValOfSmall(0);
        BitOfZero(0);
        EndWordAccumulates(w0, w1, w2, 5, 0, 60, 16, 0, 0);
      }
    }
    DecodeAtEquals(w2, 5, 31, 60, 16);
  }

  /** The same input through the array operations: createBitArray(13, 32)
      gives 5-bit entries; set(12, 16) and then set(12, 0) leave slot 12
      reading 16. */
  method StaleBitExample() returns (b: BitArray)
    ensures b.numBits == 5 && b.mask == 31
    ensures 0 <= EndWord(12, 5) < b.words.Length && Decode(b.words[..], 5, 31, 12) == 16
  {
    assert CeilLog2(32) == 5 && Pow2(5) == 32;
    b := CreateBitArray(13, 32);
    ghost var w0 := b.words[..];
    b := Set(b, 12, 16);
    ghost var w1 := b.words[..];
    b := Set(b, 12, 0);
    StaleBitCounterexample(w0, w1, b.words[..]);
  }

  /** The corrected `set` on the same input: slot 12 reads the 0 written last. */
  method CorrectedOverwriteExample() returns (b: BitArray)
    ensures b.numBits == 5 && b.mask == 31
    ensures 0 <= EndWord(12, 5) < b.words.Length && Decode(b.words[..], 5, 31, 12) == 0
  {
    assert CeilLog2(32) == 5 && Pow2(5) == 32;
    b := CreateBitArray(13, 32);
    b := SetCorrected(b, 12, 16);
    ghost var w1 := b.words[..];
    b := SetCorrected(b, 12, 0);
    IntendedSlotDecodes(w1, b.words[..], 13, 5, 31, 12, 0);
  }

  // ---------------------------------------------------------------------------
  // Trimming the words before they are written out

  /** A word both of whose halves are 0. */
  predicate IsZeroWord(w: Long)
  {
    w.high == 0 && w.low == 0
  }

  /** One step of the `reduce` in `drain`: a zero word keeps the start of the
      current run of zero words (or starts one at i); any other word resets
      the accumulator to -1. */
  function DrainStep(last: int, w: Long, i: nat): (r: int)
    ensures r == -1 <==> !IsZeroWord(w)
  {
    if IsZeroWord(w) then (if last != -1 then last else i) else -1
  }

  /** The `reduce` over the first n words, from the left, starting at -1. */
  function LastRelevantIndex(words: seq<Long>, n: nat): (r: int)
    requires n <= |words|
    ensures -1 <= r < n
  {
    if n == 0 then -1 else DrainStep(LastRelevantIndex(words, n - 1), words[n - 1], n - 1)
  }

  /** `drain`: the words unchanged when the fold ends at -1, otherwise the
      prefix up to and including the word it ended at. */
  function Drain(words: seq<Long>): seq<Long>
  {
    var last := LastRelevantIndex(words, |words|);
    if last == -1 then words else words[..last + 1]
  }

  /** Reference definition: where the trailing run of zero words starts
      (|words| when the last word is not zero). */
  function ZeroRunStart(words: seq<Long>): (z: nat)
    ensures z <= |words|
    ensures forall k :: z <= k < |words| ==> IsZeroWord(words[k])
    ensures z == 0 || !IsZeroWord(words[z - 1])
  {
    if |words| == 0 || !IsZeroWord(words[|words| - 1]) then |words|
    else ZeroRunStart(words[..|words| - 1])
  }

  /** The fold computes the start of the trailing zero run of the words it
      has seen, or -1 when that run is empty. */
  lemma {:induction false} LastRelevantIndexIsRunStart(words: seq<Long>, n: nat)
    requires n <= |words|
    ensures var z := ZeroRunStart(words[..n]);
      LastRelevantIndex(words, n) == if z == n then -1 else z
  {
    if n > 0 {
      LastRelevantIndexIsRunStart(words, n - 1);
      assert words[..n][..n - 1] == words[..n - 1];
    }
  }

  /** `drain` cuts the words just after the first word of their trailing zero run. */
  lemma DrainIsCut(words: seq<Long>)
    ensures var z := ZeroRunStart(words);
      Drain(words) == if z == |words| then words else words[..z + 1]
  {
    LastRelevantIndexIsRunStart(words, |words|);
    assert words[..|words|] == words;
  }

  /** `drain` keeps a prefix and drops only zero words. */
  lemma DrainLossless(words: seq<Long>)
    ensures |Drain(words)| <= |words| && Drain(words) == words[..|Drain(words)|]
    ensures forall k :: |Drain(words)| <= k < |words| ==> IsZeroWord(words[k])
  {
    DrainIsCut(words);
  }

  /** An empty array, or one whose last word is not zero, is returned unchanged. */
  lemma DrainUnchanged(words: seq<Long>)
    requires |words| == 0 || !IsZeroWord(words[|words| - 1])
    ensures Drain(words) == words
  {
    DrainIsCut(words);
  }

  /** When the last word is zero exactly one zero word is kept at the end. */
  lemma DrainKeepsOneZero(words: seq<Long>)
    requires |words| > 0 && IsZeroWord(words[|words| - 1])
    ensures var r := Drain(words);
      0 < |r| && IsZeroWord(r[|r| - 1]) && (|r| == 1 || !IsZeroWord(r[|r| - 2]))
  {
    DrainIsCut(words);
  }

  /** An array of zero words drains to its first word. */
  lemma DrainAllZero(words: seq<Long>)
    requires |words| > 0 && forall k :: 0 <= k < |words| ==> IsZeroWord(words[k])
    ensures Drain(words) == words[..1]
  {
    DrainIsCut(words);
  }

  /** Draining twice is draining once. */
  lemma DrainIdempotent(words: seq<Long>)
    ensures Drain(Drain(words)) == Drain(words)
  {
    var r := Drain(words);
    DrainIsCut(words);
    DrainIsCut(r);
    if ZeroRunStart(words) < |words| {
      var z := ZeroRunStart(words);
      assert r == words[..z + 1];
      assert ZeroRunStart(r) == z by {
        assert IsZeroWord(r[z]);
        RunStartOfCut(words, z);
      }
    }
  }

  /** Cutting the words just after the start z of their trailing zero run
      leaves a run of one word, starting at z. */
  lemma RunStartOfCut(words: seq<Long>, z: nat)
    requires z < |words| && z == ZeroRunStart(words)
    ensures ZeroRunStart(words[..z + 1]) == z
  {
    var r := words[..z + 1];
    assert r[..z] == words[..z];
    assert IsZeroWord(r[z]);
    assert ZeroRunStart(r) == ZeroRunStart(r[..z]);
    assert ZeroRunStart(r[..z]) == z;
  }

  /** The example in the comment above `drain`: two non-zero words followed by
      zero words keep the first zero word. */
  lemma DrainCommentExample()
    ensures Drain([Long(0, 1234), Long(0, 4321), Long(0, 0), Long(0, 0), Long(0, 0)])
         == [Long(0, 1234), Long(0, 4321), Long(0, 0)]
  {
    var words := [Long(0, 1234), Long(0, 4321), Long(0, 0), Long(0, 0), Long(0, 0)];
    assert LastRelevantIndex(words, 5) == 2;
    assert words[..3] == [Long(0, 1234), Long(0, 4321), Long(0, 0)];
  }
}

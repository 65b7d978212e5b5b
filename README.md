# Litematica bit array

A model of the Litematica bit-packed index array used by the schematic
generator. The array stores small palette indices at a fixed bit width
(`numBits`) in an array of emulated Java `long`s. Each long is a pair of
32-bit JavaScript numbers `(high, low)`. Slot `index` holds the bits
`[index * numBits, (index + 1) * numBits)` of the stream formed by the words.
Word 0 holds stream bits 0 to 63. An entry may straddle two words.

Three modules:

- `Bits` (bits.dfy): powers of two and the bits of a natural number (`Bit(x, i)`). It also has bitwise AND/OR/NOT on numbers of a given width, and the arithmetic lemmas the other modules use.
- `Long64` (long64.dfy): the emulated long and the primitives `shiftLeft`, `shiftRight`, `and`, `or` and `not`.
  - A pair stands for the unsigned 64-bit number `Val = (high mod 2^32) * 2^32 + (low mod 2^32)`.
  - Every primitive returns halves in the signed 32-bit range.
  - The shifts are proved to be multiplication by 2^n modulo 2^64 and logical division by 2^n.
  - The primitives' own source is not part of this model. The model specifies them as exact 64-bit operations (a zero-filling right shift), and each case in `generation/test/long.test.ts` is a lemma that agrees with that specification. The cases do not decide every detail: none shifts right a pair with a negative high half, and none shifts by 0.
- `LitematicaBitArray` (litematica_bit_array.dfy): the operations of `litematica-bit-array.ts`.
  - `getNeededBits` is an integer ceil-log2 with a floor of 2.
  - `createBitArray` allocates the zero words and derives the mask with JavaScript's 32-bit `<<`.
  - `set` writes one entry in place, through the long primitives. JavaScript's `>> 6` and `& 0x3f` are modelled as the 32-bit operators they are.
  - `drain` is a left fold plus a slice.
  - The read sketched in the commented-out `get` is a ghost decoder (`DecodeAt`, `Decode`). It states what `set` achieves.

What is proved about `set`, at three levels:

1. **Per bit.** `set` changes only its start word and its end word. Bits `[o, o + numBits)` of the start word become `value & mask`. A straddling entry ORs the rest of the entry into the low `j1` bits of the end word. The same update clears that word's top `j1` bits.
2. **Round trip.** The slot decodes to `value & mask` when the end word's low `j1` bits were clear before the write. On a fresh array, one `set` gives exactly that value in its slot, and 0 in every other slot.
3. **The corrected `set`.** With the end word written as in the Java original (`>>> j1 << j1`), the slot's stream bits become `value & mask`. No other stream bit changes, so every other slot decodes as before.

## Model

| member | source | states |
|---|---|---|
| LitematicaBitArray.CeilLog2 | generation/src/schema-generation/litematica/litematica-bit-array.ts:14 | `ceil(log2(size))` over the integers: `size <= 2^k`, and `2^(k-1) < size` when k > 0 |
| LitematicaBitArray.NeededBits | generation/src/schema-generation/litematica/litematica-bit-array.ts:13-15 | the width is at least 2 and holds `size` entries (`size <= 2^r`); it is 2 or `2^(r-1) < size` |
| LitematicaBitArray.NeededBitsIsLeast | generation/src/schema-generation/litematica/litematica-bit-array.ts:13-15 | no width k >= 2 below `getNeededBits(size)` holds `size` entries |
| LitematicaBitArray.NeededBitsAtMost30 | generation/src/schema-generation/litematica/litematica-bit-array.ts:31-34 | the width is at most 30, so the mask is right, exactly when the palette has at most 2^30 entries |
| LitematicaBitArray.MaskFor | generation/src/schema-generation/litematica/litematica-bit-array.ts:34 | `(1 << numBits) - 1` is `2^numBits - 1` up to 30 bits; it is `-2^31 - 1` at 31 bits and 0 at 32 bits, because JavaScript shifts int32 values by the count mod 32 |
| LitematicaBitArray.JsShl | generation/src/schema-generation/litematica/litematica-bit-array.ts:34 | JavaScript `x << n`: the count taken mod 32, the result read as int32 (defined by its body) |
| LitematicaBitArray.JsShr | generation/src/schema-generation/litematica/litematica-bit-array.ts:49-50 | JavaScript `x >> n`: an arithmetic shift of the int32 reading of x (defined by its body; JsWordIndexing gives its meaning on offsets) |
| LitematicaBitArray.JsAnd | generation/src/schema-generation/litematica/litematica-bit-array.ts:51 | JavaScript `x & y` on the 32-bit readings (defined by its body; JsAndMask gives its meaning with a mask) |
| LitematicaBitArray.JsShlOneBits | generation/src/schema-generation/litematica/litematica-bit-array.ts:34 | `1 << n` is 2^(n mod 32), or that minus 2^32 when it lands in the sign bit |
| LitematicaBitArray.MaskBits | generation/src/schema-generation/litematica/litematica-bit-array.ts:34 | whatever the width, the 32 bits of `(1 << numBits) - 1` are `numBits mod 32` ones: the wrapped 31-bit mask still acts as 31 ones, and only a 32-bit width (mask 0) breaks it |
| LitematicaBitArray.JsAndMask | generation/src/schema-generation/litematica/litematica-bit-array.ts:55 | `value & mask`, with a mask of numBits ones, is `value mod 2^numBits`, negative values included |
| LitematicaBitArray.MaskedEntryRange | generation/src/schema-generation/litematica/litematica-bit-array.ts:55 | the entry `value & mask` fits in numBits bits |
| LitematicaBitArray.JsWordIndexing | generation/src/schema-generation/litematica/litematica-bit-array.ts:49-51 | for offsets below 2^31, `>> 6` is division by 64 and `& 0x3f` is the remainder |
| LitematicaBitArray.WordSpan | generation/src/schema-generation/litematica/litematica-bit-array.ts:48-51 | `endArrIndex` is `startArrIndex` or `startArrIndex + 1`; it is the next word exactly when `startBitOffset + numBits > 64` |
| LitematicaBitArray.SetIndicesInBounds | generation/src/schema-generation/litematica/litematica-bit-array.ts:33 | for every `index < 64 * volume`, both words `set` touches lie inside the `volume * numBits` words allocated, because the allocation has one word per entry bit, 64 times what `volume` slots need |
| LitematicaBitArray.SetIndicesOutOfBounds | generation/src/schema-generation/litematica/litematica-bit-array.ts:33 | from `index = 64 * volume` on, the start word lies past the array, so `64 * volume` is exactly where the words `set` touches stop being in bounds |
| LitematicaBitArray.SetIndexing | generation/src/schema-generation/litematica/litematica-bit-array.ts:48-51 | the 32-bit word indices and bit offset that `set` computes are those of the slot, while `(index + 1) * numBits <= 2^31` |
| LitematicaBitArray.Offset | generation/src/schema-generation/litematica/litematica-bit-array.ts:48 | `startOffset = index * numBits`, the first stream bit of the slot (defined by its body; WordSpan gives its meaning) |
| LitematicaBitArray.StartWord | generation/src/schema-generation/litematica/litematica-bit-array.ts:49 | `startArrIndex`, the word holding the slot's first bit (defined by its body; SetIndexing and WordSpan give its meaning) |
| LitematicaBitArray.EndWord | generation/src/schema-generation/litematica/litematica-bit-array.ts:50 | `endArrIndex`, the word holding the slot's last bit (defined by its body; SetIndexing and WordSpan give its meaning) |
| LitematicaBitArray.StartBitOffset | generation/src/schema-generation/litematica/litematica-bit-array.ts:51 | `startBitOffset`, the position of the slot's first bit in its word (defined by its body; SetIndexing and WordSpan give its meaning) |
| LitematicaBitArray.SetIndices | generation/src/schema-generation/litematica/litematica-bit-array.ts:48-55 | what `set` computes before writing: both words in bounds, the end word is the start word or the next, the offset is below 64, and the entry is `value mod 2^numBits` |
| LitematicaBitArray.Valid | generation/src/schema-generation/litematica/litematica-bit-array.ts:17-22 | the `BitArray` record (datatype `BitArray`: words, numBits, mask, volume) in the states `set` is defined on: numBits between 2 and 30, mask `2^numBits - 1`, and `volume * numBits` words (defined by its body) |
| LitematicaBitArray.CreateBitArray | generation/src/schema-generation/litematica/litematica-bit-array.ts:30-41 | a fresh array of `volume * numBits` zero words; `numBits = getNeededBits(paletteLength)`; mask as `(1 << numBits) - 1`; volume kept; the record is valid when the palette has at most 2^30 entries |
| LitematicaBitArray.StartWordAfterSet | generation/src/schema-generation/litematica/litematica-bit-array.ts:53-56 | the new start word: `or(and(w, not(shiftLeft([0, mask], o))), shiftLeft([0, entry], o))` (defined by its body; StartWordBits gives its meaning) |
| LitematicaBitArray.EndWordAfterSet | generation/src/schema-generation/litematica/litematica-bit-array.ts:62-65 | the new end word as written: `or(shiftRight(shiftLeft(w, j1), j1), shiftRight([0, entry], endOffset))` (defined by its body; EndWordBits gives its meaning) |
| LitematicaBitArray.EndWordAfterSetCorrected | generation/src/schema-generation/litematica/litematica-bit-array.ts:63 | the new end word with `shiftLeft(shiftRight(w, j1), j1)` as in the Java original (defined by its body; EndWordBitsCorrected gives its meaning) |
| LitematicaBitArray.StartWordBits | generation/src/schema-generation/litematica/litematica-bit-array.ts:53-56 | after the start-word update, bits `[o, o + numBits)` hold the entry and every other bit of the word is unchanged |
| LitematicaBitArray.EndWordBits | generation/src/schema-generation/litematica/litematica-bit-array.ts:59-65 | the end-word update as written: the low j1 bits are the old bits OR the entry's high bits, and the top j1 bits are cleared |
| LitematicaBitArray.ClearedTopBit | generation/src/schema-generation/litematica/litematica-bit-array.ts:63 | `shiftRight(shiftLeft(w, j1), j1)` clears the top j1 bits of w and keeps the rest |
| LitematicaBitArray.EndWordBitsCorrected | generation/src/schema-generation/litematica/litematica-bit-array.ts:62-64 | with `>>> j1 << j1`, the low j1 bits become the entry's high bits and every other bit is kept |
| LitematicaBitArray.ClearedLowBit | generation/src/schema-generation/litematica/litematica-bit-array.ts:63 | `shiftLeft(shiftRight(w, j1), j1)` clears the low j1 bits of w and keeps the rest |
| LitematicaBitArray.WriteStartWord | generation/src/schema-generation/litematica/litematica-bit-array.ts:53-56 | in place: only word s changes; its slot bits become the entry and its other bits are kept |
| LitematicaBitArray.WriteEndWord | generation/src/schema-generation/litematica/litematica-bit-array.ts:59-65 | in place: only word e changes, as EndWordBits states |
| LitematicaBitArray.SetSteps | generation/src/schema-generation/litematica/litematica-bit-array.ts:53-66 | the two word writes (the second only for a straddling entry) make up the whole effect of `set` |
| LitematicaBitArray.Set | generation/src/schema-generation/litematica/litematica-bit-array.ts:47-69 | `set` in place, for every slot whose words lie in the array (`index < 64 * volume`): only the start and end words change, each to an int32 pair fixed bit by bit as above; every other word is unchanged; the same record is returned, so numBits, mask and volume are unchanged |
| LitematicaBitArray.ReadOne | generation/src/schema-generation/litematica/litematica-bit-array.ts:83 | the one-word read: the word shifted right by o, AND the mask (defined by its body; ReadOneBit gives its meaning) |
| LitematicaBitArray.ReadTwo | generation/src/schema-generation/litematica/litematica-bit-array.ts:86 | the two-word read: the first word shifted right by o, OR the second shifted left by 64 - o, AND the mask (defined by its body; ReadTwoBit gives its meaning) |
| LitematicaBitArray.DecodeAt | generation/src/schema-generation/litematica/litematica-bit-array.ts:82-87 | the read of the commented-out `get` for the entry at a stream bit: one word when it fits, two otherwise (defined by its body; DecodeAtBit gives its meaning) |
| LitematicaBitArray.Decode | generation/src/schema-generation/litematica/litematica-bit-array.ts:77-87 | the read of slot `index`, with the end word taken as `set` computes it (defined by its body; DecodeAtBit and the round-trip lemmas give its meaning) |
| LitematicaBitArray.ReadOneBit | generation/src/schema-generation/litematica/litematica-bit-array.ts:83 | the one-word read yields bit `i + o` of the word for each i below numBits, and nothing above |
| LitematicaBitArray.ReadTwoBit | generation/src/schema-generation/litematica/litematica-bit-array.ts:86 | the two-word read takes bits from the first word up to bit 63 and the rest from the low bits of the second |
| LitematicaBitArray.StreamBitAt | generation/src/schema-generation/litematica/litematica-bit-array.ts:48-51 | stream bit `64 * s + t` is bit t of word s, and 0 past the last word |
| LitematicaBitArray.ReadBit | generation/src/schema-generation/litematica/litematica-bit-array.ts:82-87 | bit i of the decoded entry comes from the start word or, past bit 63, from the end word |
| LitematicaBitArray.DecodeAtBit | generation/src/schema-generation/litematica/litematica-bit-array.ts:82-87 | bit i of the decoded entry is stream bit `p0 + i` for i below numBits, and 0 above |
| LitematicaBitArray.DecodeAtEquals | generation/src/schema-generation/litematica/litematica-bit-array.ts:82-87 | an entry whose stream bits are those of m decodes to m |
| LitematicaBitArray.DecodeAtSame | generation/src/schema-generation/litematica/litematica-bit-array.ts:82-87 | entries with equal stream bits decode to equal values |
| LitematicaBitArray.SetThenStreamBits | generation/src/schema-generation/litematica/litematica-bit-array.ts:53-66 | after `set` as written, the slot's stream bits are the entry's, provided the end word's low j1 bits were clear |
| LitematicaBitArray.SetThenDecode | generation/src/schema-generation/litematica/litematica-bit-array.ts:53-87 | round trip of `set` as written: the slot decodes to `value & mask` when the entry fits one word or the end word's low j1 bits were clear |
| LitematicaBitArray.DecodeAtSlot | generation/src/schema-generation/litematica/litematica-bit-array.ts:82-87 | an entry starting at bit o of word s, whose stream bits are those of m, decodes to m |
| LitematicaBitArray.IntendedFromWords | generation/src/schema-generation/litematica/litematica-bit-array.ts:53-66 | the word-level effect of the corrected update sets exactly the slot's stream bits to m and keeps every other stream bit |
| LitematicaBitArray.IntendedRoundTrip | generation/src/schema-generation/litematica/litematica-bit-array.ts:82-87 | after a correct write the slot decodes to m |
| LitematicaBitArray.IntendedLeavesOtherSlots | generation/src/schema-generation/litematica/litematica-bit-array.ts:82-87 | after a correct write every entry that does not overlap it decodes as before |
| LitematicaBitArray.AsWrittenIsIntended | generation/src/schema-generation/litematica/litematica-bit-array.ts:58-66 | `set` as written is correct when the end word's low j1 and top j1 bits were clear |
| LitematicaBitArray.InOrderSetIsIntended | generation/src/schema-generation/litematica/litematica-bit-array.ts:58-66 | filling slots in increasing index order keeps `set` as written correct, and leaves no stream bit set past the entry |
| LitematicaBitArray.WriteEndWordCorrected | generation/src/schema-generation/litematica/litematica-bit-array.ts:62-65 | in place: only word e changes, to an int32 pair whose low j1 bits are the entry's high bits and whose other bits are kept |
| LitematicaBitArray.CorrectedWordSteps | generation/src/schema-generation/litematica/litematica-bit-array.ts:53-66 | the start-word write plus the corrected end-word write is the word-level intended effect |
| LitematicaBitArray.SetCorrectedSteps | generation/src/schema-generation/litematica/litematica-bit-array.ts:53-66 | the same two writes change exactly the slot's stream bits |
| LitematicaBitArray.IntendedAtSlot | generation/src/schema-generation/litematica/litematica-bit-array.ts:48 | the intended effect at stream bit `index * numBits` is the intended effect for slot `index` |
| LitematicaBitArray.SetCorrected | generation/src/schema-generation/litematica/litematica-bit-array.ts:47-69 | the corrected `set` in place: only the start and end words change, each to an int32 pair fixed bit by bit, and every other word is unchanged; so the slot's stream bits become `value & mask` and no other stream bit changes; the same record is returned |
| LitematicaBitArray.ZeroWordsHaveNoBits | generation/src/schema-generation/litematica/litematica-bit-array.ts:33 | the zero words from `createBitArray` have no stream bit set |
| LitematicaBitArray.FreshSetIsIntended | generation/src/schema-generation/litematica/litematica-bit-array.ts:47-69 | on zero words, `set` as written does exactly what was intended |
| LitematicaBitArray.IntendedSlotDecodes | generation/src/schema-generation/litematica/litematica-bit-array.ts:82-87 | after a correct `set(index, ...)`, slot `index` is in bounds and decodes to m |
| LitematicaBitArray.IntendedOtherSlotDecodes | generation/src/schema-generation/litematica/litematica-bit-array.ts:82-87 | after a correct `set(index, ...)`, every other slot below volume decodes as before |
| LitematicaBitArray.ZeroSlotDecodes | generation/src/schema-generation/litematica/litematica-bit-array.ts:33 | every slot of a fresh array decodes to 0 |
| LitematicaBitArray.SetOnFresh | generation/src/schema-generation/litematica/litematica-bit-array.ts:30-69 | `createBitArray` then one `set(index, value)`: the slot decodes to `value mod 2^numBits` and every other slot to 0 |
| LitematicaBitArray.EndWordAccumulates | generation/src/schema-generation/litematica/litematica-bit-array.ts:62-65 | two writes of one straddling slot as written leave the end word's low bits as the OR of both entries' high bits |
| LitematicaBitArray.StaleBitCounterexample | generation/src/schema-generation/litematica/litematica-bit-array.ts:63 | with 5-bit entries, writing 16 and then 0 into slot 12 leaves it decoding to 16 |
| LitematicaBitArray.StaleBitExample | generation/src/schema-generation/litematica/litematica-bit-array.ts:47-69 | `createBitArray(13, 32)`, `set(12, 16)`, `set(12, 0)`: slot 12 decodes to 16 |
| LitematicaBitArray.CorrectedOverwriteExample | generation/src/schema-generation/litematica/litematica-bit-array.ts:47-69 | the same calls with the corrected `set`: slot 12 decodes to 0 |
| LitematicaBitArray.IsZeroWord | generation/src/schema-generation/litematica/litematica-bit-array.ts:101 | `low === 0 && high === 0`: both halves of the word are 0 (defined by its body) |
| LitematicaBitArray.DrainStep | generation/src/schema-generation/litematica/litematica-bit-array.ts:100-108 | one step of the `reduce`: the accumulator becomes -1 exactly when the word is not zero |
| LitematicaBitArray.Drain | generation/src/schema-generation/litematica/litematica-bit-array.ts:98-116 | the fold, then the whole array at -1 or the slice up to and including the index it found (defined by its body; DrainIsCut and the lemmas below give its meaning) |
| LitematicaBitArray.LastRelevantIndex | generation/src/schema-generation/litematica/litematica-bit-array.ts:99-109 | the fold yields -1 or an index of a word it has seen |
| LitematicaBitArray.ZeroRunStart | generation/src/schema-generation/litematica/litematica-bit-array.ts:90-92 | the reference definition: the start of the trailing run of zero words; every word from it on is zero, and the word before it is not |
| LitematicaBitArray.LastRelevantIndexIsRunStart | generation/src/schema-generation/litematica/litematica-bit-array.ts:99-109 | the fold computes the start of the trailing zero run, or -1 when the last word seen is not zero |
| LitematicaBitArray.DrainIsCut | generation/src/schema-generation/litematica/litematica-bit-array.ts:98-116 | `drain` keeps the words up to and including the first word of the trailing zero run |
| LitematicaBitArray.DrainLossless | generation/src/schema-generation/litematica/litematica-bit-array.ts:98-116 | the result is a prefix, and only zero words are dropped |
| LitematicaBitArray.DrainUnchanged | generation/src/schema-generation/litematica/litematica-bit-array.ts:111-113 | an empty array, or one whose last word is not zero, is returned unchanged |
| LitematicaBitArray.DrainKeepsOneZero | generation/src/schema-generation/litematica/litematica-bit-array.ts:98-116 | when the last word is zero, the result ends in exactly one zero word |
| LitematicaBitArray.DrainAllZero | generation/src/schema-generation/litematica/litematica-bit-array.ts:98-116 | an array of zero words drains to one word |
| LitematicaBitArray.DrainIdempotent | generation/src/schema-generation/litematica/litematica-bit-array.ts:98-116 | draining twice is draining once |
| LitematicaBitArray.DrainCommentExample | generation/src/schema-generation/litematica/litematica-bit-array.ts:94-96 | the comment's input drains to `[[0,1234],[0,4321],[0,0]]`, not to the `[[0,1234],[0,0]]` the comment shows |
| Long64.Val | generation/test/long.test.ts:5-16 | the 64-bit number a pair stands for, `(high mod 2^32) * 2^32 + (low mod 2^32)`, below 2^64 |
| Long64.ShiftLeft | generation/test/long.test.ts:5-10 | `shiftLeft` computed half by half; it returns int32 halves (ShiftLeftValue gives its meaning) |
| Long64.ShiftRight | generation/test/long.test.ts:12-16 | `shiftRight` computed half by half; it returns int32 halves (ShiftRightValue gives its meaning) |
| Long64.And | generation/src/schema-generation/litematica/litematica-bit-array.ts:54 | `and` half by half; it returns int32 halves (AndBit gives its meaning) |
| Long64.Or | generation/src/schema-generation/litematica/litematica-bit-array.ts:53 | `or` half by half; it returns int32 halves (OrBit gives its meaning) |
| Long64.Not | generation/src/schema-generation/litematica/litematica-bit-array.ts:54 | `not` half by half; it returns int32 halves (NotBit gives its meaning) |
| Long64.ShiftLeftBit | generation/test/long.test.ts:5-10 | bit i of `shiftLeft(v, n)` is bit `i - n` of v, and 0 below n |
| Long64.ShiftRightBit | generation/test/long.test.ts:12-16 | bit i of `shiftRight(v, n)` is bit `i + n` of v, and 0 from `64 - n` on (zero-filling) |
| Long64.ShiftLeftValue | generation/test/long.test.ts:5-10 | `shiftLeft` is multiplication by 2^n modulo 2^64 on the 64-bit number the pair stands for |
| Long64.ShiftRightValue | generation/test/long.test.ts:12-16 | `shiftRight` is logical division by 2^n |
| Long64.AndBit | generation/src/schema-generation/litematica/litematica-bit-array.ts:54 | `and` is bitwise AND on all 64 bits |
| Long64.OrBit | generation/src/schema-generation/litematica/litematica-bit-array.ts:53-55 | `or` is bitwise OR on all 64 bits |
| Long64.NotBit | generation/src/schema-generation/litematica/litematica-bit-array.ts:54 | `not` complements all 64 bits |
| Long64.ShiftLeftOnesBy32 | generation/test/long.test.ts:6 | `shiftLeft([0, 4294967295], 32) = [-1, 0]`: the low half is read mod 2^32 and moves wholesale into the high half |
| Long64.ShiftLeftThreeBy32 | generation/test/long.test.ts:7 | `shiftLeft([0, 3], 32) = [3, 0]` |
| Long64.ShiftLeftThreeBy33 | generation/test/long.test.ts:8 | `shiftLeft([0, 3], 33) = [6, 0]` |
| Long64.ShiftLeftThreeBy31 | generation/test/long.test.ts:9 | `shiftLeft([0, 3], 31) = [1, -2147483648]`: bits carry across the halves |
| Long64.ShiftRightOneBy32 | generation/test/long.test.ts:13 | `shiftRight([1, 0], 32) = [0, 1]`, with the top zero-filled |
| Long64.ShiftRightOneBy1 | generation/test/long.test.ts:14 | `shiftRight([1, 0], 1) = [0, -2147483648]` |
| Long64.ShiftRightThreeBy1 | generation/test/long.test.ts:15 | `shiftRight([3, 0], 1) = [1, -2147483648]` |

## Left out

- `Math.log2` and `Math.ceil` in floating point: `getNeededBits` is the integer ceil-log2 (`CeilLog2`). The two agree for sizes up to 2^48, which covers every palette of at most 2^30 entries. Above that, a correctly rounded `log2` of 2^k + 1 can round down to exactly k (2^49 + 1 gives 49, where `CeilLog2` gives 50), and the model does not follow that. Sizes 0 and 1 give 2, as the `max` with 2 does.
- lodash `_.range(...).map(...)` is modelled as allocating `volume * numBits` zero words. `volume` is a natural number here, so the `Math.ceil` around the count does nothing.
- `createBitArray` is a method, not a function, because it allocates the word array that `set` then changes in place.
- CreateBitArray: validity is promised only for palettes of at most 2^30 entries. Above that, `1 << numBits` wraps and the mask is numerically wrong. `MaskBits` shows that bitwise it still acts as 31 ones at 31 bits and breaks only at 32 bits (mask 0). The model does not cover 31-bit entries.
- Set: requires `index < 64 * volume`, which is exactly the range where both words it touches lie inside the `volume * numBits` words `createBitArray` allocates (`SetIndicesInBounds`, `SetIndicesOutOfBounds`). Slots from `volume` up to `64 * volume - 1` land in the spare words and are modelled. From `64 * volume` on, line 54 reads `array[startArrIndex]`, which is `undefined`, and passes it to `long.and`. The `long` module's behaviour on `undefined` is outside this model. The round-trip lemmas (`SetOnFresh`, `IntendedSlotDecodes`, `IntendedOtherSlotDecodes`) speak of slots below `volume`, the domain `createBitArray` is sized for.
- Set: requires `(index + 1) * numBits <= 2^31`. Past it, `>> 6` and `& 0x3f` read the offset as a wrapped int32, and that is not modelled.
- Set: requires the record to be valid (numBits between 2 and 30, the mask `2^numBits - 1`, and `volume * numBits` words), which is what `createBitArray` gives for palettes up to 2^30 entries.
- Set: `value` is any integer; non-integral numbers are not modelled.
- `get` is unimplemented in the source. Its commented-out read is a ghost decoder (`DecodeAt`, `Decode`), not a method. `Decode` takes the end word from the formula `set` uses. The commented-out line 79 multiplies `(index + 1)` by `(bitsPerEntry - 1)`, and that typo is not modelled.
- `drain` takes the word sequence (`b.words[..]`) and returns a sequence. In the source, an array that is not trimmed is returned as the same object, aliased with the record, and that aliasing is not modelled.
- `drain` destructures each word as `[low, high]` although a word is `[high, low]`. Only "both halves zero" is tested, so the order does not matter, and the model uses the field names.
- The `long` primitives' zero fill and shifts by 0 are assumptions. The model's `shiftRight` fills the top with zeros, and a shift by 0 is the identity, but no case in `generation/test/long.test.ts` shifts right a pair with a negative high half or shifts by 0. `set` shifts by 0 whenever an entry starts at bit 0 of a word. The Findings row's "clears its top j1 bits" holds only if `shiftRight` zero-fills; with sign extension the top j1 bits would all copy bit `63 - j1` of the old word instead, and the stale low bits would remain all the same.
- The `long` module's source is not part of this model. Its primitives are defined on the halves (reading each half mod 2^32 and returning int32 halves), and the test cases of `generation/test/long.test.ts` are lemmas about them. Shifts by 64 or more are not modelled, since `set` shifts by less than 64.
- The NBT and schema wrapping of the drained words, the worker glue and the React preview live in files outside this model.

## Findings

| source | as written | input that shows it | evidently intended | confidence | as-written member | corrected member |
|---|---|---|---|---|---|---|
| generation/src/schema-generation/litematica/litematica-bit-array.ts:63 | the end word of a straddling entry is `shiftRight(shiftLeft(w, j1), j1)`, which clears its top j1 bits and keeps the low j1 bits that the entry's high bits are then OR-ed into | `createBitArray(13, 32)` (5-bit entries), `set(12, 16)`, `set(12, 0)`: slot 12 covers stream bits 60-64, its top bit stays set in word 1, and the slot reads 16 | clear the low j1 bits first (`>>> j1 << j1`, as the Java `LitematicaBitArray` does), so that a later `set` overwrites the slot | not executed | LitematicaBitArray.StaleBitCounterexample | LitematicaBitArray.SetCorrected |

/**
  Candidate masks (sudoku.h). Every cell of a board is an unsigned 16-bit
  word; bit d-1 set means "digit d is still possible". Only the low nine
  bits carry digits, but the helpers are defined on the whole word, exactly
  as the C inline functions are, so that masks with stray high bits are
  classified the way the source classifies them.
*/
module Masks {

  type Mask = bv16

  /** Every digit 1..9 still possible: the "no information yet" mask. */
  const AllDigits: Mask := 0x1ff

  /** The single-bit mask `1 << k`. */
  function Bit(k: nat): Mask
    requires k < 16
  {
    (1 as bv16) << k
  }

  /** The mask of the low `w` bits, `(1 << w) - 1`. */
  function LowBits(w: nat): Mask
    requires w <= 16
  {
    if w == 0 then 0 else (LowBits(w - 1) << 1) | 1
  }

  /** Bit 0 of `x` is set (`x & 1` in the C loops). */
  predicate LowBitSet(x: Mask) {
    x & 1 == 1
  }

  /** `x` has no bit outside the digit bits 0..8. */
  predicate InRange(x: Mask) {
    x & !AllDigits == 0
  }

  /** `a` allows no digit that `b` does not allow. */
  predicate SubMask(a: Mask, b: Mask) {
    a & !b == 0
  }

  /** Bitwise characterisation of a fixed mask: exactly one bit, and it is a digit bit. */
  predicate IsSingleDigit(x: Mask) {
    x != 0 && x & (x - 1) == 0 && InRange(x)
  }

  // ---------------------------------------------------------------------------
  // is_fixed
  // ---------------------------------------------------------------------------

  /** The loop of `is_fixed` from iteration `i` on, with `number` already shifted `i` times. */
  function FixedScan(number: Mask, i: nat): bool
    requires i <= 9
    decreases 9 - i
  {
    if i == 9 then false
    else if number == 1 then true
    else if LowBitSet(number) then false
    else FixedScan(number >> 1, i + 1)
  }

  /** `is_fixed`: the mask allows exactly one digit. */
  predicate IsFixed(number: Mask) {
    FixedScan(number, 0)
  }

  /** `x` is a power of two with no bit outside `low`. */
  predicate OneBitWithin(x: Mask, low: Mask) {
    x != 0 && x & (x - 1) == 0 && x & !low == 0
  }

  /** Bit-level step shared by the scanning loops: dropping a clear bit 0. */
  lemma OneBitShift(x: Mask, low: Mask)
    requires !LowBitSet(x)
    ensures OneBitWithin(x, (low << 1) | 1) <==> OneBitWithin(x >> 1, low)
  {
  }

  lemma {:induction false} FixedScanIsSingleBit(x: Mask, i: nat)
    requires i <= 9
    ensures FixedScan(x, i) <==> OneBitWithin(x, LowBits(9 - i))
    decreases 9 - i, 1
  {
    if i < 9 {
      if LowBitSet(x) {
        SingleBitLowSet(x, i);
      } else {
        SingleBitLowClear(x, i);
      }
    }
  }

  lemma SingleBitLowSet(x: Mask, i: nat)
    requires i < 9 && LowBitSet(x)
    ensures FixedScan(x, i) <==> OneBitWithin(x, LowBits(9 - i))
  {
    LowBitsStep(9 - i);
    LowBitOneBit(x, LowBits(8 - i));
  }

  lemma LowBitOneBit(x: Mask, low: Mask)
    requires LowBitSet(x)
    ensures x == 1 <==> OneBitWithin(x, (low << 1) | 1)
  {
  }

  lemma {:induction false} SingleBitLowClear(x: Mask, i: nat)
    requires i < 9 && !LowBitSet(x)
    ensures FixedScan(x, i) <==> OneBitWithin(x, LowBits(9 - i))
    decreases 9 - i, 0
  {
    SingleBitClearStep(x, i);
    FixedScanIsSingleBit(x >> 1, i + 1);
  }

  lemma SingleBitClearStep(x: Mask, i: nat)
    requires i < 9 && !LowBitSet(x)
    ensures FixedScan(x, i) == FixedScan(x >> 1, i + 1)
    ensures OneBitWithin(x, LowBits(9 - i)) == OneBitWithin(x >> 1, LowBits(8 - i))
  {
    LowBitsStep(9 - i);
    OneBitShift(x, LowBits(8 - i));
  }

  /** A fixed mask is one bit among the digit bits, and every such mask is fixed. */
  lemma IsFixedIsSingleDigit(x: Mask)
    ensures IsFixed(x) <==> IsSingleDigit(x)
  {
    FixedScanIsSingleBit(x, 0);
  }

  /** `is_fixed(x)` holds exactly when `x == 1 << k` for some digit bit `k`. */
  lemma IsFixedExactly(x: Mask)
    ensures IsFixed(x) <==> exists k :: 0 <= k < 9 && x == Bit(k)
    ensures x == 0 ==> !IsFixed(x)
    ensures !InRange(x) ==> !IsFixed(x)
  {
    IsFixedIsSingleDigit(x);
    if IsSingleDigit(x) {
      var k := SingleDigitIndex(x);
      assert x == Bit(k);
    }
  }

  /** The position of the one bit of a single-digit mask. */
  function SingleDigitIndex(x: Mask): (k: nat)
    requires IsSingleDigit(x)
    ensures k < 9 && x == Bit(k)
  {
    if x == 1 then 0 else if x == 2 then 1 else if x == 4 then 2
    else if x == 8 then 3 else if x == 16 then 4 else if x == 32 then 5
    else if x == 64 then 6 else if x == 128 then 7 else 8
  }

  // ---------------------------------------------------------------------------
  // bits2number / number2bits
  // ---------------------------------------------------------------------------

  /** The loop of `bits2number` from `n` on (`n` counts 1..9; 10 means the loop ran out). */
  function NumberScan(bits: Mask, n: nat): int
    requires 1 <= n <= 10
    decreases 10 - n
  {
    if n == 10 then -2
    else if bits == 1 then n
    else if LowBitSet(bits) then 0
    else NumberScan(bits >> 1, n + 1)
  }

  /**
    `bits2number`: -1 for the empty mask, the digit for a fixed mask, 0 for a
    mask whose lowest set bit is a digit bit but which has further bits, and
    -2 when no digit bit is set at all.
  */
  function BitsToNumber(bits: Mask): int {
    if bits == 0 then -1 else NumberScan(bits, 1)
  }

  lemma BitShift(x: Mask, k: nat)
    requires k < 15
    requires !LowBitSet(x) && x >> 1 == Bit(k)
    ensures x == Bit(k + 1)
  {
  }

  lemma {:induction false} NumberScanCases(x: Mask, n: nat)
    requires 1 <= n <= 10
    ensures var r := NumberScan(x, n);
      && -2 <= r <= 9
      && (r == -2 <==> NoBitsIn(x, LowBits(10 - n)))
      && (r >= 1 <==> FixedScan(x, n - 1))
      && (r >= 1 ==> n <= r && x == Bit(r - n))
      && r != -1
    decreases 10 - n
  {
    if n == 10 {
      NumberScanEnd(x);
    } else if x == 1 {
      NumberScanOne(n);
    } else if LowBitSet(x) {
      NumberScanLow(x, n);
    } else {
      NumberScanCases(x >> 1, n + 1);
      NumberScanShift(x, n);
    }
  }

  /** The loop ran out: -2, and no digit bit was seen. */
  lemma NumberScanEnd(x: Mask)
    ensures NumberScan(x, 10) == -2 && NoBitsIn(x, LowBits(0)) && !FixedScan(x, 9)
  {
  }

  /** The shifted mask is 1: the digit `n`. */
  lemma NumberScanOne(n: nat)
    requires 1 <= n < 10
    ensures NumberScan(1, n) == n && !NoBitsIn(1, LowBits(10 - n)) && FixedScan(1, n - 1) && 1 == Bit(0)
  {
    LowBitsStep(10 - n);
  }

  /** Bit 0 set with further bits: 0. */
  lemma NumberScanLow(x: Mask, n: nat)
    requires 1 <= n < 10 && x != 1 && LowBitSet(x)
    ensures NumberScan(x, n) == 0 && !NoBitsIn(x, LowBits(10 - n)) && !FixedScan(x, n - 1)
  {
    LowBitsStep(10 - n);
    NoBitsShift(x, LowBits(9 - n));
  }

  /** Bit 0 clear: both scans and the no-bits test move on to the shifted mask. */
  lemma NumberScanShift(x: Mask, n: nat)
    requires 1 <= n < 10 && x != 1 && !LowBitSet(x)
    ensures NumberScan(x, n) == NumberScan(x >> 1, n + 1)
    ensures FixedScan(x, n - 1) == FixedScan(x >> 1, n)
    ensures NoBitsIn(x, LowBits(10 - n)) <==> NoBitsIn(x >> 1, LowBits(9 - n))
    ensures forall k: nat :: k < 15 && x >> 1 == Bit(k) ==> x == Bit(k + 1)
  {
    LowBitsStep(10 - n);
    NoBitsShift(x, LowBits(9 - n));
    forall k: nat | k < 15 && x >> 1 == Bit(k) ensures x == Bit(k + 1) {
      BitShift(x, k);
    }
  }

  /** The full classification promised by `bits2number`. */
  lemma BitsToNumberCases(x: Mask)
    ensures var r := BitsToNumber(x);
      && -2 <= r <= 9
      && (r == -1 <==> x == 0)
      && (r == -2 <==> x != 0 && x & AllDigits == 0)
      && (r == 0 <==> x & AllDigits != 0 && !IsFixed(x))
      && (r >= 1 <==> IsFixed(x))
      && (r >= 1 ==> x == Bit(r - 1))
  {
    NumberScanCases(x, 1);
    IsFixedIsSingleDigit(x);
    FixedScanIsSingleBit(x, 0);
    DigitBits();
    RangeFacts(x);
  }

  /** `number2bits`: the single-bit mask of a digit 1..9, and 0x1ff for anything else. */
  function NumberToBits(n: int): (r: Mask)
    ensures 1 <= n <= 9 ==> IsFixed(r) && r == Bit(n - 1)
    ensures !(1 <= n <= 9) ==> r == AllDigits && !IsFixed(r)
    ensures InRange(r)
  {
    if 1 <= n <= 9 then
      IsFixedIsSingleDigit(Bit(n - 1));
      (1 as bv16) << (n - 1)
    else
      IsFixedIsSingleDigit(0x1ff);
      0x1ff
  }

  /** `bits2number` undoes `number2bits` on the digits and reads 0x1ff as ambiguous. */
  lemma NumberRoundTrip(n: int)
    ensures 1 <= n <= 9 ==> BitsToNumber(NumberToBits(n)) == n
    ensures !(1 <= n <= 9) ==> BitsToNumber(NumberToBits(n)) == 0
  {
    BitsToNumberCases(NumberToBits(n));
  }

  /** `number2bits` undoes `bits2number` on fixed masks. */
  lemma MaskRoundTrip(x: Mask)
    requires IsFixed(x)
    ensures NumberToBits(BitsToNumber(x)) == x
  {
    BitsToNumberCases(x);
  }

  // ---------------------------------------------------------------------------
  // count_bits
  // ---------------------------------------------------------------------------

  /** Number of set bits among the low `width` bits of `f`, counted from bit 0 upwards. */
  function CountLow(f: Mask, width: nat): (c: nat)
    requires width <= 16
    ensures c <= width
    decreases width
  {
    if width == 0 then 0
    else (if LowBitSet(f) then 1 else 0) + CountLow(f >> 1, width - 1)
  }

  /** `count_bits`: the number of digits the mask still allows (bits 9..15 are ignored). */
  function CountBits(f: Mask): nat {
    CountLow(f, 9)
  }

  /** Number of set bits of the whole word; the solver's termination measure. */
  function Weight(f: Mask): nat {
    CountLow(f, 16)
  }

  /** `x` and `low` share no bit. */
  predicate NoBitsIn(x: Mask, low: Mask) {
    x & low == 0
  }

  /** Every bit of `x` lies in `low`. */
  predicate Within(x: Mask, low: Mask) {
    x & !low == 0
  }

  /** `a` and `b` agree on the bits of `low`. */
  predicate SameBitsIn(a: Mask, b: Mask, low: Mask) {
    a & low == b & low
  }

  /** `x` has exactly one bit set. */
  predicate IsPowerOfTwo(x: Mask) {
    x != 0 && x & (x - 1) == 0
  }

  lemma NoBitsShift(x: Mask, low: Mask)
    ensures NoBitsIn(x, (low << 1) | 1) <==> (!LowBitSet(x) && NoBitsIn(x >> 1, low))
    ensures NoBitsIn(x, 0)
    ensures Within(x, 0) ==> NoBitsIn(x, low)
  {
  }

  lemma {:induction false} CountLowZero(f: Mask, width: nat)
    requires width <= 16
    ensures CountLow(f, width) == 0 <==> NoBitsIn(f, LowBits(width))
    decreases width
  {
    if width == 0 {
      NoBitsShift(f, 0);
    } else {
      var low := LowBits(width - 1);
      assert LowBits(width) == (low << 1) | 1;
      CountLowZero(f >> 1, width - 1);
      NoBitsShift(f, low);
    }
  }

  lemma LowBitsStep(width: nat)
    requires 1 <= width <= 16
    ensures LowBits(width) == (LowBits(width - 1) << 1) | 1
  {
  }

  /** Bit-level facts for one step of a scan that reads bit 0 and shifts right. */
  lemma ScanStep(x: Mask, low: Mask)
    requires Within(x, (low << 1) | 1)
    ensures Within(x >> 1, low)
    ensures LowBitSet(x) ==> (x == 1 <==> x >> 1 == 0)
  {
    SplitShift(x, low);
    if LowBitSet(x) {
      LowBitShift(x);
    }
  }

  lemma LowBitShift(x: Mask)
    requires LowBitSet(x)
    ensures x == 1 <==> x >> 1 == 0
  {
  }

  lemma EmptyWithin(y: Mask, low: Mask)
    requires Within(y, low)
    ensures NoBitsIn(y, low) <==> y == 0
  {
  }

  /** The scan of `is_fixed` accepts exactly when the scan of `count_bits` counts one bit. */
  lemma {:induction false} FixedScanCount(x: Mask, i: nat)
    requires i <= 9 && Within(x, LowBits(9 - i))
    ensures FixedScan(x, i) <==> CountLow(x, 9 - i) == 1
    decreases 9 - i, 1
  {
    if i < 9 {
      if LowBitSet(x) {
        ScanCountLowSet(x, i);
      } else {
        ScanCountLowClear(x, i);
      }
    }
  }

  lemma ScanCountLowSet(x: Mask, i: nat)
    requires i < 9 && Within(x, LowBits(9 - i)) && LowBitSet(x)
    ensures FixedScan(x, i) <==> CountLow(x, 9 - i) == 1
  {
    SetStep(x, i);
    CountLowZero(x >> 1, 8 - i);
    EmptyWithin(x >> 1, LowBits(8 - i));
  }

  /** One step of both scans over a set bit 0: `is_fixed` stops, `count_bits` counts it. */
  lemma SetStep(x: Mask, i: nat)
    requires i < 9 && Within(x, LowBits(9 - i)) && LowBitSet(x)
    ensures FixedScan(x, i) <==> x >> 1 == 0
    ensures CountLow(x, 9 - i) == 1 + CountLow(x >> 1, 8 - i)
    ensures Within(x >> 1, LowBits(8 - i))
  {
    LowBitsStep(9 - i);
    ScanStep(x, LowBits(8 - i));
  }

  lemma {:induction false} ScanCountLowClear(x: Mask, i: nat)
    requires i < 9 && Within(x, LowBits(9 - i)) && !LowBitSet(x)
    ensures FixedScan(x, i) <==> CountLow(x, 9 - i) == 1
    decreases 9 - i, 0
  {
    ClearStep(x, i);
    FixedScanCount(x >> 1, i + 1);
  }

  /** One step of both scans over a clear bit 0: each moves on to `x >> 1` unchanged. */
  lemma ClearStep(x: Mask, i: nat)
    requires i < 9 && Within(x, LowBits(9 - i)) && !LowBitSet(x)
    ensures FixedScan(x, i) == FixedScan(x >> 1, i + 1)
    ensures CountLow(x, 9 - i) == CountLow(x >> 1, 8 - i)
    ensures Within(x >> 1, LowBits(8 - i))
  {
    LowBitsStep(9 - i);
    ScanStep(x, LowBits(8 - i));
  }

  lemma DigitBits()
    ensures LowBits(9) == AllDigits
    ensures LowBits(16) == 0xffff
  {
    assert LowBits(1) == 0x1;
    assert LowBits(2) == 0x3;
    assert LowBits(3) == 0x7;
    assert LowBits(4) == 0xf;
    assert LowBits(5) == 0x1f;
    assert LowBits(6) == 0x3f;
    assert LowBits(7) == 0x7f;
    assert LowBits(8) == 0xff;
    assert LowBits(9) == 0x1ff;
    assert LowBits(10) == 0x3ff;
    assert LowBits(11) == 0x7ff;
    assert LowBits(12) == 0xfff;
    assert LowBits(13) == 0x1fff;
    assert LowBits(14) == 0x3fff;
    assert LowBits(15) == 0x7fff;
  }

  lemma RangeFacts(f: Mask)
    ensures InRange(f) <==> Within(f, AllDigits)
    ensures NoBitsIn(f, AllDigits) <==> f & AllDigits == 0
    ensures IsSingleDigit(f) <==> IsPowerOfTwo(f) && InRange(f)
    ensures Within(f & AllDigits, AllDigits)
  {
  }

  /** `count_bits` reads only the nine digit bits, so it is at most 9. */
  lemma CountBitsFacts(f: Mask)
    ensures CountBits(f) <= 9
    ensures CountBits(f) == CountBits(f & AllDigits)
    ensures CountBits(f) == 0 <==> f & AllDigits == 0
    ensures InRange(f) ==> (IsFixed(f) <==> CountBits(f) == 1)
  {
    CountBitsMasked(f);
    CountBitsZero(f);
    if InRange(f) {
      FixedIffOneDigit(f);
    }
  }

  lemma CountBitsMasked(f: Mask)
    ensures CountBits(f) == CountBits(f & AllDigits)
  {
    DigitBits();
    MaskedAgrees(f);
    CountLowSameBits(f, f & AllDigits, 9);
  }

  lemma MaskedAgrees(f: Mask)
    ensures SameBitsIn(f, f & AllDigits, AllDigits)
  {
  }

  lemma CountBitsZero(f: Mask)
    ensures CountBits(f) == 0 <==> f & AllDigits == 0
  {
    DigitBits();
    RangeFacts(f);
    CountLowZero(f, 9);
  }

  lemma FixedIffOneDigit(f: Mask)
    requires InRange(f)
    ensures IsFixed(f) <==> CountBits(f) == 1
  {
    DigitBits();
    RangeFacts(f);
    FixedScanCount(f, 0);
  }

  lemma SameBitsShift(a: Mask, b: Mask, low: Mask)
    requires SameBitsIn(a, b, (low << 1) | 1)
    ensures LowBitSet(a) == LowBitSet(b)
    ensures SameBitsIn(a >> 1, b >> 1, low)
  {
  }

  /** `CountLow(_, width)` looks at nothing but the low `width` bits. */
  lemma {:induction false} CountLowSameBits(a: Mask, b: Mask, width: nat)
    requires width <= 16
    requires SameBitsIn(a, b, LowBits(width))
    ensures CountLow(a, width) == CountLow(b, width)
    decreases width
  {
    if width > 0 {
      SameBitsStep(a, b, width);
      CountLowSameBits(a >> 1, b >> 1, width - 1);
    }
  }

  lemma SameBitsStep(a: Mask, b: Mask, width: nat)
    requires 1 <= width <= 16
    requires SameBitsIn(a, b, LowBits(width))
    ensures LowBitSet(a) == LowBitSet(b)
    ensures SameBitsIn(a >> 1, b >> 1, LowBits(width - 1))
  {
    LowBitsStep(width);
    SameBitsShift(a, b, LowBits(width - 1));
  }

  lemma SubMaskShift(a: Mask, b: Mask, low: Mask)
    requires SubMask(a, b)
    ensures SubMask(a >> 1, b >> 1)
    ensures LowBitSet(a) ==> LowBitSet(b)
    ensures !SameBitsIn(a, b, (low << 1) | 1) ==>
      (LowBitSet(a) != LowBitSet(b) || !SameBitsIn(a >> 1, b >> 1, low))
    ensures SameBitsIn(a, b, 0)
  {
  }

  /** Clearing bits never raises the count, and clearing a counted bit lowers it. */
  lemma {:induction false} CountLowMonotone(a: Mask, b: Mask, width: nat)
    requires width <= 16
    requires SubMask(a, b)
    ensures CountLow(a, width) <= CountLow(b, width)
    ensures !SameBitsIn(a, b, LowBits(width)) ==> CountLow(a, width) < CountLow(b, width)
    decreases width
  {
    if width == 0 {
      SubMaskShift(a, b, 0);
    } else {
      MonotoneStep(a, b, width);
      CountLowMonotone(a >> 1, b >> 1, width - 1);
    }
  }

  lemma MonotoneStep(a: Mask, b: Mask, width: nat)
    requires 1 <= width <= 16
    requires SubMask(a, b)
    ensures SubMask(a >> 1, b >> 1)
    ensures LowBitSet(a) ==> LowBitSet(b)
    ensures !SameBitsIn(a, b, LowBits(width)) ==>
      (LowBitSet(a) != LowBitSet(b) || !SameBitsIn(a >> 1, b >> 1, LowBits(width - 1)))
  {
    LowBitsStep(width);
    SubMaskShift(a, b, LowBits(width - 1));
  }

  lemma WholeWord(a: Mask, b: Mask)
    ensures SameBitsIn(a, b, 0xffff) <==> a == b
  {
  }

  /** A strict submask has strictly smaller weight. */
  lemma WeightMonotone(a: Mask, b: Mask)
    requires SubMask(a, b)
    ensures Weight(a) <= Weight(b)
    ensures a != b ==> Weight(a) < Weight(b)
  {
    DigitBits();
    CountLowMonotone(a, b, 16);
    WholeWord(a, b);
  }

  lemma SplitShift(f: Mask, low: Mask)
    requires Within(f, (low << 1) | 1)
    ensures Within(f >> 1, low)
  {
  }

  lemma {:induction false} CountLowSplit(f: Mask, lo: nat, width: nat)
    requires lo <= width <= 16
    requires Within(f, LowBits(lo))
    ensures CountLow(f, width) == CountLow(f, lo)
    decreases width
  {
    if lo > 0 {
      LowBitsStep(lo);
      SplitShift(f, LowBits(lo - 1));
      CountLowSplit(f >> 1, lo - 1, width - 1);
    } else {
      NoBitsShift(f, LowBits(width));
      CountLowZero(f, width);
      CountLowZero(f, 0);
    }
  }

  /** For in-range masks the digit count is the weight. */
  lemma CountBitsIsWeight(f: Mask)
    requires InRange(f)
    ensures CountBits(f) == Weight(f)
  {
    DigitBits();
    RangeFacts(f);
    CountLowSplit(f, 9, 16);
  }

  /** A mask with digit bits that is not fixed allows at least two digits. */
  lemma AmbiguousHasTwo(x: Mask)
    requires InRange(x) && x != 0 && !IsFixed(x)
    ensures CountBits(x) >= 2
  {
    CountBitsFacts(x);
  }
}

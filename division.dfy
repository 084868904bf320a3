/**
 * Division of fixed-point numbers by shift-and-subtract: `leadingZeroes`
 * and `div`, with the rounding, the overflow escape and the divide-by-zero
 * failure of the source.
 */
module FixedDivision {
  import opened JavaInt
  import opened FixedPoint

  /** `MIN_VALUE`: only the sign bit. */
  const ONE_BIT_HIGH_MASK: int32 := INT_MIN
  /** `MIN_VALUE >> 3`: the top four bits. */
  const FOUR_BIT_HIGH_MASK: int32 := Sar(ONE_BIT_HIGH_MASK, 3)

  lemma HighMasks()
    ensures FOUR_BIT_HIGH_MASK == -(Pow2(28) as int)
  {
    Pow2Of32();
    Pow2Add(28, 3);
  }

  /** Number of zero bits above the highest set bit of a non-zero word:
      shifting x left by the result puts its top set bit in the sign position. */
  method LeadingZeroes(x0: int32) returns (result: int32)
    requires x0 != 0
    ensures 0 <= result <= 31
    ensures TWO31 <= Doubled(Unsigned(x0), result) < TWO32
  {
    var x;
    x, result := SkipNibbles(x0);
    x, result := SkipBits(x0, x, result);
  }

  /** The first loop of `leadingZeroes`: four bits at a time while the top four
      are clear. It stops with one of the top four bits set, after a whole number
      of four-bit steps. */
  method SkipNibbles(x0: int32) returns (x: int32, result: int32)
    requires x0 != 0
    ensures 0 <= result <= 31 && result % 4 == 0
    ensures Unsigned(x) == Doubled(Unsigned(x0), result)
    ensures And(x, FOUR_BIT_HIGH_MASK) != 0
  {
    ghost var u0 := Unsigned(x0);
    x := x0;
    result := 0;
    while And(x, FOUR_BIT_HIGH_MASK) == 0
      invariant 0 <= result <= 31 && result % 4 == 0
      invariant Unsigned(x) == Doubled(u0, result)
      decreases 32 - result
    {
      FourBitStep(x, u0, result);
      result := result + 4;
      x := Shl(x, 4);
    }
  }

  /** The second loop of `leadingZeroes`: one bit at a time until the sign bit is set. */
  method SkipBits(x0: int32, x1: int32, result1: int32) returns (x: int32, result: int32)
    requires x0 != 0 && 0 <= result1 <= 31
    requires Unsigned(x1) == Doubled(Unsigned(x0), result1)
    ensures 0 <= result <= 31
    ensures TWO31 <= Doubled(Unsigned(x0), result) < TWO32
  {
    ghost var u0 := Unsigned(x0);
    x, result := x1, result1;
    while And(x, ONE_BIT_HIGH_MASK) == 0
      invariant 0 <= result <= 31
      invariant Unsigned(x) == Doubled(u0, result)
      decreases 32 - result
    {
      OneBitStep(x, u0, result);
      result := result + 1;
      x := Shl(x, 1);
    }
    SignBitSet(x0, x, u0, result);
  }

  /** The postcondition of LeadingZeroes read as a bit count: a word with n
      leading zeroes lies in [2^(31-n), 2^(32-n)) as an unsigned number. */
  lemma LeadingZeroesCount(u: int, n: nat)
    requires n <= 31 && TWO31 <= Doubled(u, n) < TWO32
    ensures Pow2(31 - n) <= u < Pow2(32 - n)
  {
    DoubledIsScaled(u, n);
    Pow2Of32();
    Pow2Add(31 - n, n);
    Pow2Add(32 - n, n);
    ScaledBetween(u, Pow2(n), Pow2(31 - n), Pow2(32 - n));
  }

  lemma ScaledBetween(u: int, p: int, lo: int, hi: int)
    requires p >= 1 && lo * p <= u * p < hi * p
    ensures lo <= u < hi
  {
  }

  /** u doubled n times, that is u * 2^n. */
  function Doubled(u: int, n: nat): int
  {
    if n == 0 then u else 2 * Doubled(u, n - 1)
  }

  lemma {:induction false} DoubledIsScaled(u: int, n: nat)
    ensures Doubled(u, n) == u * Pow2(n)
  {
    if n > 0 {
      DoubledIsScaled(u, n - 1);
    }
  }

  /** While the top four bits are clear, shifting left by four keeps the scale exact. */
  lemma FourBitStep(x: int32, u0: int, n: int)
    requires u0 >= 1 && 0 <= n <= 31 && Unsigned(x) == Doubled(u0, n)
    requires And(x, FOUR_BIT_HIGH_MASK) == 0
    ensures n + 4 <= 31 && Unsigned(Shl(x, 4)) == Doubled(u0, n + 4)
  {
    DoubledIsScaled(u0, n);
    DoubledIsScaled(u0, n + 4);
    Pow2Of32();
    HighMasks();
    AndHigh(x, 28);
    MulMonotone(1, u0, Pow2(n), Pow2(n));
    Pow2Below(n, 28, Unsigned(x));
    ShiftFitsWord(x as int, 4, 28);
    ShlUnsigned(x, 4);
    ScaleStep(u0, n, 4);
  }

  /** While the sign bit is clear, shifting left by one keeps the scale exact. */
  lemma OneBitStep(x: int32, u0: int, n: int)
    requires u0 >= 1 && 0 <= n <= 31 && Unsigned(x) == Doubled(u0, n)
    requires And(x, ONE_BIT_HIGH_MASK) == 0
    ensures n + 1 <= 31 && Unsigned(Shl(x, 1)) == Doubled(u0, n + 1)
  {
    DoubledIsScaled(u0, n);
    DoubledIsScaled(u0, n + 1);
    Pow2Of32();
    AndMin(x);
    MulMonotone(1, u0, Pow2(n), Pow2(n));
    Pow2Below(n, 31, Unsigned(x));
    ShiftFitsWord(x as int, 1, 31);
    ShlUnsigned(x, 1);
    ScaleStep(u0, n, 1);
  }

  /** Once the sign bit is set, the scaled word has reached 2^31. */
  lemma SignBitSet(x0: int32, x: int32, u0: int, n: int)
    requires 0 <= n && u0 == Unsigned(x0) && Unsigned(x) == Doubled(u0, n)
    requires And(x, ONE_BIT_HIGH_MASK) != 0
    ensures TWO31 <= Doubled(Unsigned(x0), n) < TWO32
  {
    AndMin(x);
  }

  /*
   * Division
   */

  /** The magnitude the source divides: `x >= 0 ? x : (-x) & ~MIN_VALUE`, which is |x|
      except that MIN_VALUE, whose negation overflows, is masked to zero. */
  lemma MaskedMagnitude(a: int32)
    ensures (if a >= 0 then a else And(NegInt(a), Not(INT_MIN))) as int
         == (if a == INT_MIN then 0 else Magnitude(a))
  {
    if a < 0 {
      var v := NegInt(a);
      LowMask31(v);
      NegMagnitude(a, v);
    }
  }

  lemma NegMagnitude(a: int32, v: int32)
    requires a < 0 && v == NegInt(a)
    ensures v % TWO31 == if a == INT_MIN then 0 else Magnitude(a)
  {
    if a == INT_MIN {
      assert v == INT_MIN;
      DivModUnique(INT_MIN, TWO31, -1, 0);
    } else {
      assert v == -(a as int);
      DivModUnique(-(a as int), TWO31, 0, -(a as int));
    }
  }

  /** `v & ~MIN_VALUE` keeps the low 31 bits. */
  lemma LowMask31(v: int32)
    ensures And(v, Not(INT_MIN)) == v % TWO31
  {
    Pow2Of32();
    AndLow(v, 31);
  }

  /** `(d & 0xF) == 0` tests divisibility by 16. */
  lemma LowNibble(d: int32)
    ensures And(d, 0xF) == d % 16
  {
    assert Pow2(4) - 1 == 0xF;
    AndLow(d, 4);
  }

  /** `((x ^ y) & MIN_VALUE) != 0` tests whether the signs differ. */
  lemma SignsDiffer(a: int32, b: int32)
    ensures (And(Xor(a, b), INT_MIN) != 0) == ((a < 0) != (b < 0))
  {
    AndMin(Xor(a, b));
    XorSign(a, b);
  }

  /** The nearest integer to |a| * 2^10 / |b|, halves rounded away from zero, with the
      sign of a / b: what Div computes when nothing overflows. */
  function RoundedQuotient(a: int32, b: int32): (r: int32)
    requires Magnitude(a) < 0x10_0000 && b != 0
    ensures var m, n := Magnitude(r), Magnitude(b);
      2 * n * m <= 2048 * Magnitude(a) + n < 2 * n * m + 2 * n
    ensures r != 0 ==> ((r < 0) == ((a < 0) != (b < 0)))
  {
    var q := HalfUp(Magnitude(a), Magnitude(b));
    if (a < 0) != (b < 0) then -(q as int) else q
  }

  /** `(x * 2^11 / y + 1) / 2`: the floored quotient with one more fractional bit,
      rounded up at that bit; it is the nearest integer to x * 2^10 / y. */
  function HalfUp(x: nat, y: nat): (q: nat)
    requires x < 0x10_0000 && y >= 1
    ensures q < 0x4000_0000
    ensures 2 * y * q <= 2048 * x + y < 2 * y * q + 2 * y
  {
    var f := x * 2048 / y;
    DivLe(x * 2048, y);
    NearestHalf(x * 2048, y, (f + 1) / 2);
    (f + 1) / 2
  }

  /** Halving the floored quotient plus one rounds to nearest: with q so computed,
      q - 1/2 <= a / 2b < q + 1/2. */
  lemma NearestHalf(a: nat, b: nat, q: int)
    requires b >= 1 && q == (a / b + 1) / 2
    ensures 2 * b * q <= a + b < 2 * b * q + 2 * b
  {
    var f := a / b;
    FloorDivRange(a, b);
    assert f == 2 * q - 1 || f == 2 * q;
    if f == 2 * q - 1 {
      assert b * f == 2 * b * q - b;
    } else {
      assert b * f == 2 * b * q;
    }
  }

  /** Scaling dividend and divisor by the same factor keeps the floor. */
  lemma DivScale(a: nat, d: nat, k: nat)
    requires d >= 1 && k >= 1
    ensures (a * k) / (d * k) == a / d
  {
    var q, r := a / d, a % d;
    assert a * k == (d * k) * q + r * k;
    assert r * k < d * k;
    DivModUnique(a * k, d * k, q, r * k);
  }

  /** Dividing by the shrunk divider: the dividend was shifted by bp, the divider
      by 11 - bp, so the quotient is the one of x * 2^11 by the full divider. */
  lemma ShrunkQuotient(x: nat, d: nat, p: nat, k: nat, y: nat)
    requires d >= 1 && k >= 1 && y == d * k && p * k == 2048
    ensures (x * p) / d == (x * 2048) / y
  {
    assert x * 2048 == (x * p) * k;
    DivScale(x * p, d, k);
  }

  /** A magnitude below 2^20 has at least 12 leading zeroes. */
  lemma SmallMagnitudeShift(x: int, s: nat)
    requires 1 <= x < 0x10_0000 && TWO31 <= Doubled(x, s)
    ensures s >= 12
  {
    if s <= 11 {
      DoubledIsScaled(x, s);
      Pow2Monotone(s, 11);
      assert Pow2(11) == 2048;
      MulMonotone(x, x, Pow2(s), 2048);
      assert false;
    }
  }

  /** The one pass of the main loop when |x| < 2^20: the quotient of the whole
      shifted dividend is placed at bit 0 and the overflow test does not fire. */
  lemma SmallPass(m: int32, bp: int32, d: int32)
    requires 1 <= m < 0x10_0000 && d >= 1
    requires bp == 11 || bp == 7 || bp == 3
    ensures var q := Quot(Shl(m, bp), d);
      Shl(q, 0) == q && AddInt(0, q) == q && And(q, Not(Ushr(FULL_MASK, 0))) == 0
  {
    var p := if bp == 11 then 2048 else if bp == 7 then 128 else 8;
    SmallQuotient(m, bp, d, p);
    ShiftByZero(Quot(Shl(m, bp), d));
  }

  /** That quotient is the floor of m * 2^bp / d. */
  lemma SmallQuotient(m: int32, bp: int32, d: int32, p: int)
    requires 1 <= m < 0x10_0000 && d >= 1
    requires bp == 11 || bp == 7 || bp == 3
    requires p == if bp == 11 then 2048 else if bp == 7 then 128 else 8
    ensures 0 <= m * p / d < TWO31
    ensures Quot(Shl(m, bp), d) == m * p / d
  {
    BitPosScale(bp, p);
    ShiftFits(m, bp);
    var v := m * p;
    FloorDivRange(v, d);
    QuotNonNeg(v as int32, d);
  }

  lemma BitPosScale(bp: int32, p: int)
    requires bp == 11 || bp == 7 || bp == 3
    requires p == if bp == 11 then 2048 else if bp == 7 then 128 else 8
    ensures Pow2(bp) == p
  {
    assert Pow2(3) == 8;
    assert Pow2(7) == 128;
    assert Pow2(11) == 2048;
  }

  /** A divider divisible by 16 shifted right by four is a sixteenth of it. */
  lemma DividerShrink(d: int32)
    requires d >= 0 && And(d, 0xF) == 0
    ensures Ushr(d, 4) >= 0 && 16 * Ushr(d, 4) == d
    ensures d == 0 <==> Ushr(d, 4) == 0
  {
    LowNibble(d);
    UshrNonNeg(d, 4);
    assert Pow2(4) == 16;
  }

  /** The rounding tail when no quotient bit was produced. */
  lemma ZeroTail()
    ensures AddInt(0, 1) == 1 && Ushr(1, 1) == 0 && NegInt(0) == 0
  {
    assert Pow2(1 % 32) == 2;
  }

  lemma ShiftFits(mx: int32, bp: int32)
    requires 1 <= mx < 0x10_0000 && 0 <= bp <= 11
    ensures 0 <= mx * Pow2(bp) < 0x8000_0000
    ensures Shl(mx, bp) == mx * Pow2(bp)
  {
    Pow2Monotone(bp as nat, 11);
    assert Pow2(11) == 2048;
    MulMonotone(mx as int, mx as int, Pow2(bp), 2048);
    assert 0 <= mx * Pow2(bp) < 0x8000_0000;
    ShlNoWrap(mx, bp as nat);
  }

  /** Java `/` on non-negative operands is floor division. */
  lemma QuotNonNeg(v: int32, d: int32)
    requires v >= 0 && d >= 1
    ensures Quot(v, d) == v / d
  {
    FloorDivRange(v as int, d as int);
    assert TruncDiv(v, d) == v / d;
  }

  /** At bit position zero the shift is the identity and the overflow mask is empty. */
  lemma ShiftByZero(q: int32)
    ensures Shl(q, 0) == q
    ensures And(q, Not(Ushr(FULL_MASK, 0))) == 0
  {
    Pow2Of32();
    assert Unsigned(Ushr(FULL_MASK, 0)) == TWO32 - 1;
    assert Ushr(FULL_MASK, 0) == -1;
    AndWithZero(q);
  }

  /** The rounding tail for |x| < 2^20: `(quotient + 1) >>> 1`, negated when the
      signs differ, is RoundedQuotient. */
  lemma SmallTail(xl: int32, yl: int32, q: int32)
    requires Magnitude(xl) < 0x10_0000 && yl != 0 && yl != INT_MIN
    requires q == (Magnitude(xl) * 2048) / Magnitude(yl)
    ensures AddInt(q, 1) == q + 1
    ensures var h := Ushr(AddInt(q, 1), 1);
      RoundedQuotient(xl, yl) == if (xl < 0) != (yl < 0) then NegInt(h) else h
  {
    var x, y := Magnitude(xl), Magnitude(yl);
    QuotientBelowMax(x, y, q);
    RoundUp(q);
    HalfUpOfQuotient(x, y, q);
    RoundedOfHalfUp(xl, yl, (q + 1) / 2);
  }

  lemma QuotientBelowMax(x: nat, y: nat, q: int)
    requires x < 0x10_0000 && y >= 1 && q == (x * 2048) / y
    ensures 0 <= q < INT_MAX
  {
    DivLe(x * 2048, y);
  }

  lemma HalfUpOfQuotient(x: nat, y: nat, q: int)
    requires x < 0x10_0000 && y >= 1 && q == (x * 2048) / y
    ensures HalfUp(x, y) == (q + 1) / 2
  {
  }

  lemma RoundedOfHalfUp(a: int32, b: int32, h: int)
    requires Magnitude(a) < 0x10_0000 && b != 0 && b != INT_MIN
    requires h == HalfUp(Magnitude(a), Magnitude(b))
    ensures NegInt(h) == -h
    ensures RoundedQuotient(a, b) == if (a < 0) != (b < 0) then NegInt(h) else h
  {
  }

  /** The rounding of `div` for |x| < 2^20, from the quotient the main loop produced
      for the shrunk divider. */
  lemma SmallRounding(xl: int32, yl: int32, d: int32, bp: int32, q: int32)
    requires xl != INT_MIN && Magnitude(xl) < 0x10_0000 && yl != 0 && yl != INT_MIN
    requires d >= 1 && (bp == 11 || bp == 7 || bp == 3)
    requires bp == 11 ==> Magnitude(yl) == d
    requires bp == 7 ==> Magnitude(yl) == 16 * d
    requires bp == 3 ==> Magnitude(yl) == 256 * d
    requires xl == 0 ==> q == 0
    requires xl != 0 ==> q == Quot(Shl(Magnitude(xl) as int32, bp), d)
    ensures AddInt(q, 1) == q + 1
    ensures var h := Ushr(AddInt(q, 1), 1);
      RoundedQuotient(xl, yl) == if (xl < 0) != (yl < 0) then NegInt(h) else h
  {
    var mx, my := Magnitude(xl), Magnitude(yl);
    if xl != 0 {
      var p := if bp == 11 then 2048 else if bp == 7 then 128 else 8;
      var k := if bp == 11 then 1 else if bp == 7 then 16 else 256;
      SmallQuotient(mx as int32, bp, d, p);
      ShrunkQuotient(mx, d as nat, p, k, my);
    }
    SmallTail(xl, yl, q);
  }

  /** `(q + 1) >>> 1` for a non-negative q below MAX_VALUE. */
  lemma RoundUp(q: int32)
    requires 0 <= q < INT_MAX
    ensures AddInt(q, 1) == q + 1
    ensures Ushr(AddInt(q, 1), 1) == (q + 1) / 2
  {
    UshrNonNeg(AddInt(q, 1), 1);
    assert Pow2(1) == 2;
  }

  /** `(quotient + 1) >>> 1` is never negative, and neither is the magnitude it negates. */
  lemma TailSign(q: int32)
    ensures 0 <= Ushr(q, 1) && NegInt(Ushr(q, 1)) <= 0
  {
    Pow2Of32();
    assert Unsigned(Ushr(q, 1)) < TWO31;
  }

  /** How the main loop of `div` ends: with the accumulated quotient bits, at the
      divide-by-zero of a MIN_VALUE divider masked to zero, or at the overflow test. */
  datatype Outcome = Finished(quotient: int32) | DividerZero | Overflowed

  /** The first loop of `div`: while the divider is a multiple of 16 and four
      fractional bits remain, it is shifted down instead of the dividend up. */
  method ShrinkDivider(divider0: int32) returns (divider: int32, bitPos: int32)
    requires divider0 >= 0
    ensures bitPos == 11 || bitPos == 7 || bitPos == 3
    ensures 0 <= divider && (divider == 0) == (divider0 == 0)
    ensures bitPos == 11 ==> divider0 == divider
    ensures bitPos == 7 ==> divider0 == 16 * divider
    ensures bitPos == 3 ==> divider0 == 256 * divider
    ensures bitPos == 3 || divider % 16 != 0
  {
    divider := divider0;
    bitPos := DECIMAL_BITS as int32 + 1;
    while And(divider, 0xF) == 0 && bitPos >= 4
      invariant bitPos == 11 || bitPos == 7 || bitPos == 3
      invariant 0 <= divider && (divider == 0) == (divider0 == 0)
      invariant bitPos == 11 ==> divider0 == divider
      invariant bitPos == 7 ==> divider0 == 16 * divider
      invariant bitPos == 3 ==> divider0 == 256 * divider
      decreases bitPos
    {
      DividerShrink(divider);
      divider := Ushr(divider, 4);
      bitPos := bitPos - 4;
    }
    LowNibble(divider);
  }

  /** The main loop of `div`: shift the remainder up by its leading zeroes (at most
      to the current bit), divide, add the quotient bits at that position, stop on
      overflow. For a dividend below 2^20 one pass does it all: the quotient is the
      floor of remainder0 * 2^bitPos0 / divider. */
  method LongDivision(remainder0: int32, divider: int32, bitPos0: int32) returns (o: Outcome)
    requires remainder0 >= 0 && divider >= 0
    requires bitPos0 == 11 || bitPos0 == 7 || bitPos0 == 3
    ensures remainder0 == 0 ==> o == Finished(0)
    ensures o == DividerZero <==> remainder0 != 0 && divider == 0
    ensures 0 < remainder0 < 0x10_0000 && divider != 0 ==>
              o == Finished(Quot(Shl(remainder0, bitPos0), divider))
  {
    var remainder := remainder0;
    var quotient: int32 := 0;
    var bitPos := bitPos0;
    ghost var small := 0 < remainder0 < 0x10_0000 && divider != 0;
    while remainder != 0 && bitPos >= 0
      invariant -1 <= bitPos <= bitPos0
      invariant bitPos == bitPos0 ==> remainder == remainder0 && quotient == 0
      invariant remainder0 == 0 || divider == 0 ==> bitPos == bitPos0
      invariant small && bitPos != bitPos0 ==> bitPos == -1 && quotient == Quot(Shl(remainder0, bitPos0), divider)
      decreases bitPos + 1
    {
      var shift := LeadingZeroes(remainder);
      ghost var zeroes := shift;
      if shift > bitPos {
        shift := bitPos;
      }
      if small {
        SmallMagnitudeShift(remainder0, zeroes as nat);
        SmallPass(remainder0, bitPos0, divider);
      }
      remainder := Shl(remainder, shift);
      bitPos := bitPos - shift;
      assert small ==> bitPos == 0 && remainder == Shl(remainder0, bitPos0);

      if divider == 0 {
        return DividerZero;
      }
      var div := Quot(remainder, divider);
      remainder := Rem(remainder, divider);
      quotient := AddInt(quotient, Shl(div, bitPos));
      assert small ==> quotient == div == Quot(Shl(remainder0, bitPos0), divider);

      // Detect overflow
      if And(div, Not(Ushr(FULL_MASK, bitPos))) != 0 {
        return Overflowed;
      }

      remainder := Shl(remainder, 1);
      bitPos := bitPos - 1;
    }
    return Finished(quotient);
  }

  /** The rounding at the end of `div`: add one at the extra fractional bit, drop
      it, and negate when the signs of x and y differ. */
  method Round(xl: int32, yl: int32, quotient0: int32) returns (result: int32)
    ensures var h := Ushr(AddInt(quotient0, 1), 1);
      result == if (xl < 0) != (yl < 0) then NegInt(h) else h
    ensures (xl < 0) == (yl < 0) ==> result >= 0
    ensures (xl < 0) != (yl < 0) ==> result <= 0
    ensures quotient0 == 0 ==> result == 0
  {
    SignsDiffer(xl, yl);
    TailSign(AddInt(quotient0, 1));
    if quotient0 == 0 {
      ZeroTail();
    }
    var quotient := AddInt(quotient0, 1);
    result := Ushr(quotient, 1);
    if And(Xor(xl, yl), INT_MIN) != 0 {
      result := NegInt(result);
    }
  }

  /** `x.div(y)`: shift-and-subtract long division of the magnitudes with 11
      fractional bits, then rounding by the last bit and the sign of x ^ y. */
  method Div(x: Fixed, y: Fixed) returns (r: Result<Fixed>)
    ensures r.Err? <==> y.data == 0 || (y.data == INT_MIN && x.data != 0 && x.data != INT_MIN)
    ensures r.Err? ==> r.error == DivideByZero
    ensures y.data != 0 && (x.data == 0 || x.data == INT_MIN) ==> r == Ok(Zero)
    ensures r.Ok? && (x.data < 0) == (y.data < 0) ==> r.value.data >= 0
    ensures r.Ok? && (x.data < 0) != (y.data < 0) ==> r.value.data <= 0
    ensures Magnitude(x.data) < 0x10_0000 && y.data != 0 && y.data != INT_MIN ==>
              r == Ok(Fixed(RoundedQuotient(x.data, y.data) as int32))
  {
    var xl, yl := x.data, y.data;
    if yl == 0 {
      return Err(DivideByZero);
    }
    MaskedMagnitude(xl);
    MaskedMagnitude(yl);
    SignsDiffer(xl, yl);

    var remainder: int32 := if xl >= 0 then xl else And(NegInt(xl), Not(INT_MIN));
    var divider: int32 := if yl >= 0 then yl else And(NegInt(yl), Not(INT_MIN));
    ghost var mx, my := remainder as int, divider as int;
    var bitPos;
    divider, bitPos := ShrinkDivider(divider);
    var o := LongDivision(remainder, divider, bitPos);
    if o.DividerZero? {
      return Err(DivideByZero);
    } else if o.Overflowed? {
      return Ok(if And(Xor(xl, yl), INT_MIN) == 0 then MaxValue else MinValue);
    }
    var quotient := o.quotient;
    if xl != INT_MIN && mx < 0x10_0000 && yl != INT_MIN {
      SmallRounding(xl, yl, divider, bitPos, quotient);
    }
    var result := Round(xl, yl, quotient);
    return Ok(Fixed(result));
  }

  /** A value below 2^m shifted by k = 32 - m stays below 2^32. */
  lemma ShiftFitsWord(x: int, k: nat, m: nat)
    requires 0 <= x < Pow2(m) && k + m == 32
    ensures x * Pow2(k) < TWO32
  {
    Pow2Add(m, k);
    Pow2Of32();
    BelowWord(x, Pow2(k), Pow2(m));
  }

  lemma BelowWord(x: int, p: int, q: int)
    requires 0 <= x < q && 0 <= p && q * p == TWO32
    ensures x * p < TWO32
  {
    MulMonotone(x + 1, q, p, p);
    assert (x + 1) * p == x * p + p;
  }

  /** One more left shift multiplies the scale by 2^k. */

  lemma ScaleStep(u: int, n: nat, k: nat)
    ensures u * Pow2(n) * Pow2(k) == u * Pow2(n + k)
  {
    Pow2Add(n, k);
  }
}

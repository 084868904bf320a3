# Fixed-point arithmetic of `com.mcdevon.fixed.Fixed`, in Dafny

`Fixed` is an immutable 32-bit two's-complement fixed-point number. Its raw
`int` store is scaled by 2^10 (`DECIMAL_BITS = 10`), so raw 1024 is 1.0 and
the value of a `Fixed` is `data / 1024`. This project models the operators of
the class, with every Java `int` operation written out exactly. It then proves
what each operator computes in terms of the exact rational value.

The project has four modules:

- `JavaInt` (`javaint.dfy`) is Java `int` and `long` arithmetic on unbounded
  integers:
  - two's-complement wrap-around (`Wrap`), with `+ - * -x` built from it;
  - the shifts `<<`, `>>` and `>>>`, with the count taken modulo 32;
  - truncating `/` and `%` (`Quot`, `Rem`; Dafny's own operators are
    Euclidean);
  - `&` and `^`, computed bit by bit on the unsigned 32-bit image, and `~`,
    defined as `-a - 1` and proved equal to `a ^ -1` (`XorMinusOne`).
- `FixedPoint` (`fixed.dfy`) is the `Fixed` datatype and the straight-line
  operators:
  - `sign`, `abs` and `safeAbs`;
  - the wrapping `add`, `sub`, `negate`, `mod` and the half-split `mul`;
  - the comparisons and `equals`;
  - the saturating `safeAdd` and `safeSub`;
  - the integer conversions.

  These are functions, since the source computes each as one expression.
  Lemmas relate them to each other: add/negate/sub identities,
  commutativity, associativity, monotonicity, saturation and the conversion
  round trips.
- `FixedDivision` (`division.dfy`) is `leadingZeroes` and `div`. Both are
  loops over local variables in the source, so they are methods with loop
  invariants:
  - `LeadingZeroes` runs its two loops as the helper methods `SkipNibbles`
    and `SkipBits`;
  - `Div` runs the divisor-shrinking loop, the main shift-and-subtract loop
    and the rounding tail as `ShrinkDivider`, `LongDivision` and `Round`.

  `Div` is proved to return the correctly rounded quotient
  (`RoundedQuotient`) for dividends below 2^20 in magnitude. It is also
  proved to follow the source's divide-by-zero, `MIN_VALUE` and sign
  behaviour for every input.
- `FixedSqrt` (`sqrt.dfy`) is `sqrt`.
  - The method `Sqrt` runs the source's loops over Java ints.
  - It is proved equal to the functional description `SqrtAsWritten` on
    every non-negative input, and proved never to overflow.
  - Lemmas show that the first pass computes the integer square root and
    that the final step rounds to nearest.
  - The code as written is correctly rounded below raw 2^18. Above that, its
    rescaling step can be wrong; see Findings.

Java exceptions become `Result` values: `Err(DivideByZero)` for `mod` and
`div`, and `Err(SqrtOfNegative)` for `sqrt`. `div` throws
`ArithmeticException` on a zero divisor (Fixed.java:105-107). `sqrt` means to
round to nearest: see the comment at line 283 and the derivation at lines
268-270. The code does not always do so (see Findings), and the model follows
the code. A `MIN_VALUE` divisor in `div` is masked to 0 (line 110). For a
dividend other than 0 and `MIN_VALUE`, the loop at line 120 then runs and
reaches Java's own division by zero at line 128, and the model reports that as
`DivideByZero` too. For a dividend of 0 or `MIN_VALUE` the masked remainder is
0, so the loop is skipped and the result is 0.

## Model

| member | source | states |
|---|---|---|
| FixedPoint.Constants | src/com/mcdevon/fixed/Fixed.java:16-22 | DECIMAL_MASK is 1023 and ONE, TWO, HALF are 1024, 2048, 512 |
| FixedPoint.Sign | src/com/mcdevon/fixed/Fixed.java:37-40 | the result is -1, 0 or 1 and is negative (positive) exactly when the value is |
| FixedPoint.Abs | src/com/mcdevon/fixed/Fixed.java:42-45 | `(x + mask) ^ mask` is \|x\| for every x but MIN_VALUE, which it returns unchanged |
| FixedPoint.SafeAbs | src/com/mcdevon/fixed/Fixed.java:47-54 | the result is never negative: \|x\| clamped to MAX_VALUE, so MIN_VALUE gives MAX_VALUE |
| FixedPoint.SignTimesAbs | src/com/mcdevon/fixed/Fixed.java:37-45 | sign(x) * abs(x) == x away from MIN_VALUE |
| FixedPoint.Add | src/com/mcdevon/fixed/Fixed.java:60-62 | the raw result is congruent to x + y modulo 2^32, and the value is the exact sum when that fits |
| FixedPoint.Sub | src/com/mcdevon/fixed/Fixed.java:64-66 | the raw result is congruent to x - y modulo 2^32, and the value is the exact difference when that fits |
| FixedPoint.Mul | src/com/mcdevon/fixed/Fixed.java:68-89 | the four half-products sum to the floor of x * y / 2^10, wrapped modulo 2^32 |
| FixedPoint.MulExactInRange | src/com/mcdevon/fixed/Fixed.java:68-89 | mul is exactly the floored scaled product whenever that fits in an int |
| FixedPoint.MulByOne | src/com/mcdevon/fixed/Fixed.java:68-89 | one is a two-sided identity of mul |
| FixedPoint.MulCommutes | src/com/mcdevon/fixed/Fixed.java:68-89 | mul is commutative |
| FixedPoint.Mod | src/com/mcdevon/fixed/Fixed.java:151-153 | a zero divisor fails; otherwise x = y * trunc(x / y) + r, with \|r\| < \|y\| and r taking the sign of x |
| FixedPoint.Negate | src/com/mcdevon/fixed/Fixed.java:155-157 | the value is negated, except that MIN_VALUE maps to itself |
| FixedPoint.NegateTwiceIsIdentity | src/com/mcdevon/fixed/Fixed.java:155-157 | negate is an involution, MIN_VALUE included |
| FixedPoint.AddNegateIsZero | src/com/mcdevon/fixed/Fixed.java:60-62 | x + (-x) is zero for every x |
| FixedPoint.SubIsAddNegate | src/com/mcdevon/fixed/Fixed.java:64-66 | x - y is x + (-y) for every x and y, with wrap-around |
| FixedPoint.AddThenSubIsIdentity | src/com/mcdevon/fixed/Fixed.java:60-66 | (x + y) - y is x for every x and y, with wrap-around |
| FixedPoint.AddCommutes | src/com/mcdevon/fixed/Fixed.java:60-62 | add is commutative |
| FixedPoint.AddAssociates | src/com/mcdevon/fixed/Fixed.java:60-62 | add is associative, with wrap-around |
| FixedPoint.AddMonotone | src/com/mcdevon/fixed/Fixed.java:60-62 | a < b gives a + c < b + c when neither sum overflows |
| FixedPoint.LessThan | src/com/mcdevon/fixed/Fixed.java:159-161 | raw order is the order of the values |
| FixedPoint.MoreThan | src/com/mcdevon/fixed/Fixed.java:163-165 | raw order is the order of the values |
| FixedPoint.LessThanOrEquals | src/com/mcdevon/fixed/Fixed.java:167-169 | raw order is the order of the values |
| FixedPoint.MoreThanOrEquals | src/com/mcdevon/fixed/Fixed.java:171-173 | raw order is the order of the values |
| FixedPoint.Equals | src/com/mcdevon/fixed/Fixed.java:175-177 | equal raw stores means the same number and the same value |
| FixedPoint.SafeAdd | src/com/mcdevon/fixed/Fixed.java:200-211 | the exact sum clamped to [MIN_VALUE, MAX_VALUE], and add itself when the sum fits |
| FixedPoint.OverflowOnAdd | src/com/mcdevon/fixed/Fixed.java:207 | the sign-bit test is true exactly when x + y leaves the int range |
| FixedPoint.SafeSub | src/com/mcdevon/fixed/Fixed.java:213-224 | the exact difference clamped to [MIN_VALUE, MAX_VALUE], and sub itself when it fits |
| FixedPoint.OverflowOnSub | src/com/mcdevon/fixed/Fixed.java:220 | the sign-bit test is true exactly when x - y leaves the int range |
| FixedPoint.SafeAddSaturates | src/com/mcdevon/fixed/Fixed.java:200-224 | MAX + one stays MAX, MIN - one stays MIN, and 0 - MIN gives MAX |
| FixedPoint.FromData | src/com/mcdevon/fixed/Fixed.java:294-296 | the value is the raw word over 2^10 |
| FixedPoint.DataValue | src/com/mcdevon/fixed/Fixed.java:381-383 | the raw word is the value times 2^10 |
| FixedPoint.FromInt | src/com/mcdevon/fixed/Fixed.java:298-300 | n * 2^10 wrapped modulo 2^32, which is always a multiple of 2^10 and is exactly n for \|n\| < 2^21 |
| FixedPoint.FromLong | src/com/mcdevon/fixed/Fixed.java:302-304 | the long times 2^10, wrapped modulo 2^32 |
| FixedPoint.FromLongCastsFirst | src/com/mcdevon/fixed/Fixed.java:302-304 | fromLong(v) is fromInt((int) v): the cast happens before the scaling |
| FixedPoint.IntValue | src/com/mcdevon/fixed/Fixed.java:373-375 | the floor of the value |
| FixedPoint.IntValueOfFromInt | src/com/mcdevon/fixed/Fixed.java:298-300 | intValue(fromInt(n)) == n holds exactly when -2^21 <= n < 2^21 |
| FixedDivision.HighMasks | src/com/mcdevon/fixed/Fixed.java:91-92 | the four-bit mask is -2^28, the top four bits |
| FixedDivision.LeadingZeroes | src/com/mcdevon/fixed/Fixed.java:94-99 | for x != 0, shifting x left by the result puts its top set bit at bit 31, with the result in 0..31 |
| FixedDivision.SkipNibbles | src/com/mcdevon/fixed/Fixed.java:96 | the first loop shifts by fours while keeping x equal to x0 * 2^result (as an unsigned word), and stops after a multiple of four steps below 32 with one of the top four bits set |
| FixedDivision.SkipBits | src/com/mcdevon/fixed/Fixed.java:97 | the second loop stops exactly when x0 * 2^result reaches [2^31, 2^32) |
| FixedDivision.LeadingZeroesCount | src/com/mcdevon/fixed/Fixed.java:94-99 | that result n is the leading-zero count: 2^(31-n) <= x < 2^(32-n) as an unsigned word |
| FixedDivision.MaskedMagnitude | src/com/mcdevon/fixed/Fixed.java:109-110 | `x >= 0 ? x : (-x) & ~MIN_VALUE` is \|x\|, except that MIN_VALUE becomes 0 |
| FixedDivision.SignsDiffer | src/com/mcdevon/fixed/Fixed.java:144 | `((x ^ y) & MIN_VALUE) != 0` holds exactly when the signs differ |
| FixedDivision.ShrinkDivider | src/com/mcdevon/fixed/Fixed.java:112-118 | dividing the divider by 16 per step while it is divisible lowers bitPos by 4 per step, to 11, 7 or 3 |
| FixedDivision.LongDivision | src/com/mcdevon/fixed/Fixed.java:120-139 | a zero dividend skips the loop, a zero divider fails, and a dividend below 2^20 takes one pass that leaves floor(x * 2^bitPos / divider) |
| FixedDivision.SmallMagnitudeShift | src/com/mcdevon/fixed/Fixed.java:121-124 | a remainder below 2^20 has at least 12 leading zeroes, so the shift is capped at bitPos |
| FixedDivision.ShrunkQuotient | src/com/mcdevon/fixed/Fixed.java:115-130 | dividing the dividend shifted by bitPos by the shrunk divider gives the same floor as dividing the dividend times 2^11 by the full divider |
| FixedDivision.Round | src/com/mcdevon/fixed/Fixed.java:141-146 | (quotient + 1) >>> 1, negated when the signs differ |
| FixedDivision.HalfUp | src/com/mcdevon/fixed/Fixed.java:141-143 | (floor(x * 2^11 / y) + 1) / 2 is the nearest integer to x * 2^10 / y, halves rounded up |
| FixedDivision.NearestHalf | src/com/mcdevon/fixed/Fixed.java:141-143 | halving the 11-bit floor plus one lands within half a unit of the 10-bit quotient |
| FixedDivision.RoundedQuotient | src/com/mcdevon/fixed/Fixed.java:141-146 | the nearest integer to \|x\| * 2^10 / \|y\|, carrying the sign of x / y |
| FixedDivision.Div | src/com/mcdevon/fixed/Fixed.java:101-149 | fails exactly for y == 0 and for y == MIN_VALUE with x other than 0 or MIN_VALUE; x of 0 or MIN_VALUE gives zero; the sign follows x ^ y; and for \|x\| < 2^20 with y other than 0 or MIN_VALUE the result is RoundedQuotient |
| FixedSqrt.TopBit | src/com/mcdevon/fixed/Fixed.java:243-247 | the scan for the start bit as written; no ensures of its own, TopBitLevel states where it stops |
| FixedSqrt.TopBitLevel | src/com/mcdevon/fixed/Fixed.java:243-247 | the scan for the start bit stops at the power of four P^2 / 4 with P^2 / 4 <= raw < P^2, the highest one not above raw |
| FixedSqrt.Digits | src/com/mcdevon/fixed/Fixed.java:251-260 | the digit loop of one pass as written; no ensures of its own, DigitsRoot and DigitLoop state what it computes |
| FixedSqrt.DigitsRoot | src/com/mcdevon/fixed/Fixed.java:251-260 | the digit loop, started with root A, bit P^2 / 4 and remainder n - A^2 where n < (A + P)^2, ends with floor(sqrt n) and remainder n - floor(sqrt n)^2 |
| FixedSqrt.FirstPass | src/com/mcdevon/fixed/Fixed.java:239-260 | for every non-negative int, the first pass leaves floor(sqrt raw) as the root and raw - floor(sqrt raw)^2 as the remainder |
| FixedSqrt.FirstPassRoot | src/com/mcdevon/fixed/Fixed.java:239-260 | the first pass yields floor(sqrt raw) with remainder raw - floor(sqrt raw)^2 |
| FixedSqrt.FirstPassBounds | src/com/mcdevon/fixed/Fixed.java:251-260 | after the first pass the root is at most 46340 and the remainder at most twice the root |
| FixedSqrt.Rescale | src/com/mcdevon/fixed/Fixed.java:264-278 | both branches of the step between the passes as written; no ensures of its own, RescaleRemainder states the remainder identity |
| FixedSqrt.RescaleRemainder | src/com/mcdevon/fixed/Fixed.java:264-278 | 2^10 * num' + root'^2 == 2^20 * (num + root^2), where num' and root' are the remainder and root after the step, holds exactly on the plain shift. On the correcting branch it falls 2^18 short (the remainder is 256 short), because HALF is taken where the derivation at lines 268-270 needs a quarter |
| FixedSqrt.SecondPassRoot | src/com/mcdevon/fixed/Fixed.java:275-281 | after the plain shift by 2^10, the second pass yields floor(sqrt(raw * 2^10)) with its remainder |
| FixedSqrt.RoundAtNextBit | src/com/mcdevon/fixed/Fixed.java:283-286 | from a root R with remainder between 0 and 2R, the result is the nearest integer to the square root of R^2 + remainder |
| FixedSqrt.RoundUpIsNearest | src/com/mcdevon/fixed/Fixed.java:283-286 | from a floor root and its remainder, `num > result` rounds up exactly when the next bit is 1, giving the nearest root |
| FixedSqrt.SqrtCorrected | src/com/mcdevon/fixed/Fixed.java:239-287 | with the plain shift in both branches, the result is the nearest integer to sqrt(raw * 2^10) for every non-negative raw |
| FixedSqrt.AgreesOnSmallRemainder | src/com/mcdevon/fixed/Fixed.java:264-278 | when the first-pass remainder is at most 1023, the code takes the plain shift, the same as the corrected version |
| FixedSqrt.AsWrittenAgrees | src/com/mcdevon/fixed/Fixed.java:264-278 | below raw 2^18 the correction branch never fires |
| FixedSqrt.SqrtAsWritten | src/com/mcdevon/fixed/Fixed.java:230-288 | the result of `sqrt` as written on a non-negative raw word. Below raw 2^18 it is the nearest root of raw * 2^10 |
| FixedSqrt.SqrtOfWholeSquare | src/com/mcdevon/fixed/Fixed.java:230-288 | sqrt(fromInt(m * m)) == fromInt(m) whenever the argument fits, so sqrt(4) = 2 and sqrt(0) = 0 |
| FixedSqrt.SqrtRoundingFinding | src/com/mcdevon/fixed/Fixed.java:264-274 | raw 100001024 gives 320016 as written, which is not the nearest root; the corrected version gives the nearest, 320002 |
| FixedSqrt.SqrtQuarterFinding | src/com/mcdevon/fixed/Fixed.java:264-274 | raw 296974 gives 17438 as written, which is not the nearest root; the corrected version gives the nearest, 17439 |
| FixedSqrt.DigitsFrom | src/com/mcdevon/fixed/Fixed.java:251-260 | the digit loop started at bit 2^8 from root A in res = 32 A, with remainder N - A^2 and N < (A + 32)^2, ends in the state of the integer square root of N |
| FixedSqrt.RescaleJava | src/com/mcdevon/fixed/Fixed.java:264-280 | neither branch between the passes overflows, and each computes its arithmetic exactly |
| FixedSqrt.DigitLoop | src/com/mcdevon/fixed/Fixed.java:251-260 | the inner loop over Java ints computes the digit function without overflow |
| FixedSqrt.Sqrt | src/com/mcdevon/fixed/Fixed.java:230-288 | a negative input fails; otherwise the result is SqrtAsWritten(raw), which below raw 2^18 is the nearest root of raw * 2^10 |

## Left out

- `fromFloat`, `fromDouble`, `floatValue` and `doubleValue` are not modelled, because they are floating point.
- `bigDecimalValue` and `toString` are not modelled, because they only wrap `java.math.BigDecimal`.
- `equals(Object)` and `hashCode` are not modelled, because they are object plumbing (a null check, `instanceof` and returning the raw word). `equals(Fixed)` is modelled.
- `fromString` and `_tenPowerTable` are not modelled, because they depend on regex splitting and `Integer.parseInt`. Two flaws there go unmodelled:
  - the table entries from 10^7 up wrap: `fromLong` multiplies by 2^10 in `int` arithmetic, and from 10^7 on the product leaves the int range. The cast to `int` itself truncates only from 10^10 on;
  - the sign is taken from the integer part, so "-0.5" loses its sign.
- Exceptions are not thrown: `ArithmeticException` becomes an `Err` result, and `Failure` names the two causes.
- FixedDivision.LeadingZeroes: requires x != 0, because the source loops forever on 0. `div` only calls it on a non-zero remainder.
- FixedDivision.Div: the exact rounded quotient is stated only for |x| < 2^20 and y other than 0 or MIN_VALUE.
  - From 2^20 on, `remainder <<= shift` (line 125) can set the sign bit, and the later passes of the loop and the overflow escape are not characterised.
  - For those inputs only the failure cases and the sign of the result are stated.
  - Reading the code shows that the source's own result is wrong there even when the true quotient fits. For raw x = 2^20 (1024.0), y = 3 gives raw 1789569707 where the quotient is 357913941, and y = 1025 gives raw 2146436096 where it is 1047553. The model follows the code and does not state these values.
- FixedDivision.LongDivision: for a remainder of 2^20 or more, the contract states neither the quotient nor when `Overflowed` is returned. There `remainder <<= shift` (line 125) can set the sign bit, so the Java `/` and `%` see a negative dividend.
- FixedDivision.Div: for an overflow escape, the contract states only the sign of the result, not when the escape is taken. The source returns MAX_VALUE or MIN_VALUE there, by the sign test.
- FixedSqrt.Sqrt: the nearest-root property of the code as written is stated only below raw 2^18. Above that, the result is stated as SqrtAsWritten, and Findings shows it can be off.

## Findings

| source | as written | input that shows it | evidently intended | confidence | as-written member | corrected member |
|---|---|---|---|---|---|---|
| src/com/mcdevon/fixed/Fixed.java:264-273 | when the first-pass remainder exceeds 1023, the correcting branch adds HALF to the shifted root, which forces the second pass's top digit (half a unit of the first-pass root) to 1. That digit is 1 only when the remainder exceeds the root, and from raw 2^20 the root can exceed a remainder above 1023. A wrongly forced digit drives the remainder negative, after which every later digit is 0 | raw 100001024 (97657.25): the first pass leaves root 10000 and remainder 1024, and the result is raw 320016 (312.515625) | the correctly rounded root raw 320002 (312.501953125), which the plain shift of the other branch gives. That shift cannot overflow, since the remainder is at most 2 * 46340 | not executed | FixedSqrt.SqrtAsWritten, shown off by FixedSqrt.SqrtRoundingFinding | FixedSqrt.SqrtCorrected, whose contract proves it nearest |
| src/com/mcdevon/fixed/Fixed.java:272 | the branch subtracts HALF from the shifted remainder, where the derivation at lines 268-270 needs a quarter: (R + 1/2)^2 is R^2 + R + 1/4. The remainder is left 256 short (`FixedSqrt.RescaleRemainder`), so the second pass computes the root of 2^10 raw - 2^8 rather than of 2^10 raw. This applies from raw 2^18 on, even when the forced digit is right | raw 296974 (about 290.01): the first pass leaves root 544 and remainder 1038, and the result is raw 17438 (17.029296875) | the correctly rounded root raw 17439 (17.0302734375), which the plain shift gives | not executed | FixedSqrt.SqrtAsWritten, shown off by FixedSqrt.SqrtQuarterFinding | FixedSqrt.SqrtCorrected, whose contract proves it nearest |

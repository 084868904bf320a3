/**
 * `Fixed.sqrt`: the bit-by-bit integer square root of the raw word, run in
 * two passes (the integer root, then five more bits after rescaling by 2^10),
 * and a final round up at the next bit.
 *
 * The digit loop is specified by the functions below on unbounded integers;
 * the method runs the source's loops over Java ints and is proved to compute
 * them, with no wrap-around on the way.
 */
module FixedSqrt {
  import opened JavaInt
  import opened FixedPoint

  /** The state of the digit loop: the remainder `num` and the partial `result`. */
  datatype Pass = Pass(num: int, result: int)

  /** `while (bit > num) bit >>>= 2`: from a power of four, the highest power of
      four not above num, or 0 when num is 0 (TopBitLevel states where it stops). */
  function TopBit(num: int, bit: nat): nat
    decreases bit
  {
    if bit > num && bit > 0 then TopBit(num, bit / 4) else bit
  }

  /** The inner `while (bit != 0)` loop of one pass (DigitsRoot states what it
      computes). */
  function Digits(num: int, res: int, bit: nat): Pass
    decreases bit
  {
    if bit == 0 then Pass(num, res)
    else if num >= res + bit then Digits(num - (res + bit), res / 2 + bit, bit / 4)
    else Digits(num, res / 2, bit / 4)
  }

  /** The first pass, from the highest power of four below 2^31: on a
      non-negative int it leaves the integer square root and its remainder. */
  function FirstPass(n: int): (r: Pass)
    ensures 0 <= n <= INT_MAX ==> FloorRoot(n, r)
  {
    if 0 <= n <= INT_MAX then
      FirstPassRoot(n);
      Digits(n, 0, TopBit(n, 0x4000_0000))
    else Digits(n, 0, TopBit(n, 0x4000_0000))
  }

  /** The step between the passes as written: when the remainder exceeds 2^10 - 1,
      a half is added to the root by hand and HALF taken from the shifted remainder. */
  function Rescale(p: Pass): Pass
  {
    if p.num > 1023 then Pass((p.num - p.result) * 1024 - 512, p.result * 1024 + 512)
    else Pass(p.num * 1024, p.result * 1024)
  }

  /** With the root scaled by 2^10 and the remainder by 2^20 (kept as num * 2^10),
      the remainder should stay the scaled value less the new root squared. The
      plain shift keeps that exactly. The correcting branch leaves num 256 short,
      so the sum falls 2^18 short, since (R + 1/2)^2 is R^2 + R + 1/4 and not
      R^2 + R + 1/2. */
  lemma RescaleRemainder(p: Pass)
    ensures p.num <= 1023 ==>
      1024 * Rescale(p).num + Rescale(p).result * Rescale(p).result == 1024 * 1024 * (p.num + p.result * p.result)
    ensures p.num > 1023 ==>
      1024 * Rescale(p).num + Rescale(p).result * Rescale(p).result == 1024 * 1024 * (p.num + p.result * p.result) - 262144
  {
    if p.num > 1023 {
      RescaleByHalf(p.num, p.result);
    } else {
      RescalePlain(p.num, p.result);
    }
  }

  lemma RescaleByHalf(num: int, R: int)
    ensures 1024 * ((num - R) * 1024 - 512) + (R * 1024 + 512) * (R * 1024 + 512)
      == 1024 * 1024 * (num + R * R) - 262144
  {
    assert (R * 1024 + 512) * (R * 1024 + 512) == 1024 * 1024 * (R * R) + 1024 * 1024 * R + 262144;
  }

  lemma RescalePlain(num: int, R: int)
    ensures 1024 * (num * 1024) + (R * 1024) * (R * 1024) == 1024 * 1024 * (num + R * R)
  {
    assert (R * 1024) * (R * 1024) == 1024 * 1024 * (R * R);
  }

  /** `if (num > result) ++result`: from a floor root R with remainder at most 2R,
      rounding up when the remainder exceeds R gives the nearest root. */
  function RoundAtNextBit(p: Pass): (r: int)
    ensures p.result >= 0 && 0 <= p.num <= 2 * p.result ==>
      IsNearestRoot(p.result * p.result + p.num, r)
  {
    NearestBounds(p.result);
    if p.num > p.result then p.result + 1 else p.result
  }

  lemma NearestBounds(s: int)
    ensures (2 * s + 1) * (2 * s + 1) == 4 * (s * s) + 4 * s + 1
    ensures (2 * s + 3) * (2 * s + 3) == 4 * (s * s) + 12 * s + 9
    ensures (2 * s - 1) * (2 * s - 1) == 4 * (s * s) - 4 * s + 1
  {
  }

  /** The raw result of `sqrt` on a non-negative raw word n, as written. Below
      2^18 (values below 256.0) the correcting branch never fires and the result
      is the nearest integer to sqrt(n / 2^10) * 2^10 = sqrt(2^10 n). */
  function SqrtAsWritten(n: int): (r: int)
    ensures 0 <= n < 0x4_0000 ==> IsNearestRoot(1024 * n, r)
  {
    var p := Rescale(FirstPass(n));
    var q := Digits(p.num, p.result, 256);
    if 0 <= n < 0x4_0000 then
      SmallRemainder(n);
      ScaledPass(n, FirstPass(n).num, FirstPass(n).result);
      RoundUpIsNearest(1024 * n, q);
      RoundAtNextBit(q)
    else RoundAtNextBit(q)
  }

  /** The same with both branches of the rescaling step replaced by the plain
      shift, which cannot overflow with ten fractional bits: the nearest root of
      2^10 n for every non-negative raw word n. */
  function SqrtCorrected(n: int): (r: int)
    ensures 0 <= n <= INT_MAX ==> IsNearestRoot(1024 * n, r)
  {
    var p := FirstPass(n);
    var q := Digits(p.num * 1024, p.result * 1024, 256);
    if 0 <= n <= INT_MAX then
      SecondPassRoot(n);
      RoundUpIsNearest(1024 * n, q);
      RoundAtNextBit(q)
    else RoundAtNextBit(q)
  }

  /** p.result is the integer square root of n and p.num the remainder. */
  ghost predicate FloorRoot(n: int, p: Pass)
  {
    p.result >= 0 && p.result * p.result <= n < (p.result + 1) * (p.result + 1)
    && p.num == n - p.result * p.result
  }

  /** r is the integer nearest to the square root of N:
      r - 1/2 < sqrt(N) < r + 1/2, the lower bound vacuous at r = 0. */
  ghost predicate IsNearestRoot(N: int, r: int)
  {
    r >= 0 && 4 * N < (2 * r + 1) * (2 * r + 1)
    && (r == 0 || (2 * r - 1) * (2 * r - 1) < 4 * N)
  }

  /*
   * The digit loop computes the integer square root
   */

  /** From bit = P^2 / 4 with P = 2^j, the loop keeps the root found so far,
      A (a multiple of P), in res = A * P and the remainder n - A^2 in num, with
      n below (A + P)^2; it ends with the floor root. */
  lemma {:induction false} DigitsRoot(n: int, num: int, res: int, j: nat, P: int, A: int)
    requires P == Pow2(j) && A >= 0
    requires res == A * P && num == n - A * A && 0 <= num
    requires n < (A + P) * (A + P)
    ensures FloorRoot(n, Digits(num, res, P * P / 4))
    decreases j
  {
    if j == 0 {
      LastDigit(n, num, res, P, A);
    } else {
      var Q := HalvePower(j, P);
      var quarter := Q * Q;
      if num >= res + quarter {
        TakeStep(n, num, res, A, Q);
        assert Digits(num, res, P * P / 4) == Digits(num - (res + quarter), res / 2 + quarter, quarter / 4);
        DigitsRoot(n, num - (res + quarter), res / 2 + quarter, j - 1, Q, A + Q);
      } else {
        SkipStep(n, num, res, A, Q);
        assert Digits(num, res, P * P / 4) == Digits(num, res / 2, quarter / 4);
        DigitsRoot(n, num, res / 2, j - 1, Q, A);
      }
    }
  }

  /** At P = 1 the loop has stopped and the root is complete. */
  lemma LastDigit(n: int, num: int, res: int, P: int, A: int)
    requires P == Pow2(0) && A >= 0
    requires res == A * P && num == n - A * A && 0 <= num
    requires n < (A + P) * (A + P)
    ensures FloorRoot(n, Digits(num, res, P * P / 4))
  {
    assert P == 1 && P * P / 4 == 0;
    assert res == A;
  }

  /** P = 2^j with j > 0 is twice Q = 2^(j-1), and P^2 / 4 = Q^2 is a positive bit. */
  lemma HalvePower(j: nat, P: int) returns (Q: int)
    requires j > 0 && P == Pow2(j)
    ensures Q == Pow2(j - 1) && P == 2 * Q && Q >= 1
    ensures P * P / 4 == Q * Q > 0
  {
    Q := Pow2(j - 1);
    QuarterSquare(Q);
  }

  lemma QuarterSquare(Q: int)
    ensures (2 * Q) * (2 * Q) / 4 == Q * Q
  {
  }

  /** A digit of one: the root grows by Q. */
  lemma TakeStep(n: int, num: int, res: int, A: int, Q: int)
    requires res == A * (2 * Q) && num == n - A * A
    requires n < (A + 2 * Q) * (A + 2 * Q)
    ensures res / 2 + Q * Q == (A + Q) * Q
    ensures num - (res + Q * Q) == n - (A + Q) * (A + Q)
    ensures n < ((A + Q) + Q) * ((A + Q) + Q)
  {
    assert res == 2 * (A * Q);
    assert (A + Q) * (A + Q) == A * A + res + Q * Q;
  }

  /** A digit of zero: the root stays. */
  lemma SkipStep(n: int, num: int, res: int, A: int, Q: int)
    requires res == A * (2 * Q) && num == n - A * A
    requires num < res + Q * Q
    ensures res / 2 == A * Q
    ensures n < (A + Q) * (A + Q)
  {
    assert res == 2 * (A * Q);
    assert (A + Q) * (A + Q) == A * A + res + Q * Q;
  }

  /** The scan for the starting bit ends at P^2 / 4 for some P = 2^i with
      P^2 / 4 <= n < P^2: the highest power of four not above n. */
  lemma {:induction false} TopBitLevel(n: int, j: nat) returns (i: nat)
    requires 0 <= n < Pow2(j) * Pow2(j)
    ensures i <= j && Pow2(i) * Pow2(i) / 4 <= n < Pow2(i) * Pow2(i)
    ensures TopBit(n, Pow2(j) * Pow2(j) / 4) == Pow2(i) * Pow2(i) / 4
    decreases j
  {
    var P := Pow2(j);
    if P * P / 4 > n {
      assert j != 0;
      var Q := Pow2(j - 1);
      assert P == 2 * Q;
      QuarterSquare(Q);
      i := TopBitLevel(n, j - 1);
    } else {
      i := j;
    }
  }

  lemma StartBit()
    ensures Pow2(16) * Pow2(16) == TWO32
    ensures Pow2(16) * Pow2(16) / 4 == 0x4000_0000
  {
    Pow2Of32();
    Pow2Add(16, 16);
  }

  /** The scan and the first pass yield the integer square root of a non-negative int. */
  lemma FirstPassRoot(n: int)
    requires 0 <= n <= INT_MAX
    ensures FloorRoot(n, Digits(n, 0, TopBit(n, 0x4000_0000)))
  {
    StartBit();
    var i := TopBitLevel(n, 16);
    var P := Pow2(i);
    assert n == n - 0 * 0 && 0 == 0 * P && (0 + P) * (0 + P) == P * P;
    DigitsRoot(n, n, 0, i, P, 0);
  }

  /** After the first pass, the root is at most 46340 and the remainder at most 2R. */
  lemma FirstPassBounds(n: int)
    requires 0 <= n <= INT_MAX
    ensures var p := FirstPass(n); 0 <= p.result <= 46340 && 0 <= p.num <= 2 * p.result
  {
    var p := FirstPass(n);
    RootBounds(n, p.num, p.result);
  }

  lemma RootBounds(n: int, num: int, R: int)
    requires n <= INT_MAX && 0 <= R && R * R <= n < (R + 1) * (R + 1) && num == n - R * R
    ensures R <= 46340 && 0 <= num <= 2 * R
  {
    assert (R + 1) * (R + 1) == R * R + 2 * R + 1;
    if R > 46340 {
      SquareMonotone(46341, R);
      assert false;
    }
  }

  lemma SquareMonotone(x: int, y: int)
    requires 0 <= x <= y
    ensures x * x <= y * y
  {
    MulMonotone(x, y, x, y);
  }

  /** Rescaling by 2^10 keeps a floor root state for 1024 n at P = 32. */
  lemma SecondPassRoot(n: int)
    requires 0 <= n <= INT_MAX
    ensures FloorRoot(1024 * n, Digits(FirstPass(n).num * 1024, FirstPass(n).result * 1024, 256))
  {
    ScaledPass(n, FirstPass(n).num, FirstPass(n).result);
  }

  /** The second pass from a floor root state scaled by 2^10. */
  lemma ScaledPass(n: int, num: int, R: int)
    requires R >= 0 && num == n - R * R && 0 <= num && n < (R + 1) * (R + 1)
    ensures FloorRoot(1024 * n, Digits(num * 1024, R * 1024, 256))
  {
    Pow2Of5();
    ScaledRootState(n, num, R);
    assert 32 * 32 / 4 == 256;
    DigitsRoot(1024 * n, num * 1024, R * 1024, 5, 32, R * 32);
  }

  lemma Pow2Of5()
    ensures Pow2(5) == 32
  {
    assert Pow2(2) == 4;
  }

  lemma ScaledRootState(n: int, num: int, R: int)
    requires R >= 0 && num == n - R * R && n < (R + 1) * (R + 1)
    ensures R * 1024 == (R * 32) * 32
    ensures num * 1024 == 1024 * n - (R * 32) * (R * 32)
    ensures 1024 * n < (R * 32 + 32) * (R * 32 + 32)
  {
    assert (R * 32 + 32) * (R * 32 + 32) == 1024 * ((R + 1) * (R + 1));
  }

  /** Rounding the floor root up when the remainder exceeds it gives the nearest root. */
  lemma RoundUpIsNearest(N: int, p: Pass)
    requires FloorRoot(N, p)
    ensures IsNearestRoot(N, RoundAtNextBit(p))
  {
    assert (p.result + 1) * (p.result + 1) == p.result * p.result + 2 * p.result + 1;
  }

  /** When the first pass leaves a remainder of at most 2^10 - 1, the code as
      written takes the plain shift and agrees with the corrected one. */
  lemma AgreesOnSmallRemainder(n: int)
    requires FirstPass(n).num <= 1023
    ensures SqrtAsWritten(n) == SqrtCorrected(n)
  {
  }

  /** Below 2^18 the remainder of the first pass never exceeds 2^10 - 1. */
  lemma AsWrittenAgrees(n: int)
    requires 0 <= n < 0x4_0000
    ensures FirstPass(n).num <= 1023
    ensures SqrtAsWritten(n) == SqrtCorrected(n)
  {
    SmallRemainder(n);
    AgreesOnSmallRemainder(n);
  }

  lemma SmallRemainder(n: int)
    requires 0 <= n < 0x4_0000
    ensures FirstPass(n).num <= 1023
  {
    FirstPassBounds(n);
    SmallRoot(FirstPass(n).num, FirstPass(n).result, n);
  }

  lemma SmallRoot(num: int, R: int, n: int)
    requires n < 0x4_0000 && 0 <= R && R * R <= n && num <= 2 * R
    ensures num <= 1023
  {
    if R > 511 {
      SquareMonotone(512, R);
      assert false;
    }
  }

  /** `sqrt(fromInt(m * m)) == fromInt(m)`: the root of a whole square is exact,
      whatever its size. */
  lemma SqrtOfWholeSquare(m: int)
    requires 0 <= m && 1024 * (m * m) <= INT_MAX
    ensures SqrtAsWritten(1024 * (m * m)) == 1024 * m
  {
    ScaledSquare(m);
    PerfectFirstPass(1024 * (m * m), 32 * m);
    CorrectedOfSquare(1024 * (m * m), 1024 * m);
    AgreesOnSmallRemainder(1024 * (m * m));
  }

  lemma ScaledSquare(m: int)
    ensures (32 * m) * (32 * m) == 1024 * (m * m)
    ensures 1024 * (1024 * (m * m)) == (1024 * m) * (1024 * m)
  {
  }

  /** A perfect square leaves no remainder after the first pass. */
  lemma PerfectFirstPass(n: int, s: int)
    requires 0 <= s && s * s == n <= INT_MAX
    ensures FirstPass(n).num == 0
  {
    assert (s + 1) * (s + 1) == n + 2 * s + 1;
    FirstPassIs(n, s);
  }

  /** When 2^10 n is the square of r, the corrected root is r. */
  lemma CorrectedOfSquare(n: int, r: int)
    requires 0 <= n <= INT_MAX && 0 <= r && 1024 * n == r * r
    ensures SqrtCorrected(n) == r
  {
    ExactNearest(r);
    NearestUnique(1024 * n, SqrtCorrected(n), r);
  }

  /** The nearest root of a perfect square is its root. */
  lemma ExactNearest(r: int)
    requires r >= 0
    ensures IsNearestRoot(r * r, r)
  {
    assert (2 * r + 1) * (2 * r + 1) == 4 * (r * r) + 4 * r + 1;
    assert (2 * r - 1) * (2 * r - 1) == 4 * (r * r) - 4 * r + 1;
  }

  lemma FloorRootUnique(n: int, a: int, b: int)
    requires 0 <= a && a * a <= n < (a + 1) * (a + 1)
    requires 0 <= b && b * b <= n < (b + 1) * (b + 1)
    ensures a == b
  {
    if a < b {
      SquareMonotone(a + 1, b);
      assert false;
    } else if b < a {
      SquareMonotone(b + 1, a);
      assert false;
    }
  }

  /** The first pass is determined by the integer square root s of n. */
  lemma FirstPassIs(n: int, s: int)
    requires 0 <= n <= INT_MAX
    requires 0 <= s && s * s <= n < (s + 1) * (s + 1)
    ensures FirstPass(n) == Pass(n - s * s, s)
  {
    FloorRootUnique(n, FirstPass(n).result, s);
  }

  lemma NearestUnique(N: int, a: int, b: int)
    requires IsNearestRoot(N, a) && IsNearestRoot(N, b)
    ensures a == b
  {
    if a < b {
      SquareMonotone(2 * a + 1, 2 * b - 1);
      assert false;
    } else if b < a {
      SquareMonotone(2 * b + 1, 2 * a - 1);
      assert false;
    }
  }

  /** The first pass on raw 100001024 leaves root 10000 and remainder 1024. */
  lemma FindingFirstPass(n: int)
    requires n == 100001024
    ensures FirstPass(n) == Pass(1024, 10000)
  {
    FirstPassIs(n, 10000);
  }

  /** The hand-added half drives the remainder negative, so every later digit is zero. */
  lemma FindingSecondPass(num: int, res: int)
    requires num == -9191936 && res == 10240512
    ensures Digits(num, res, 256) == Pass(num, 320016)
  {
    assert Digits(num, res, 256) == Digits(num, 5120256, 64);
    assert Digits(num, 5120256, 64) == Digits(num, 2560128, 16);
    assert Digits(num, 2560128, 16) == Digits(num, 1280064, 4);
    assert Digits(num, 1280064, 4) == Digits(num, 640032, 1);
    assert Digits(num, 640032, 1) == Digits(num, 320016, 0);
  }

  /** Raw 100001024 (97657.25): the first pass leaves root 10000 and remainder
      1024. The branch fires (1024 > 1023) and forces the half digit, though the
      remainder is below the root and so the digit is 0. The code as written
      returns 320016 (312.515625) where the nearest root is 320002
      (312.501953125), which the corrected rescaling returns. */
  lemma SqrtRoundingFinding(n: int)
    requires n == 100001024
    ensures SqrtAsWritten(n) == 320016
    ensures !IsNearestRoot(1024 * n, 320016)
    ensures SqrtCorrected(n) == 320002
    ensures IsNearestRoot(1024 * n, 320002)
  {
    FindingFirstPass(n);
    assert Rescale(Pass(1024, 10000)) == Pass(-9191936, 10240512);
    FindingSecondPass(-9191936, 10240512);
    NearestUnique(1024 * n, SqrtCorrected(n), 320002);
  }

  /** Raw 296974 (about 290.01): the root 544 is below the remainder 1038, so
      the half digit the branch adds is right, but with HALF taken where a
      quarter is due the second pass computes the root of 2^10 raw - 2^8. The
      result is 17438 (17.029296875) where the nearest root of 2^10 raw is
      17439 (17.0302734375), as the corrected rescaling returns. */
  lemma SqrtQuarterFinding(n: int)
    requires n == 296974
    ensures SqrtAsWritten(n) == 17438
    ensures !IsNearestRoot(1024 * n, 17438)
    ensures SqrtCorrected(n) == 17439
    ensures IsNearestRoot(1024 * n, 17439)
  {
    QuarterFirstPass(n);
    RescaleBranch(Pass(1038, 544));
    AsWrittenUnfold(n);
    QuarterSecondPass(505344, 557568, 256);
    NearestUnique(1024 * n, SqrtCorrected(n), 17439);
  }

  /** The first pass on raw 296974 leaves root 544 and remainder 1038. */
  lemma QuarterFirstPass(n: int)
    requires n == 296974
    ensures FirstPass(n) == Pass(1038, 544)
  {
    FirstPassIs(n, 544);
  }

  /** The rescaled state 505344, 557568 is the state of root 17424 = 32 * 544 + 16
      for 304101120 = 2^10 * 296974 - 2^8, so the digits give its floor root. */
  lemma QuarterSecondPass(num: int, res: int, bit: nat)
    requires num == 505344 && res == 557568 && bit == 256
    ensures Digits(num, res, bit) == Pass(17276, 17438)
  {
    DigitsFrom(304101120, num, res, 17424, bit, 17438);
  }

  /** The second pass, from root A (a multiple of 32) in res = 32 A and the
      remainder N - A^2, ends in the state of the integer square root s of N. */
  lemma DigitsFrom(N: int, num: int, res: int, A: int, bit: nat, s: int)
    requires A >= 0 && res == A * 32 && num == N - A * A && 0 <= num
    requires N < (A + 32) * (A + 32) && bit == 256
    requires 0 <= s && s * s <= N < (s + 1) * (s + 1)
    ensures Digits(num, res, bit) == Pass(N - s * s, s)
  {
    RootFrom(N, num, res, A, bit);
    var p := Digits(num, res, bit);
    FloorRootUnique(N, p.result, s);
  }

  lemma AsWrittenUnfold(n: int)
    ensures SqrtAsWritten(n) == RoundAtNextBit(Digits(Rescale(FirstPass(n)).num, Rescale(FirstPass(n)).result, 256))
  {
  }

  lemma RescaleBranch(p: Pass)
    requires p.num > 1023
    ensures Rescale(p) == Pass((p.num - p.result) * 1024 - 512, p.result * 1024 + 512)
  {
  }

  /** The second pass, from root A (a multiple of 32) in res = 32 A and the
      remainder N - A^2, yields the floor root of N. */
  lemma RootFrom(N: int, num: int, res: int, A: int, bit: nat)
    requires A >= 0 && res == A * 32 && num == N - A * A && 0 <= num
    requires N < (A + 32) * (A + 32) && bit == 256
    ensures FloorRoot(N, Digits(num, res, bit))
  {
    Pow2Of5();
    assert 32 * 32 / 4 == 256;
    DigitsRoot(N, num, res, 5, 32, A);
  }

  /*
   * The method over Java ints
   */

  /** The bounds the digit loop keeps below a cap of at most INT_MAX: no sum
      or difference it forms leaves the int range. */
  ghost predicate InRange(num: int, result: int, bit: int, cap: int)
  {
    cap <= INT_MAX && -0x4000_0000 <= num <= INT_MAX && 0 <= result && 0 <= bit
    && result + bit <= cap && 3 * bit <= 2 * cap
  }

  /** One digit of one over Java ints. */
  lemma TakeJava(num: int32, result: int32, bit: int32, cap: int)
    requires InRange(num, result, bit, cap) && bit >= 1 && num >= result + bit
    ensures AddInt(result, bit) == result + bit
    ensures SubInt(num, AddInt(result, bit)) == num - (result + bit)
    ensures AddInt(Ushr(result, 1), bit) == result / 2 + bit
    ensures Ushr(bit, 2) == bit / 4
    ensures InRange(num - (result + bit), result / 2 + bit, bit / 4, cap)
    ensures Digits(num - (result + bit), result / 2 + bit, bit / 4) == Digits(num, result, bit)
  {
    Halve(result);
    Quarter(bit);
  }

  /** One digit of zero over Java ints. */
  lemma SkipJava(num: int32, result: int32, bit: int32, cap: int)
    requires InRange(num, result, bit, cap) && bit >= 1 && num < result + bit
    ensures AddInt(result, bit) == result + bit
    ensures Ushr(result, 1) == result / 2
    ensures Ushr(bit, 2) == bit / 4
    ensures InRange(num, result / 2, bit / 4, cap)
    ensures Digits(num, result / 2, bit / 4) == Digits(num, result, bit)
  {
    Halve(result);
    Quarter(bit);
  }

  lemma Halve(a: int32)
    requires a >= 0
    ensures Ushr(a, 1) == a / 2
  {
    UshrNonNeg(a, 1);
    assert Pow2(1) == 2;
  }

  lemma Quarter(a: int32)
    requires a >= 0
    ensures Ushr(a, 2) == a / 4
  {
    UshrNonNeg(a, 2);
    assert Pow2(2) == 4;
  }

  /** `1 << (BITS - 2)`, `(1 << DECIMAL_BITS) - 1` and `1 << (DECIMAL_BITS - 2)`. */
  lemma SqrtConstants()
    ensures Shl(1, BITS - 2) == 0x4000_0000
    ensures SubInt(Shl(1, DECIMAL_BITS), 1) == 1023
    ensures Shl(1, DECIMAL_BITS - 2) == 256
  {
    assert (BITS - 2) % 32 == 30;
    Pow2Of32();
    assert Pow2(31) == 2 * Pow2(30);
    OneConstant();
    assert (DECIMAL_BITS - 2) % 32 == 8;
    assert Pow2(8) == 256;
  }

  /** `x << DECIMAL_BITS` for a value that does not overflow. */
  lemma ShlDecimal(a: int32)
    requires -0x20_0000 <= a < 0x20_0000
    ensures Shl(a, DECIMAL_BITS) == a * 1024
  {
    assert DECIMAL_BITS % 32 == 10;
    assert Pow2(10) == 1024;
  }

  /** The step between the passes over Java ints: no shift overflows, and the
      second pass starts within a cap of 2^26. */
  lemma RescaleJava(num: int32, result: int32)
    requires 0 <= result <= 46340 && 0 <= num <= 2 * result
    ensures SubInt(num, result) == num - result
    ensures SubInt(Shl(SubInt(num, result), DECIMAL_BITS), HALF) == (num - result) * 1024 - 512
    ensures AddInt(Shl(result, DECIMAL_BITS), HALF) == result * 1024 + 512
    ensures Shl(num, DECIMAL_BITS) == num * 1024 && Shl(result, DECIMAL_BITS) == result * 1024
    ensures var p := Rescale(Pass(num, result)); InRange(p.num, p.result, 256, 0x400_0000)
  {
    ScaleConstants();
    ShlDecimal(SubInt(num, result));
    ShlDecimal(result);
    ShlDecimal(num);
  }

  /** The inner `while (bit != 0)` loop of `sqrt` over Java ints. */
  method DigitLoop(num0: int32, result0: int32, bit0: int32, ghost cap: int)
    returns (num: int32, result: int32)
    requires InRange(num0, result0, bit0, cap)
    ensures Pass(num, result) == Digits(num0, result0, bit0)
    ensures -0x4000_0000 <= num && 0 <= result <= cap
  {
    num, result := num0, result0;
    var bit := bit0;
    while bit != 0
      invariant InRange(num, result, bit, cap)
      invariant Digits(num, result, bit) == Digits(num0, result0, bit0)
      decreases bit
    {
      if num >= AddInt(result, bit) {
        TakeJava(num, result, bit, cap);
        num := SubInt(num, AddInt(result, bit));
        result := AddInt(Ushr(result, 1), bit);
      } else {
        SkipJava(num, result, bit, cap);
        result := Ushr(result, 1);
      }
      bit := Ushr(bit, 2);
    }
  }

  /** `Fixed.sqrt(x)`: ArithmeticException for a negative x, otherwise the
      digit-by-digit root with ten fractional bits. */
  method Sqrt(x: Fixed) returns (r: Result<Fixed>)
    ensures r.Err? <==> x.data < 0
    ensures r.Err? ==> r.error == SqrtOfNegative
    ensures r.Ok? ==> r.value.data as int == SqrtAsWritten(x.data)
    ensures r.Ok? && x.data < 0x4_0000 ==> IsNearestRoot(1024 * x.data, r.value.data)
  {
    var xl := x.data;
    if xl < 0 {
      return Err(SqrtOfNegative);
    }
    SqrtConstants();

    var num: int32 := xl;
    var result: int32 := 0;

    // second-highest bit
    var bit: int32 := Shl(1, BITS - 2);
    while bit > num
      invariant 0 <= bit <= 0x4000_0000
      invariant TopBit(num, bit) == TopBit(xl, 0x4000_0000)
      decreases bit
    {
      Quarter(bit);
      bit := Ushr(bit, 2);
    }

    FirstPassBounds(xl);
    RescaleJava(FirstPass(xl).num as int32, FirstPass(xl).result as int32);
    ghost var second := Rescale(FirstPass(xl));
    for i := 0 to 2
      invariant i == 0 ==> num == xl && result == 0 && bit == TopBit(xl, 0x4000_0000)
      invariant i == 1 ==> num == second.num && result == second.result && bit == 256
      invariant i == 2 ==> Pass(num, result) == Digits(second.num, second.result, 256)
      invariant i == 2 ==> 0 <= result <= 0x400_0000
    {
      num, result := DigitLoop(num, result, bit, if i == 0 then INT_MAX else 0x400_0000);
      bit := 0;
      if i == 0 {
        if num > SubInt(Shl(1, DECIMAL_BITS), 1) {
          num := SubInt(num, result);
          num := SubInt(Shl(num, DECIMAL_BITS), HALF);
          result := AddInt(Shl(result, DECIMAL_BITS), HALF);
        } else {
          num := Shl(num, DECIMAL_BITS);
          result := Shl(result, DECIMAL_BITS);
        }
        bit := Shl(1, DECIMAL_BITS - 2);
      }
    }

    // Round up when the next bit would have been set
    if num > result {
      result := AddInt(result, 1);
    }
    return Ok(Fixed(result));
  }
}

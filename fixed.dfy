/**
 * The value type `Fixed`: an immutable 32-bit two's-complement number whose
 * raw store is scaled by 2^DECIMAL_BITS, with its straight-line operators:
 * sign and absolute value, wrapping add/sub/mul/mod/negate, comparisons,
 * saturating add/sub, and the integer conversions.
 */
module FixedPoint {
  import opened JavaInt

  const BITS: nat := 32
  /** Fractional bits; at most BITS / 2 for Mul, and even for sqrt. */
  const DECIMAL_BITS: nat := 10
  /** `-1 >>> (BITS - DECIMAL_BITS)`: the low DECIMAL_BITS bits set. */
  const DECIMAL_MASK: int32 := Ushr(-1, BITS - DECIMAL_BITS)
  const FULL_MASK: int32 := -1

  const ONE: int32 := Shl(1, DECIMAL_BITS)
  const TWO: int32 := Shl(1, DECIMAL_BITS + 1)
  const HALF: int32 := Shl(1, DECIMAL_BITS - 1)

  lemma Constants()
    ensures DECIMAL_MASK == 1023 && ONE == 1024 && TWO == 2048 && HALF == 512
  {
    MaskConstant();
    ScaleConstants();
  }

  lemma ScaleConstants()
    ensures ONE == 1024 && TWO == 2048 && HALF == 512
  {
    OneConstant();
    TwoConstant();
    HalfConstant();
  }

  lemma OneConstant()
    ensures ONE == 1024
  {
    assert DECIMAL_BITS % 32 == 10;
    assert Pow2(10) == 1024;
  }

  lemma TwoConstant()
    ensures TWO == 2048
  {
    assert (DECIMAL_BITS + 1) % 32 == 11;
    assert Pow2(11) == 2048;
  }

  lemma HalfConstant()
    ensures HALF == 512
  {
    assert (DECIMAL_BITS - 1) % 32 == 9;
    assert Pow2(9) == 512;
  }

  lemma MaskConstant()
    ensures DECIMAL_MASK == 1023
  {
    Pow2Of22();
    assert (BITS - DECIMAL_BITS) % 32 == 22;
    assert Unsigned(-1) == TWO32 - 1;
    DivModUnique(TWO32 - 1, 0x40_0000, 1023, 0x3F_FFFF);
    assert Unsigned(DECIMAL_MASK) == 1023;
  }

  lemma Pow2Of22()
    ensures Pow2(22) == 0x40_0000
  {
    assert Pow2(11) == 2048;
    Pow2Add(11, 11);
  }

  /** A fixed-point number; its value is data / 2^DECIMAL_BITS. */
  datatype Fixed = Fixed(data: int32)

  /** The rational number a Fixed stands for. */
  function Value(x: Fixed): real
  {
    x.data as real / 1024.0
  }

  const MaxValue: Fixed := Fixed(INT_MAX)
  const MinValue: Fixed := Fixed(INT_MIN)
  const Zero: Fixed := Fixed(0)
  const One: Fixed := Fixed(ONE)
  const Two: Fixed := Fixed(TWO)
  const Half: Fixed := Fixed(HALF)
  const Precision: Fixed := Fixed(1)

  /** The Java exceptions the core throws, both ArithmeticException. */
  datatype Failure = DivideByZero | SqrtOfNegative

  datatype Result<T> = Ok(value: T) | Err(error: Failure)

  /** Clamps an exact integer into the int range. */
  function Clamp(v: int): int32
  {
    if v > INT_MAX then INT_MAX else if v < INT_MIN then INT_MIN else v
  }

  /*
   * Sign and absolute value
   */

  function Sign(x: Fixed): (r: int)
    ensures -1 <= r <= 1
    ensures (r < 0) == (Value(x) < 0.0) && (r > 0) == (Value(x) > 0.0)
  {
    if x.data < 0 then -1 else if x.data > 0 then 1 else 0
  }

  /** The arithmetic-shift sign mask: 0 for a non-negative word, -1 for a negative one. */
  lemma SignMask(a: int32)
    ensures Sar(a, BITS - 1) == if a < 0 then -1 else 0
  {
    Pow2Of32();
  }

  /** Branchless absolute value `(x + mask) ^ mask`; MIN_VALUE overflows back to itself. */
  function Abs(x: Fixed): (r: Fixed)
    ensures x.data != INT_MIN ==> r.data as int == Magnitude(x.data)
    ensures x.data == INT_MIN ==> r == x
  {
    var mask := Sar(x.data, BITS - 1);
    AbsByMask(x.data, mask);
    Fixed(Xor(AddInt(x.data, mask), mask))
  }

  lemma AbsByMask(a: int32, mask: int32)
    requires mask == Sar(a, BITS - 1)
    ensures a != INT_MIN ==> Xor(AddInt(a, mask), mask) as int == Magnitude(a)
    ensures a == INT_MIN ==> Xor(AddInt(a, mask), mask) == a
  {
    SignMask(a);
    if a >= 0 {
      assert AddInt(a, mask) == a;
      XorWithZero(a);
    } else {
      var s := AddInt(a, mask);
      assert s == if a == INT_MIN then INT_MAX else a - 1;
      XorMinusOne(s);
    }
  }

  /** Absolute value that maps MIN_VALUE to MAX_VALUE instead of overflowing. */
  function SafeAbs(x: Fixed): (r: Fixed)
    ensures r.data >= 0
    ensures r.data == Clamp(Magnitude(x.data))
  {
    if x.data == INT_MIN then MaxValue
    else Abs(x)
  }

  lemma {:induction false} SignTimesAbs(x: Fixed)
    requires x.data != INT_MIN
    ensures Sign(x) * Abs(x).data == x.data
  {
    var s, m := Sign(x), Abs(x).data as int;
    assert m == Magnitude(x.data);
    if x.data < 0 {
      assert s == -1;
      NegOneTimes(m);
    } else if x.data == 0 {
      assert s * m == 0;
    } else {
      assert s == 1;
    }
  }

  lemma NegOneTimes(m: int)
    ensures -1 * m == -m
  {
  }

  /*
   * Wrapping operators
   */

  function Add(x: Fixed, y: Fixed): (r: Fixed)
    ensures (r.data - (x.data as int + y.data)) % TWO32 == 0
    ensures INT_MIN <= x.data as int + y.data <= INT_MAX ==> Value(r) == Value(x) + Value(y)
  {
    Fixed(AddInt(x.data, y.data))
  }

  function Sub(x: Fixed, y: Fixed): (r: Fixed)
    ensures (r.data - (x.data as int - y.data)) % TWO32 == 0
    ensures INT_MIN <= x.data as int - y.data <= INT_MAX ==> Value(r) == Value(x) - Value(y)
  {
    Fixed(SubInt(x.data, y.data))
  }

  function Negate(x: Fixed): (r: Fixed)
    ensures x.data != INT_MIN ==> Value(r) == -Value(x)
    ensures x.data == INT_MIN ==> r == x
  {
    Fixed(NegInt(x.data))
  }

  /** Truncating remainder of the raw stores; a zero divisor throws. */
  function Mod(x: Fixed, y: Fixed): (r: Result<Fixed>)
    ensures r.Err? <==> y.data == 0
    ensures r.Err? ==> r.error == DivideByZero
    ensures r.Ok? ==> x.data as int == y.data * TruncDiv(x.data, y.data) + r.value.data
    ensures r.Ok? ==> Magnitude(r.value.data) < Magnitude(y.data)
    ensures r.Ok? ==> (x.data >= 0 ==> r.value.data >= 0) && (x.data <= 0 ==> r.value.data <= 0)
  {
    if y.data == 0 then Err(DivideByZero)
    else
      TruncDivRem(x.data, y.data);
      Ok(Fixed(Rem(x.data, y.data)))
  }

  /*
   * Half-split multiplication
   */

  lemma SplitRaw(a: int32)
    ensures And(a, DECIMAL_MASK) == a % 1024
    ensures Sar(a, DECIMAL_BITS) == a / 1024
    ensures -0x20_0000 <= a / 1024 < 0x20_0000
  {
    LowBits(a);
    HighBits(a);
  }

  lemma LowBits(a: int32)
    ensures And(a, DECIMAL_MASK) == a % 1024
  {
    MaskConstant();
    assert Pow2(10) == 1024;
    AndLow(a, 10);
  }

  lemma HighBits(a: int32)
    ensures Sar(a, DECIMAL_BITS) == a / 1024
  {
    var q := Sar(a, DECIMAL_BITS);
    assert Pow2(10) == 1024;
    assert 1024 * q <= a < 1024 * q + 1024;
    DivModUnique(a, 1024, q, a - 1024 * q);
  }

  lemma ProductBound(a: int, b: int, bound: int)
    requires 0 <= a < 1024 && -0x20_0000 <= b < 0x20_0000 && bound == 0x8000_0000
    ensures -bound < a * b < bound
  {
    if b >= 0 {
      MulMonotone(a, 1023, b, b);
    } else {
      MulMonotone(a, 1023, -b, -b);
    }
  }

  lemma LowProduct(a: int, b: int)
    requires 0 <= a < 1024 && 0 <= b < 1024
    ensures 0 <= a * b < 0x10_0000
  {
    MulMonotone(a, 1023, b, b);
  }

  /** The floored scaled product in terms of the operands' halves. */
  lemma ProductOfHalves(a: int, b: int, xh: int, xl: int, yh: int, yl: int)
    requires 0 <= xl < 1024 && 0 <= yl < 1024
    requires a == 1024 * xh + xl && b == 1024 * yh + yl
    ensures (a * b) / 1024 == (xl * yl) / 1024 + xl * yh + xh * yl + xh * yh * 1024
  {
    var c := xl * yh + xh * yl + xh * yh * 1024;
    assert a * b == xl * yl + 1024 * c;
    ModAddMultiple(xl * yl, 1024, c);
  }

  /** `x.mul(y)`: four partial products of the 10-bit halves, summed with wrap-around.
      The result is the floor of x * y / 2^10, modulo 2^32. */
  function Mul(x: Fixed, y: Fixed): (r: Fixed)
    ensures r.data == Wrap((x.data as int * y.data) / 1024)
  {
    var xl, yl := x.data, y.data;

    var xlo := And(xl, DECIMAL_MASK);
    var xhi := Sar(xl, DECIMAL_BITS);
    var ylo := And(yl, DECIMAL_MASK);
    var yhi := Sar(yl, DECIMAL_BITS);

    var lolo := MulInt(xlo, ylo);
    var lohi := MulInt(xlo, yhi);
    var hilo := MulInt(xhi, ylo);
    var hihi := MulInt(xhi, yhi);

    var loResult := Ushr(lolo, DECIMAL_BITS);
    var midResult1 := lohi;
    var midResult2 := hilo;
    var hiResult := Shl(hihi, DECIMAL_BITS);

    var sum := AddInt(AddInt(AddInt(loResult, midResult1), midResult2), hiResult);
    MulIsFlooredProduct(xl, yl, xlo, xhi, ylo, yhi, loResult, midResult1, midResult2, hiResult, sum);
    Fixed(sum)
  }

  lemma MulIsFlooredProduct(xl: int32, yl: int32, xlo: int32, xhi: int32, ylo: int32, yhi: int32,
                            loResult: int32, mid1: int32, mid2: int32, hiResult: int32, sum: int32)
    requires xlo == And(xl, DECIMAL_MASK) && xhi == Sar(xl, DECIMAL_BITS)
    requires ylo == And(yl, DECIMAL_MASK) && yhi == Sar(yl, DECIMAL_BITS)
    requires loResult == Ushr(MulInt(xlo, ylo), DECIMAL_BITS)
    requires mid1 == MulInt(xlo, yhi) && mid2 == MulInt(xhi, ylo)
    requires hiResult == Shl(MulInt(xhi, yhi), DECIMAL_BITS)
    requires sum == AddInt(AddInt(AddInt(loResult, mid1), mid2), hiResult)
    ensures sum == Wrap((xl as int * yl) / 1024)
  {
    SplitRaw(xl);
    SplitRaw(yl);
    PartialProducts(xlo, xhi, ylo, yhi);
    assert loResult == (xlo as int * ylo) / 1024 && hiResult == Wrap(xhi as int * yhi * 1024) by {
      Pow2Of32();
      WrapMul(xhi as int * yhi, 1024);
    }
    HalvesSum(xl, yl, xlo, xhi, ylo, yhi, loResult, mid1, mid2, hiResult, sum);
  }

  /** The arithmetic behind Mul once the halves and partial products are known. */
  lemma HalvesSum(xl: int32, yl: int32, xlo: int32, xhi: int32, ylo: int32, yhi: int32,
                  loResult: int32, mid1: int32, mid2: int32, hiResult: int32, sum: int32)
    requires 0 <= xlo < 1024 && 0 <= ylo < 1024
    requires xl == 1024 * xhi + xlo && yl == 1024 * yhi + ylo
    requires loResult == (xlo as int * ylo) / 1024
    requires mid1 == xlo as int * yhi && mid2 == xhi as int * ylo
    requires hiResult == Wrap(xhi as int * yhi * 1024)
    requires sum == AddInt(AddInt(AddInt(loResult, mid1), mid2), hiResult)
    ensures sum == Wrap((xl as int * yl) / 1024)
  {
    AddChain(loResult, mid1, mid2, xhi as int * yhi * 1024);
    ProductOfHalves(xl, yl, xhi, xlo, yhi, ylo);
  }

  /** Ranges of the four partial products; the three that involve a low half do not wrap. */
  lemma PartialProducts(xlo: int32, xhi: int32, ylo: int32, yhi: int32)
    requires 0 <= xlo < 1024 && 0 <= ylo < 1024
    requires -0x20_0000 <= xhi < 0x20_0000 && -0x20_0000 <= yhi < 0x20_0000
    ensures 0 <= xlo as int * ylo < 0x10_0000 && MulInt(xlo, ylo) == xlo as int * ylo
    ensures MulInt(xlo, yhi) == xlo as int * yhi && MulInt(xhi, ylo) == xhi as int * ylo
  {
    LowProduct(xlo, ylo);
    ProductBound(xlo, yhi, TWO31);
    ProductBound(ylo, xhi, TWO31);
    assert xhi as int * ylo == ylo as int * xhi;
  }

  /** Two wrapping additions, grouped either way, wrap the exact total. */
  lemma WrapAdd3(a: int32, b: int32, c: int32)
    ensures AddInt(AddInt(a, b), c) == Wrap(a as int + b + c)
    ensures AddInt(a, AddInt(b, c)) == Wrap(a as int + b + c)
  {
    AddGrouped(a, b, c);
    AddGrouped(b, c, a);
  }

  /** A wrapping addition followed by another wraps the exact total. */
  lemma AddGrouped(a: int32, b: int32, c: int32)
    ensures AddInt(AddInt(a, b), c) == Wrap(a as int + b + c)
    ensures AddInt(c, AddInt(a, b)) == Wrap(a as int + b + c)
  {
    WrapAdd(a as int + b, c);
  }

  /** Three wrapping additions sum to the wrapped exact total. */
  lemma AddChain(a: int32, b: int32, c: int32, d: int)
    ensures AddInt(AddInt(AddInt(a, b), c), Wrap(d)) == Wrap(a as int + b + c + d)
  {
    var s2 := AddInt(AddInt(a, b), c);
    assert s2 == Wrap(a as int + b + c) by {
      WrapAdd(a as int + b, c);
    }
    assert AddInt(s2, Wrap(d)) == Wrap(d + s2) by {
      WrapAdd(d, s2);
    }
    WrapAdd(a as int + b + c, d);
  }

  /*
   * Comparisons
   */

  function LessThan(x: Fixed, y: Fixed): (r: bool)
    ensures r == (Value(x) < Value(y))
  {
    x.data < y.data
  }

  function MoreThan(x: Fixed, y: Fixed): (r: bool)
    ensures r == (Value(x) > Value(y))
  {
    x.data > y.data
  }

  function LessThanOrEquals(x: Fixed, y: Fixed): (r: bool)
    ensures r == (Value(x) <= Value(y))
  {
    x.data <= y.data
  }

  function MoreThanOrEquals(x: Fixed, y: Fixed): (r: bool)
    ensures r == (Value(x) >= Value(y))
  {
    x.data >= y.data
  }

  function Equals(x: Fixed, y: Fixed): (r: bool)
    ensures r == (x == y)
    ensures r == (Value(x) == Value(y))
  {
    x.data == y.data
  }

  /*
   * Saturating operators
   */

  /** Addition that clamps to [MIN_VALUE, MAX_VALUE]; overflow is read off the sign bits. */
  function SafeAdd(x: Fixed, y: Fixed): (r: Fixed)
    ensures r.data == Clamp(x.data as int + y.data)
    ensures INT_MIN <= x.data as int + y.data <= INT_MAX ==> r == Add(x, y)
  {
    var xl, yl := x.data, y.data;
    var sum := AddInt(xl, yl);
    var overflow := And(And(Not(Xor(xl, yl)), Xor(xl, sum)), INT_MIN) != 0;
    OverflowOnAdd(xl, yl, sum);
    Fixed(if overflow then (if xl > 0 then INT_MAX else INT_MIN) else sum)
  }

  lemma OverflowOnAdd(xl: int32, yl: int32, sum: int32)
    requires sum == AddInt(xl, yl)
    ensures (And(And(Not(Xor(xl, yl)), Xor(xl, sum)), INT_MIN) != 0)
        == !(INT_MIN <= xl as int + yl <= INT_MAX)
  {
    var t := And(Not(Xor(xl, yl)), Xor(xl, sum));
    AndMin(t);
    AndSign(Not(Xor(xl, yl)), Xor(xl, sum));
    XorSign(xl, yl);
    XorSign(xl, sum);
    AddOverflowSigns(xl, yl);
  }

  /** A sum overflows exactly when the operands share a sign that the wrapped sum lacks. */
  lemma AddOverflowSigns(xl: int32, yl: int32)
    ensures ((xl < 0) == (yl < 0) && (xl < 0) != (AddInt(xl, yl) < 0))
        == !(INT_MIN <= xl as int + yl <= INT_MAX)
  {
    var s := xl as int + yl;
    if s > INT_MAX {
      WrapAbove(s);
    } else if s < INT_MIN {
      WrapBelow(s);
    }
  }

  /** Subtraction that clamps to [MIN_VALUE, MAX_VALUE]. */
  function SafeSub(x: Fixed, y: Fixed): (r: Fixed)
    ensures r.data == Clamp(x.data as int - y.data)
    ensures INT_MIN <= x.data as int - y.data <= INT_MAX ==> r == Sub(x, y)
  {
    var xl, yl := x.data, y.data;
    var sub := SubInt(xl, yl);
    var overflow := And(And(Xor(xl, yl), Xor(xl, sub)), INT_MIN) != 0;
    OverflowOnSub(xl, yl, sub);
    Fixed(if overflow then (if xl < 0 then INT_MIN else INT_MAX) else sub)
  }

  lemma OverflowOnSub(xl: int32, yl: int32, sub: int32)
    requires sub == SubInt(xl, yl)
    ensures (And(And(Xor(xl, yl), Xor(xl, sub)), INT_MIN) != 0)
        == !(INT_MIN <= xl as int - yl <= INT_MAX)
  {
    var t := And(Xor(xl, yl), Xor(xl, sub));
    AndMin(t);
    AndSign(Xor(xl, yl), Xor(xl, sub));
    XorSign(xl, yl);
    XorSign(xl, sub);
    SubOverflowSigns(xl, yl);
  }

  /** A difference overflows exactly when the operands' signs differ and the wrapped
      difference lacks the minuend's sign. */
  lemma SubOverflowSigns(xl: int32, yl: int32)
    ensures ((xl < 0) != (yl < 0) && (xl < 0) != (SubInt(xl, yl) < 0))
        == !(INT_MIN <= xl as int - yl <= INT_MAX)
  {
    var s := xl as int - yl;
    if s > INT_MAX {
      WrapAbove(s);
    } else if s < INT_MIN {
      WrapBelow(s);
    }
  }

  /*
   * Integer conversions
   */

  function FromData(d: int32): (r: Fixed)
    ensures Value(r) == d as real / 1024.0
  {
    Fixed(d)
  }

  function DataValue(x: Fixed): (d: int32)
    ensures d as real == Value(x) * 1024.0
  {
    x.data
  }

  /** `value * ONE` on `int`: wraps unless |value| < 2^21. */
  function FromInt(n: int32): (r: Fixed)
    ensures r.data == Wrap(n as int * 1024)
    ensures r.data % 1024 == 0
    ensures -0x20_0000 <= n < 0x20_0000 ==> Value(r) == n as real
  {
    ScaleConstants();
    WrapKeepsScale(n);
    Fixed(MulInt(n, ONE))
  }

  /** Wrapping a multiple of 2^10 leaves a multiple of 2^10. */
  lemma WrapKeepsScale(n: int)
    ensures Wrap(n * 1024) % 1024 == 0
  {
    var k := (n * 1024 + TWO31) / TWO32;
    assert Wrap(n * 1024) == 1024 * (n - 0x40_0000 * k);
    ModAddMultiple(0, 1024, n - 0x40_0000 * k);
  }

  /** `(int) value * ONE`: the long is truncated to an int before it is scaled. */
  function FromLong(v: int64): (r: Fixed)
    ensures r.data == Wrap(v as int * 1024)
  {
    Constants();
    WrapMul(v, 1024);
    Fixed(MulInt(Wrap(v), ONE))
  }

  /** `_data >> DECIMAL_BITS`: the floor of the value. */
  function IntValue(x: Fixed): (n: int32)
    ensures 1024 * n <= x.data < 1024 * n + 1024
    ensures n as real <= Value(x) < n as real + 1.0
  {
    Pow2Of32();
    Sar(x.data, DECIMAL_BITS)
  }

  /*
   * Properties relating the operators
   */

  lemma {:induction false} AddNegateIsZero(x: Fixed)
    ensures Add(x, Negate(x)) == Zero
  {
    WrapAdd(-(x.data as int), x.data);
  }

  lemma {:induction false} SubIsAddNegate(x: Fixed, y: Fixed)
    ensures Sub(x, y) == Add(x, Negate(y))
  {
    WrapAdd(-(y.data as int), x.data);
  }

  lemma {:induction false} NegateTwiceIsIdentity(x: Fixed)
    ensures Negate(Negate(x)) == x
  {
    WrapMul(-(x.data as int), -1);
  }

  lemma {:induction false} AddThenSubIsIdentity(x: Fixed, y: Fixed)
    ensures Sub(Add(x, y), y) == x
  {
    WrapAdd(x.data as int + y.data, -(y.data as int));
  }

  lemma {:induction false} AddCommutes(x: Fixed, y: Fixed)
    ensures Add(x, y) == Add(y, x)
  {
  }

  lemma {:induction false} AddAssociates(x: Fixed, y: Fixed, z: Fixed)
    ensures Add(Add(x, y), z) == Add(x, Add(y, z))
  {
    WrapAdd3(x.data, y.data, z.data);
  }

  /** Adding the same c preserves the order when neither sum overflows. */
  lemma {:induction false} AddMonotone(a: Fixed, b: Fixed, c: Fixed)
    requires LessThan(a, b)
    requires INT_MIN <= a.data as int + c.data <= INT_MAX
    requires INT_MIN <= b.data as int + c.data <= INT_MAX
    ensures LessThan(Add(a, c), Add(b, c))
  {
  }

  lemma {:induction false} MulByOne(x: Fixed)
    ensures Mul(x, One) == x && Mul(One, x) == x
  {
    ScaleConstants();
    var a := x.data as int;
    DivModUnique(a * 1024, 1024, a, 0);
    assert Mul(x, One).data == Wrap(a * 1024 / 1024);
    assert Mul(One, x).data == Wrap(1024 * a / 1024);
  }

  lemma {:induction false} MulCommutes(x: Fixed, y: Fixed)
    ensures Mul(x, y) == Mul(y, x)
  {
  }

  /** Mul is exact whenever the floored product fits the raw store. */
  lemma {:induction false} MulExactInRange(x: Fixed, y: Fixed)
    requires INT_MIN <= (x.data as int * y.data) / 1024 <= INT_MAX
    ensures Mul(x, y).data == (x.data as int * y.data) / 1024
  {
  }

  lemma {:induction false} SafeAddSaturates()
    ensures SafeAdd(MaxValue, One) == MaxValue
    ensures SafeSub(MinValue, One) == MinValue
    ensures SafeSub(Zero, MinValue) == MaxValue
  {
    Constants();
  }

  /** intValue(fromInt(n)) == n exactly for the 22-bit ints that scale without wrapping. */
  lemma {:induction false} IntValueOfFromInt(n: int32)
    ensures (IntValue(FromInt(n)) == n) == (-0x20_0000 <= n < 0x20_0000)
  {
    var r := FromInt(n);
    var m := IntValue(r);
    assert -0x20_0000 <= m < 0x20_0000;
    if -0x20_0000 <= n < 0x20_0000 {
      assert r.data == n * 1024;
    }
  }

  /** fromLong(v) is fromInt((int) v). */
  lemma {:induction false} FromLongCastsFirst(v: int64)
    ensures FromLong(v) == FromInt(Wrap(v))
  {
    WrapMul(v, 1024);
  }
}

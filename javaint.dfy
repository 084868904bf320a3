/**
 * Java's 32-bit `int` and 64-bit `long` arithmetic, written out on Dafny's
 * unbounded integers: two's-complement wrap-around, the three shift
 * operators (shift counts taken modulo 32), truncating division and
 * remainder, and the bitwise operators `&`, `^` and `~`.
 */
module JavaInt {

  /*
   * Integer facts used throughout.
   */

  /** 2^n */
  function Pow2(n: nat): (r: nat)
    ensures r >= 1
  {
    if n == 0 then 1 else 2 * Pow2(n - 1)
  }

  lemma {:induction false} Pow2Add(m: nat, n: nat)
    ensures Pow2(m + n) == Pow2(m) * Pow2(n)
    decreases n
  {
    if n > 0 {
      Pow2Add(m, n - 1);
      assert Pow2(m + n) == 2 * Pow2(m + n - 1);
    }
  }

  lemma {:induction false} Pow2Monotone(m: nat, n: nat)
    requires m <= n
    ensures Pow2(m) <= Pow2(n)
    decreases n
  {
    if m < n {
      Pow2Monotone(m, n - 1);
    }
  }

  lemma Pow2Of32()
    ensures Pow2(10) == 1024 && Pow2(31) == TWO31 && Pow2(32) == TWO32
  {
    assert Pow2(16) == 0x1_0000;
    assert Pow2(15) == 0x8000;
    Pow2Add(16, 15);
    Pow2Add(16, 16);
  }

  /** Powers of two are ordered like their exponents. */
  lemma Pow2Below(k: nat, m: nat, v: int)
    requires Pow2(k) <= v < Pow2(m)
    ensures k < m
  {
    if k >= m {
      Pow2Monotone(m, k);
      assert false;
    }
  }

  /** Multiplication of non-negative integers is monotone in both factors. */
  lemma MulMonotone(a: int, b: int, c: int, d: int)
    requires 0 <= a <= b && 0 <= c <= d
    ensures 0 <= a * c <= b * d
  {
    assert a * c <= b * c;
    assert b * c <= b * d;
  }

  /** |v| */
  function Magnitude(v: int): nat
  {
    if v < 0 then -v else v
  }

  lemma MulAtLeast(m: int, k: int)
    requires m > 0 && k >= 1
    ensures m * k >= m
  {
  }

  /** Euclidean quotient and remainder are determined by x == m * q + r, 0 <= r < m. */
  lemma DivModUnique(x: int, m: int, q: int, r: int)
    requires m > 0 && x == m * q + r && 0 <= r < m
    ensures x / m == q && x % m == r
  {
    var q0, r0 := x / m, x % m;
    assert x == m * q0 + r0;
    assert m * q - m * q0 == r0 - r;
    if q > q0 {
      MulAtLeast(m, q - q0);
      assert false;
    } else if q < q0 {
      MulAtLeast(m, q0 - q);
      assert false;
    }
  }

  lemma ModAddMultiple(a: int, m: int, c: int)
    requires m > 0
    ensures (a + m * c) % m == a % m
    ensures (a + m * c) / m == a / m + c
  {
    assert a + m * c == m * (a / m + c) + a % m;
    DivModUnique(a + m * c, m, a / m + c, a % m);
  }

  lemma ModOfShifted(a: int, p: int, c: int, t: int)
    requires p >= 1 && t == p * c
    ensures (a + t) % p == a % p
  {
    ModAddMultiple(a, p, c);
  }

  lemma DivLe(x: nat, d: nat)
    requires d >= 1
    ensures x / d <= x
  {
    if x / d > x {
      MulAtLeast(x / d, d);
      assert false;
    }
  }

  const TWO31: int := 0x8000_0000
  const TWO32: int := 0x1_0000_0000

  /** A Java `int`. */
  type int32 = x: int | -0x8000_0000 <= x < 0x8000_0000
  /** A Java `long`. */
  type int64 = x: int | -0x8000_0000_0000_0000 <= x < 0x8000_0000_0000_0000

  /** `Integer.MIN_VALUE` and `Integer.MAX_VALUE`. */
  const INT_MIN: int32 := -0x8000_0000
  const INT_MAX: int32 := 0x7FFF_FFFF

  /** The unique int32 congruent to x modulo 2^32: two's-complement wrap-around. */
  function Wrap(x: int): (r: int32)
    ensures INT_MIN <= x <= INT_MAX ==> r == x
  {
    (x + TWO31) % TWO32 - TWO31
  }

  /** Values congruent modulo 2^32 wrap to the same int32. */
  lemma WrapCongruent(x: int, y: int)
    requires (x - y) % TWO32 == 0
    ensures Wrap(x) == Wrap(y)
  {
    var k := (x - y) / TWO32;
    assert x + TWO31 == (y + TWO31) + TWO32 * k;
    ModAddMultiple(y + TWO31, TWO32, k);
  }

  /** Wrap-around of a value just above or just below the int range. */
  lemma WrapAbove(x: int)
    requires INT_MAX < x <= INT_MAX + TWO32
    ensures Wrap(x) == x - TWO32
  {
    DivModUnique(x + TWO31, TWO32, 1, x + TWO31 - TWO32);
  }

  lemma WrapBelow(x: int)
    requires INT_MIN - TWO32 <= x < INT_MIN
    ensures Wrap(x) == x + TWO32
  {
    DivModUnique(x + TWO31, TWO32, -1, x + TWO31 + TWO32);
  }

  /** Wrapping an intermediate sum does not change the wrapped total. */
  lemma WrapAdd(a: int, b: int)
    ensures Wrap(Wrap(a) + b) == Wrap(a + b)
  {
    assert ((Wrap(a) + b) - (a + b)) % TWO32 == 0 by {
      var k := (a + TWO31) / TWO32;
      assert (Wrap(a) + b) - (a + b) == TWO32 * -k;
      ModAddMultiple(0, TWO32, -k);
    }
    WrapCongruent(Wrap(a) + b, a + b);
  }

  /** Wrapping a factor does not change the wrapped product. */
  lemma WrapMul(a: int, c: int)
    ensures Wrap(Wrap(a) * c) == Wrap(a * c)
  {
    var w := Wrap(a);
    var k := (a - w) / TWO32;
    assert a == w + TWO32 * k;
    Distribute(w, TWO32, k, c);
    ModAddMultiple(w * c + TWO31, TWO32, k * c);
    WrapCongruent(a * c, w * c);
  }

  lemma Distribute(w: int, t: int, k: int, c: int)
    ensures (w + t * k) * c == w * c + t * (k * c)
  {
  }

  /** Java `a + b`, `a - b`, `-a` and `a * b` on `int`. */
  function AddInt(a: int32, b: int32): int32 { Wrap(a as int + b) }
  function SubInt(a: int32, b: int32): int32 { Wrap(a as int - b) }
  function NegInt(a: int32): int32 { Wrap(0 - a as int) }
  function MulInt(a: int32, b: int32): int32 { Wrap(a as int * b) }

  /** The 32-bit pattern of an int, read as an unsigned number. */
  function Unsigned(a: int32): (u: nat)
    ensures u < TWO32 && (a < 0 ==> u == a + TWO32)
    ensures (a < 0) == (u >= TWO31)
    ensures a >= 0 ==> u == a
  {
    if a < 0 then a + TWO32 else a
  }

  /** The int whose 32-bit pattern is u. */
  function Signed(u: nat): (a: int32)
    requires u < TWO32
    ensures Unsigned(a) == u
  {
    if u < TWO31 then u else u - TWO32
  }

  /** Java `a << n`: only the low five bits of the count are used. */
  function Shl(a: int32, n: int): int32
  {
    Wrap(a * Pow2(n % 32))
  }

  /** A left shift that does not leave the int range multiplies. */
  lemma ShlNoWrap(a: int32, n: nat)
    requires n < 32 && INT_MIN <= a * Pow2(n) <= INT_MAX
    ensures Shl(a, n) == a * Pow2(n)
  {
    assert n % 32 == n;
  }

  /** A left shift of a non-negative int that stays below 2^32, read unsigned, multiplies. */
  lemma ShlUnsigned(a: int32, n: nat)
    requires n < 32 && 0 <= a && a * Pow2(n) < TWO32
    ensures Unsigned(Shl(a, n)) == a * Pow2(n)
  {
    assert n % 32 == n;
    UnsignedOfWrap(a * Pow2(n));
  }

  /** A value in [0, 2^32) wraps to the int with that unsigned pattern. */
  lemma UnsignedOfWrap(v: int)
    requires 0 <= v < TWO32
    ensures Unsigned(Wrap(v)) == v
  {
    if v > INT_MAX {
      WrapAbove(v);
    }
  }

  /** Floor division of a non-negative number stays between zero and the dividend. */
  lemma FloorDivRange(a: int, d: int)
    requires d >= 1 && a >= 0
    ensures 0 <= a / d <= a
    ensures d * (a / d) <= a < d * (a / d) + d
  {
    var q := a / d;
    assert a == d * q + a % d;
    if q < 0 { MulAtLeast(d, -q); assert false; }
    if q > a { MulAtLeast(q, d); assert false; }
  }

  /** Java `a >> n`: arithmetic shift, which rounds toward negative infinity.
      A negative pattern is the complement of a non-negative one, shifted. */
  function Sar(a: int32, n: int): (r: int32)
    ensures Pow2(n % 32) * r <= a < Pow2(n % 32) * r + Pow2(n % 32)
  {
    var d := Pow2(n % 32);
    if a >= 0 then
      FloorDivRange(a, d);
      a / d
    else
      var c := -(a as int) - 1;
      FloorDivRange(c, d);
      assert d * (-(c / d) - 1) == -(d * (c / d)) - d;
      -(c / d) - 1
  }

  /** Java `a >>> n`: logical shift, which fills with zero bits. */
  function Ushr(a: int32, n: int): (r: int32)
    ensures Unsigned(r) == Unsigned(a) / Pow2(n % 32)
  {
    var u, d := Unsigned(a), Pow2(n % 32);
    FloorDivRange(u, d);
    Signed(u / d)
  }

  /** A logical shift of a non-negative int is floor division. */
  lemma UshrNonNeg(a: int32, n: nat)
    requires 0 <= a && n < 32
    ensures Ushr(a, n) == a / Pow2(n)
  {
    var r := Ushr(a, n);
    assert n % 32 == n;
    FloorDivRange(a, Pow2(n));
    assert Unsigned(r) < TWO31;
  }

  /** Java `a / b` on `int` (the caller has excluded b == 0), before wrap-around:
      division that rounds toward zero. */
  function TruncDiv(a: int, b: int): (q: int)
    requires b != 0
  {
    var m := Magnitude(a) / Magnitude(b);
    if (a < 0) == (b < 0) then m else -m
  }

  /** Java `a / b` on `int`; MIN_VALUE / -1 wraps back to MIN_VALUE. */
  function Quot(a: int32, b: int32): int32
    requires b != 0
  {
    Wrap(TruncDiv(a, b))
  }

  /** Java `a % b` on `int`: the remainder of truncating division, whose sign follows the dividend. */
  function Rem(a: int32, b: int32): (r: int32)
    requires b != 0
    ensures Magnitude(r) < Magnitude(b)
    ensures a >= 0 ==> r >= 0
    ensures a <= 0 ==> r <= 0
  {
    var m := Magnitude(a) % Magnitude(b);
    if a < 0 then -m else m
  }

  /** Java's division identity: `(a / b) * b + a % b == a`, before wrap-around. */
  lemma TruncDivRem(a: int32, b: int32)
    requires b != 0
    ensures a == b * TruncDiv(a, b) + Rem(a, b)
  {
    var A: int, B: int := Magnitude(a), Magnitude(b);
    var q, m := A / B, A % B;
    assert TruncDiv(a, b) == if (a < 0) == (b < 0) then q else -q;
    assert Rem(a, b) == if a < 0 then -m else m;
    SignedSplit(a, b, q, m);
  }

  /** Restoring the signs of |a| == |b| * q + m. */
  lemma SignedSplit(a: int, b: int, q: int, m: int)
    requires Magnitude(a) == Magnitude(b) * q + m
    ensures a == b * (if (a < 0) == (b < 0) then q else -q) + (if a < 0 then -m else m)
  {
    NegMul(b, q);
    if a < 0 && b < 0 {
      assert a == b * q - m;
    } else if a < 0 {
      assert a == b * (-q) - m;
    } else if b < 0 {
      assert a == b * (-q) + m;
    }
  }

  lemma NegMul(b: int, q: int)
    ensures (-b) * q == -(b * q) == b * (-q)
  {
  }

  /*
   * Bitwise operators. A bit pattern of width n is a nat below 2^n; an
   * operator combines the two top bits and recurses on the remaining n - 1.
   */

  datatype BitOp = AndOp | XorOp

  function ApplyBit(op: BitOp, p: bool, q: bool): bool
  {
    match op
    case AndOp => p && q
    case XorOp => p != q
  }

  /** The low n - 1 bits of a pattern of width n. */
  function Rest(a: nat, h: nat): nat
    requires a < 2 * h
  {
    if a >= h then a - h else a
  }

  function Bitwise(op: BitOp, a: nat, b: nat, n: nat): (r: nat)
    requires a < Pow2(n) && b < Pow2(n)
    ensures r < Pow2(n)
    decreases n
  {
    if n == 0 then 0
    else
      var h := Pow2(n - 1);
      var low := Bitwise(op, Rest(a, h), Rest(b, h), n - 1);
      if ApplyBit(op, a >= h, b >= h) then h + low else low
  }

  lemma BitwiseTop(op: BitOp, a: nat, b: nat, n: nat)
    requires n >= 1 && a < Pow2(n) && b < Pow2(n)
    ensures (Bitwise(op, a, b, n) >= Pow2(n - 1)) == ApplyBit(op, a >= Pow2(n - 1), b >= Pow2(n - 1))
  {
  }

  lemma {:induction false} AndZero(a: nat, n: nat)
    requires a < Pow2(n)
    ensures Bitwise(AndOp, a, 0, n) == 0
    decreases n
  {
    if n > 0 {
      AndZero(Rest(a, Pow2(n - 1)), n - 1);
    }
  }

  lemma {:induction false} AndAllOnes(a: nat, n: nat)
    requires a < Pow2(n)
    ensures Bitwise(AndOp, a, Pow2(n) - 1, n) == a
    decreases n
  {
    if n > 0 {
      var h := Pow2(n - 1);
      assert Rest(Pow2(n) - 1, h) == h - 1;
      AndAllOnes(Rest(a, h), n - 1);
    }
  }

  /** Masking with 2^k - 1 keeps the low k bits. */
  lemma {:induction false} AndLowMask(a: nat, k: nat, n: nat)
    requires k <= n && a < Pow2(n)
    ensures Pow2(k) - 1 < Pow2(n)
    ensures Bitwise(AndOp, a, Pow2(k) - 1, n) == a % Pow2(k)
    decreases n
  {
    Pow2Monotone(k, n);
    if k == n {
      AndAllOnes(a, n);
      DivModUnique(a, Pow2(k), 0, a);
    } else {
      var h := Pow2(n - 1);
      Pow2Monotone(k, n - 1);
      assert Rest(Pow2(k) - 1, h) == Pow2(k) - 1;
      AndLowMask(Rest(a, h), k, n - 1);
      if a >= h {
        Pow2Add(k, n - 1 - k);
        ModAddMultiple(a - h, Pow2(k), Pow2(n - 1 - k));
      }
    }
  }

  /** Masking with 2^n - 2^k is zero exactly when the pattern is below 2^k. */
  lemma {:induction false} AndHighMask(a: nat, k: nat, n: nat)
    requires k <= n && a < Pow2(n)
    ensures Pow2(k) <= Pow2(n)
    ensures (Bitwise(AndOp, a, Pow2(n) - Pow2(k), n) == 0) == (a < Pow2(k))
    decreases n
  {
    Pow2Monotone(k, n);
    if k == n {
      AndZero(a, n);
    } else {
      var h := Pow2(n - 1);
      Pow2Monotone(k, n - 1);
      assert Rest(Pow2(n) - Pow2(k), h) == h - Pow2(k);
      AndHighMask(Rest(a, h), k, n - 1);
    }
  }

  lemma {:induction false} XorZero(a: nat, n: nat)
    requires a < Pow2(n)
    ensures Bitwise(XorOp, a, 0, n) == a
    decreases n
  {
    if n > 0 {
      XorZero(Rest(a, Pow2(n - 1)), n - 1);
    }
  }

  lemma {:induction false} XorAllOnes(a: nat, n: nat)
    requires a < Pow2(n)
    ensures Bitwise(XorOp, a, Pow2(n) - 1, n) == Pow2(n) - 1 - a
    decreases n
  {
    if n > 0 {
      var h := Pow2(n - 1);
      assert Rest(Pow2(n) - 1, h) == h - 1;
      XorAllOnes(Rest(a, h), n - 1);
    }
  }

  /** Java `a & b` and `a ^ b` on `int`. */
  function And(a: int32, b: int32): int32
  {
    Pow2Of32();
    Signed(Bitwise(AndOp, Unsigned(a), Unsigned(b), 32))
  }

  function Xor(a: int32, b: int32): int32
  {
    Pow2Of32();
    Signed(Bitwise(XorOp, Unsigned(a), Unsigned(b), 32))
  }

  /** Java `~a`, the bitwise complement: its value is -a - 1. */
  function Not(a: int32): int32
  {
    -(a as int) - 1
  }

  /** `a ^ -1` flips every bit, which is `~a`. */
  lemma XorMinusOne(a: int32)
    ensures Xor(a, -1) == Not(a)
  {
    Pow2Of32();
    XorAllOnes(Unsigned(a), 32);
  }

  /** The sign bit of `a & b` is set exactly when both sign bits are. */
  lemma AndSign(a: int32, b: int32)
    ensures (And(a, b) < 0) == (a < 0 && b < 0)
  {
    Pow2Of32();
    BitwiseTop(AndOp, Unsigned(a), Unsigned(b), 32);
  }

  /** The sign bit of `a ^ b` is set exactly when the sign bits differ. */
  lemma XorSign(a: int32, b: int32)
    ensures (Xor(a, b) < 0) == ((a < 0) != (b < 0))
  {
    Pow2Of32();
    BitwiseTop(XorOp, Unsigned(a), Unsigned(b), 32);
  }

  /** `a & MIN_VALUE` isolates the sign bit. */
  lemma AndMin(a: int32)
    ensures (And(a, INT_MIN) != 0) == (a < 0)
  {
    Pow2Of32();
    var u := Unsigned(a);
    assert Unsigned(INT_MIN) == Pow2(31);
    AndZero(Rest(u, Pow2(31)), 31);
    assert Bitwise(AndOp, u, Pow2(31), 32) == (if u >= Pow2(31) then Pow2(31) else 0);
  }

  /** `a & 0 == 0`. */
  lemma AndWithZero(a: int32)
    ensures And(a, 0) == 0
  {
    Pow2Of32();
    AndZero(Unsigned(a), 32);
  }

  /** `a ^ 0 == a`. */
  lemma XorWithZero(a: int32)
    ensures Xor(a, 0) == a
  {
    Pow2Of32();
    XorZero(Unsigned(a), 32);
  }

  /** `a & (2^k - 1)` is the Euclidean remainder of a modulo 2^k. */
  lemma AndLow(a: int32, k: nat)
    requires 1 <= k <= 31
    ensures Pow2(k) - 1 <= INT_MAX
    ensures And(a, (Pow2(k) - 1) as int32) == a % Pow2(k)
  {
    Pow2Of32();
    Pow2Monotone(k, 31);
    var u, m := Unsigned(a), Pow2(k) - 1;
    assert Unsigned(m as int32) == m;
    AndLowMask(u, k, 32);
    assert Bitwise(AndOp, u, m, 32) == u % Pow2(k);
    var low := u % Pow2(k);
    assert 0 <= low < Pow2(k) <= TWO31;
    UnsignedMod(a, k);
    assert And(a, m as int32) == Signed(low) == low;
  }

  lemma UnsignedMod(a: int32, k: nat)
    requires k <= 32
    ensures Unsigned(a) % Pow2(k) == a % Pow2(k)
  {
    if a < 0 {
      Pow2Of32();
      Pow2Add(k, 32 - k);
      ModOfShifted(a, Pow2(k), Pow2(32 - k), TWO32);
    }
  }

  /** `a & -2^k` (the high 32 - k bits) is zero exactly when 0 <= a < 2^k. */
  lemma AndHigh(a: int32, k: nat)
    requires 1 <= k <= 31
    ensures -(Pow2(k) as int) >= INT_MIN
    ensures (And(a, (-(Pow2(k) as int)) as int32) == 0) == (0 <= a < Pow2(k))
  {
    Pow2Of32();
    Pow2Monotone(k, 31);
    var u, m := Unsigned(a), (-(Pow2(k) as int)) as int32;
    var mu := Pow2(32) - Pow2(k);
    assert Unsigned(m) == mu;
    var b := Bitwise(AndOp, u, mu, 32);
    assert (b == 0) == (u < Pow2(k)) by {
      AndHighMask(u, k, 32);
    }
    assert And(a, m) == Signed(b);
    assert (u < Pow2(k)) == (0 <= a < Pow2(k));
  }
}

/** Doubles as bit patterns with exact rational values; the conversion of an integer to a double. */
module Floats {
  import opened ByteStrings
  import opened JsonValues

  function Pow2(n: nat): (p: int)
    ensures p >= 1
  {
    if n == 0 then 1 else 2 * Pow2(n - 1)
  }

  function Scale(m: int, e: int): real
  {
    if e >= 0 then (m * Pow2(e)) as real else m as real / Pow2(-e) as real
  }

  function Signed(negative: bool, m: nat): int
  {
    if negative then -(m as int) else m
  }

  function BiasedExponent(d: Double): nat
  {
    FromBigEndian(d) / 0x10_0000_0000_0000 % 2048
  }

  function Fraction(d: Double): nat
  {
    FromBigEndian(d) % 0x10_0000_0000_0000
  }

  /** The number a finite double stands for (IEEE 754 binary64); both zeros stand for 0. */
  function DoubleValue(d: Double): real
  {
    var e := BiasedExponent(d);
    var m := if e == 0 then Fraction(d) else Fraction(d) + 0x10_0000_0000_0000;
    Scale(Signed(d[0] >= 128, m), (if e == 0 then 1 else e) - 1075)
  }

  /** How many low bits a double cannot keep of `m`. */
  function DroppedBits(m: nat): nat
  {
    if m < 0x20_0000_0000_0000 then 0 else 1 + DroppedBits(m / 2)
  }

  function Abs(n: int): nat
  {
    if n < 0 then -n else n
  }

  /** `q` or its successor, whichever is nearer to q + r / p; the even one when both are equally near. */
  function Rounded(q: int, r: int, p: int): int
  {
    if 2 * r > p || (2 * r == p && q % 2 == 1) then q + 1 else q
  }

  /** The up to 53 bits that a double keeps of `m`, rounded, ties to even. */
  function RoundedBits(m: nat): int
  {
    var p := Pow2(DroppedBits(m));
    Rounded(m / p, m % p, p)
  }

  /** `static_cast<double>` of an integer. */
  function CastToDouble(n: int): real
  {
    var m := Abs(n);
    var c := RoundedBits(m) * Pow2(DroppedBits(m));
    (if n < 0 then -c else c) as real
  }

  /** Integers up to 2^53 in magnitude convert exactly. */
  lemma CastIsExact(n: int)
    requires -0x20_0000_0000_0000 <= n <= 0x20_0000_0000_0000
    ensures CastToDouble(n) == n as real
  {
    var m := if n < 0 then -n else n;
    if m == 0x20_0000_0000_0000 {
      assert DroppedBits(m / 2) == 0;
      assert Pow2(1) == 2 && m / 2 * 2 == m;
    }
  }

  // ---------- narrower formats ----------

  function Log2(m: nat): (k: nat)
    requires m > 0
    ensures Pow2(k) <= m < 2 * Pow2(k)
  {
    if m == 1 then 0 else 1 + Log2(m / 2)
  }

  lemma {:induction false} Pow2Adds(a: nat, b: nat)
    ensures Pow2(a + b) == Pow2(a) * Pow2(b)
  {
    if a > 0 {
      Pow2Adds(a - 1, b);
      assert 2 * (Pow2(a - 1) * Pow2(b)) == (2 * Pow2(a - 1)) * Pow2(b);
    }
  }

  lemma Pow2Known()
    ensures Pow2(52) == 0x10_0000_0000_0000 && Pow2(53) == 0x20_0000_0000_0000
  {
    assert Pow2(4) == 16;
    Pow2Adds(4, 4);
    Pow2Adds(8, 8);
    Pow2Adds(16, 8);
    Pow2Adds(24, 24);
    Pow2Adds(48, 4);
  }

  lemma Between(p: nat, m: nat, q: nat)
    requires p <= m < 2 * p && q >= 1
    ensures p * q <= m * q < 2 * (p * q)
  {
    assert (m - p) * q >= 0 && (2 * p - m) * q >= 1;
    assert (m - p) * q == m * q - p * q && (2 * p - m) * q == 2 * (p * q) - m * q;
  }

  /** `m` shifted up until its leading one is the hidden bit of a double. */
  function Shifted(m: nat): (s: nat)
    requires 0 < m < 0x20_0000_0000_0000
    ensures Log2(m) <= 52 && s == m * Pow2(52 - Log2(m))
    ensures 0x10_0000_0000_0000 <= s < 0x20_0000_0000_0000
  {
    ShiftedRange(m);
    m * Pow2(52 - Log2(m))
  }

  lemma ShiftedRange(m: nat)
    requires 0 < m < 0x20_0000_0000_0000
    ensures Log2(m) <= 52
    ensures 0x10_0000_0000_0000 <= m * Pow2(52 - Log2(m)) < 0x20_0000_0000_0000
  {
    Pow2Known();
    var k := Log2(m);
    if k >= 53 {
      Pow2Adds(53, k - 53);
    } else {
      Pow2Adds(k, 52 - k);
      Between(Pow2(k), m, Pow2(52 - k));
    }
  }

  /** The 64 bits of the double plus or minus m * 2^e, for up to 53 bits and exponents far from the limits. */
  function WideBits(negative: bool, m: nat, e: int): (n: nat)
    requires m < 0x20_0000_0000_0000 && -149 <= e <= 971
    ensures n < 0x1_0000_0000_0000_0000
  {
    (if negative then 0x8000_0000_0000_0000 else 0) +
    if m == 0 then 0 else (Log2(m) + e + 1022) * 0x10_0000_0000_0000 + Shifted(m)
  }

  lemma WideFields(negative: bool, m: nat, e: int)
    requires m < 0x20_0000_0000_0000 && -149 <= e <= 971
    ensures var n := WideBits(negative, m, e);
      && (n >= 0x8000_0000_0000_0000 <==> negative)
      && n / 0x10_0000_0000_0000 % 2048 == (if m == 0 then 0 else Log2(m) + e + 1023)
      && n % 0x10_0000_0000_0000 == (if m == 0 then 0 else Shifted(m) - 0x10_0000_0000_0000)
  {
    hide Pow2, Log2;
    if m > 0 {
      var s, high := Shifted(m), (if negative then 2048 else 0) + Log2(m) + e + 1023;
      DivModUnique(WideBits(negative, m, e), 0x10_0000_0000_0000, high, s - 0x10_0000_0000_0000);
    }
  }

  /** Bytes of a 64-bit pattern whose exponent is not all ones. */
  lemma FiniteBytes(n: nat)
    requires n < 0x1_0000_0000_0000_0000 && n / 0x10_0000_0000_0000 % 2048 < 2047
    ensures FiniteBits(ToBigEndian(n, 8)) && FromBigEndian(ToBigEndian(n, 8)) == n
  {
    hide ToBigEndian, FromBigEndian;
    ToBigEndianAt(n, 8, 0);
    ToBigEndianAt(n, 8, 1);
    FromToBigEndian(n, 8);
    PowersOf256();
    ExponentBytes(n / 0x1_0000_0000_0000);
    assert n / 0x10_0000_0000_0000 == n / 0x1_0000_0000_0000 / 16;
    assert n / 0x100_0000_0000_0000 == n / 0x1_0000_0000_0000 / 256;
  }

  lemma ExponentBytes(q: nat)
    requires q < 0x1_0000
    ensures q / 16 % 2048 == 2047 <==> q / 256 % 256 % 128 == 127 && q % 256 >= 240
  {}

  lemma PowersOf256()
    ensures Pow256(1) == 0x100 && Pow256(2) == 0x1_0000 && Pow256(4) == 0x1_0000_0000
    ensures Pow256(6) == 0x1_0000_0000_0000 && Pow256(7) == 0x100_0000_0000_0000
    ensures Pow256(8) == 0x1_0000_0000_0000_0000
  {
    assert Pow256(3) == 0x100_0000;
  }

  /** The double plus or minus m * 2^e: among others, a half or single precision number converted to double. */
  function Widen(negative: bool, m: nat, e: int): Double
    requires m < 0x20_0000_0000_0000 && -149 <= e <= 971
  {
    WideFields(negative, m, e);
    FiniteBytes(WideBits(negative, m, e));
    ToBigEndian(WideBits(negative, m, e), 8)
  }

  lemma ScaleBoth(m: int, k: nat, e: int)
    ensures Scale(m * Pow2(k), e) == Scale(m, e + k)
  {
    hide Pow2;
    if e >= 0 {
      Pow2Adds(e, k);
      Regroup(m, Pow2(k), Pow2(e));
    } else if e + k >= 0 {
      Pow2Adds(-e, e + k);
      Regroup(m, Pow2(e + k), Pow2(-e));
      CancelFactor(m * Pow2(e + k), 1, Pow2(-e));
    } else {
      Pow2Adds(-(e + k), k);
      CancelFactor(m, Pow2(-(e + k)), Pow2(k));
    }
  }

  lemma Regroup(m: int, p: nat, q: nat)
    ensures m * p * q == m * (q * p)
  {}

  lemma CancelFactor(m: int, p: nat, q: nat)
    requires p >= 1 && q >= 1
    ensures (m * q) as real / (p * q) as real == m as real / p as real
  {
    var x, y, z := m as real, p as real, q as real;
    assert (m * q) as real == x * z && (p * q) as real == y * z;
    assert x * z / (y * z) == x / y;
  }

  /** The fields of a widened number, read back. */
  lemma WidenFields(negative: bool, m: nat, e: int)
    requires m < 0x20_0000_0000_0000 && -149 <= e <= 971
    ensures var d := Widen(negative, m, e);
      && (d[0] >= 128 <==> negative)
      && BiasedExponent(d) == (if m == 0 then 0 else Log2(m) + e + 1023)
      && Fraction(d) == (if m == 0 then 0 else Shifted(m) - 0x10_0000_0000_0000)
  {
    hide ToBigEndian, FromBigEndian, Shifted, WideBits, Log2;
    var n := WideBits(negative, m, e);
    WideFields(negative, m, e);
    FiniteBytes(n);
    SignByte(n);
  }

  /** Widening is exact. */
  lemma WidenIsExact(negative: bool, m: nat, e: int, d: Double)
    requires m < 0x20_0000_0000_0000 && -149 <= e <= 971 && d == Widen(negative, m, e)
    ensures DoubleValue(d) == Scale(Signed(negative, m), e)
  {
    hide ToBigEndian, FromBigEndian, WideBits, Log2, Pow2, Widen, BiasedExponent, Fraction;
    WidenFields(negative, m, e);
    if m > 0 {
      var s, k := Shifted(m), Log2(m);
      ScaleBoth(Signed(negative, m), 52 - k, e + k - 52);
      assert Signed(negative, m) * Pow2(52 - k) == Signed(negative, s);
    } else {
      ScaleZero(e);
      ScaleZero(1 - 1075);
    }
  }

  lemma ScaleZero(e: int)
    ensures Scale(0, e) == 0.0
  {
    hide Pow2;
  }

  lemma SignByte(n: nat)
    requires n < 0x1_0000_0000_0000_0000
    ensures ToBigEndian(n, 8)[0] >= 128 <==> n >= 0x8000_0000_0000_0000
  {
    hide ToBigEndian;
    ToBigEndianAt(n, 8, 0);
    PowersOf256();
  }

  // ---------- what the conversion of integers loses ----------

  lemma HalfThen(m: nat, p: nat)
    requires p >= 1
    ensures m / 2 / p == m / (2 * p)
  {
    var q, r := m / 2, m % 2;
    var a, b := q / p, q % p;
    assert q == p * a + b;
    assert 2 * (p * a) == 2 * p * a;
    DivModUnique(m, 2 * p, a, 2 * b + r);
  }

  /** At most 53 bits are kept, and at most eleven of a 64-bit number are dropped. */
  lemma {:induction false} KeptBits(m: nat, j: nat)
    requires m < 0x20_0000_0000_0000 * Pow2(j)
    ensures DroppedBits(m) <= j && 0 <= m / Pow2(DroppedBits(m)) < 0x20_0000_0000_0000
    decreases m
  {
    if m >= 0x20_0000_0000_0000 {
      assert j > 0;
      KeptBits(m / 2, j - 1);
      HalfThen(m, Pow2(DroppedBits(m / 2)));
    } else {
      assert Pow2(0) == 1;
    }
  }

  /** The rounded bits of a 64-bit number. */
  lemma RoundedBitsFit(m: nat)
    requires m < 0x1_0000_0000_0000_0000
    ensures DroppedBits(m) <= 11 && 0 <= RoundedBits(m) <= 0x20_0000_0000_0000
  {
    hide Pow2, DroppedBits;
    Pow2Of11();
    KeptBits(m, 11);
  }

  lemma Pow2Of10()
    ensures Pow2(10) == 1024
  {}

  lemma Pow2Of11()
    ensures Pow2(11) == 2048
  {}

  lemma ScaledInteger(negative: bool, s: nat, k: nat)
    ensures Scale(Signed(negative, s), k) == (if negative then -(s * Pow2(k)) else s * Pow2(k)) as real
  {
    hide Pow2;
    var x: int := s;
    assert (-x) * Pow2(k) == -(x * Pow2(k));
  }

  /** The double that an integer is converted to. */
  lemma CastIsADouble(n: int) returns (d: Double)
    requires -0x1_0000_0000_0000_0000 < n < 0x1_0000_0000_0000_0000
    ensures DoubleValue(d) == CastToDouble(n)
  {
    hide DoubleValue, Widen, DroppedBits, Scale, RoundedBits, Pow2;
    var m := Abs(n);
    RoundedBitsFit(m);
    var k: nat, s: nat := DroppedBits(m), RoundedBits(m);
    ScaledInteger(n < 0, s, k);
    if s == 0x20_0000_0000_0000 {
      var t: nat := 0x10_0000_0000_0000;
      d := Widen(n < 0, t, k + 1);
      WidenIsExact(n < 0, t, k + 1, d);
      OneMoreBit(n < 0, t, k);
    } else {
      d := Widen(n < 0, s, k);
      WidenIsExact(n < 0, s, k, d);
    }
  }

  lemma OneMoreBit(negative: bool, t: nat, k: nat)
    ensures Scale(Signed(negative, t), k + 1) == Scale(Signed(negative, 2 * t), k)
  {
    var x: int := Signed(negative, t);
    assert Signed(negative, 2 * t) == 2 * x && x * (2 * Pow2(k)) == 2 * x * Pow2(k);
  }

  lemma RoundedDoubles(m: nat)
    requires 2 * m >= 0x20_0000_0000_0000
    ensures DroppedBits(2 * m) == 1 + DroppedBits(m) && RoundedBits(2 * m) == RoundedBits(m)
  {
    hide Pow2, DroppedBits, Rounded;
    assert 2 * m / 2 == m;
    OneMoreDropped(2 * m);
    DoubledPower(DroppedBits(m));
    DoubledQuotient(m, Pow2(DroppedBits(m)));
    RoundedDoubled(m / Pow2(DroppedBits(m)), m % Pow2(DroppedBits(m)), Pow2(DroppedBits(m)));
  }

  lemma RoundedDoubled(q: int, r: int, p: int)
    ensures Rounded(q, 2 * r, 2 * p) == Rounded(q, r, p)
  {}

  lemma OneMoreDropped(m: nat)
    requires m >= 0x20_0000_0000_0000
    ensures DroppedBits(m) == 1 + DroppedBits(m / 2)
  {}

  lemma DoubledPower(k: nat)
    ensures Pow2(1 + k) == 2 * Pow2(k)
  {}

  lemma DoubledQuotient(m: nat, p: nat)
    requires p >= 1
    ensures 2 * m / (2 * p) == m / p && 2 * m % (2 * p) == 2 * (m % p)
  {
    var q, r := m / p, m % p;
    assert 2 * m == 2 * p * q + 2 * r by {
      assert m == p * q + r;
      assert 2 * (p * q) == 2 * p * q;
    }
    DivModUnique(2 * m, 2 * p, q, 2 * r);
  }

  /** Doubling commutes with the conversion. */
  lemma CastDoubles(n: int)
    ensures CastToDouble(2 * n) == 2.0 * CastToDouble(n)
  {
    var m := Abs(n);
    if 2 * m >= 0x20_0000_0000_0000 {
      hide DroppedBits, RoundedBits, Pow2;
      RoundedDoubles(m);
      DoubledPower(DroppedBits(m));
      var s, p := RoundedBits(m), Pow2(DroppedBits(m));
      assert s * (2 * p) == 2 * (s * p);
    } else {
      CastIsExact(n);
      CastIsExact(2 * n);
    }
  }

  lemma {:induction false} CastOfScaled(n: int, j: nat)
    requires -0x20_0000_0000_0000 <= n <= 0x20_0000_0000_0000
    ensures CastToDouble(n * Pow2(j)) == (n * Pow2(j)) as real
  {
    hide CastToDouble;
    if j == 0 {
      assert n * Pow2(0) == n;
      CastIsExact(n);
    } else {
      CastOfScaled(n, j - 1);
      CastDoubles(n * Pow2(j - 1));
      assert n * Pow2(j) == 2 * (n * Pow2(j - 1));
    }
  }

  /** The conversion gives an integer, which is itself converted exactly. */
  lemma CastIsExactInteger(n: int) returns (c: int)
    requires -0x1_0000_0000_0000_0000 < n < 0x1_0000_0000_0000_0000
    ensures CastToDouble(n) == c as real && CastToDouble(c) == c as real
  {
    hide DroppedBits, RoundedBits, Pow2;
    var m := Abs(n);
    RoundedBitsFit(m);
    var s, p := RoundedBits(m), Pow2(DroppedBits(m));
    var signed := if n < 0 then -s else s;
    CastOfScaled(signed, DroppedBits(m));
    c := signed * p;
    assert -s * p == -(s * p);
  }

  lemma {:induction false} Pow2Grows(k: nat, j: nat)
    requires k <= j
    ensures Pow2(k) <= Pow2(j)
    decreases j
  {
    if k < j {
      Pow2Grows(k, j - 1);
    }
  }

  lemma ProductBound(a: int, b: int, x: int, y: int)
    requires 0 <= a <= x && 0 <= b <= y
    ensures 0 <= a * b <= x * y
  {
    assert a * b <= x * b && x * b <= x * y;
  }

  /** The magnitude of a signed 64-bit integer is rounded to at most 2^63. */
  lemma RoundedMagnitude(m: nat)
    requires m <= 0x8000_0000_0000_0000
    ensures 0 <= RoundedBits(m) * Pow2(DroppedBits(m)) <= 0x8000_0000_0000_0000
  {
    hide Pow2, DroppedBits, RoundedBits;
    Pow2Of10();
    if m < 0x8000_0000_0000_0000 {
      KeptBits(m, 10);
      RoundedBitsFit(m);
      Pow2Grows(DroppedBits(m), 10);
      ProductBound(RoundedBits(m), Pow2(DroppedBits(m)), 0x20_0000_0000_0000, 1024);
    } else {
      CastOfScaled(0x20_0000_0000_0000, 10);
    }
  }

  lemma FractionBound(d: Double)
    ensures Fraction(d) < 0x10_0000_0000_0000
  {}

  /** An integer that is the value of a double is converted exactly. */
  lemma IntegerDoubleIsExact(d: Double, n: int)
    requires DoubleValue(d) == n as real
    ensures CastToDouble(n) == n as real
  {
    hide CastToDouble, Fraction, BiasedExponent, Pow2;
    FractionBound(d);
    var e := BiasedExponent(d);
    var m: nat := if e == 0 then Fraction(d) else Fraction(d) + 0x10_0000_0000_0000;
    var biased: int := if e == 0 then 1 else e;
    IntegerScale(Signed(d[0] >= 128, m), biased - 1075, n);
  }

  lemma IntegerScale(m: int, e: int, n: int)
    requires -0x20_0000_0000_0000 <= m <= 0x20_0000_0000_0000 && Scale(m, e) == n as real
    ensures CastToDouble(n) == n as real
  {
    hide CastToDouble, Pow2;
    if e >= 0 {
      CastOfScaled(m, e);
    } else {
      NoLarger(m, Pow2(-e), n);
      CastIsExact(n);
    }
  }

  lemma NoLarger(m: int, p: int, n: int)
    requires p >= 1 && m as real / p as real == n as real
    ensures Abs(n) <= Abs(m)
  {
    assert m as real == n as real * p as real == (n * p) as real;
    assert n * (p - 1) >= 0 || n < 0;
    assert n * (p - 1) <= 0 || n > 0;
    assert m == n + n * (p - 1);
  }
}

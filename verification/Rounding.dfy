/** The conversion of an integer gives the nearest double, and of two nearest ones the even one. */
module Rounding {
  import opened JsonValues
  import opened Floats

  function Distance(x: real, y: real): real
  {
    if x < y then y - x else x - y
  }

  // ---------- integers ----------

  /** The 53 bits that are kept reach down to the last bit that is dropped. */
  lemma {:induction false} Binade(m: nat)
    requires m >= 0x20_0000_0000_0000
    ensures DroppedBits(m) >= 1
    ensures 0x10_0000_0000_0000 * Pow2(DroppedBits(m)) <= m < 0x20_0000_0000_0000 * Pow2(DroppedBits(m))
  {
    var p := Pow2(DroppedBits(m / 2));
    assert Pow2(DroppedBits(m)) == 2 * p;
    if m / 2 >= 0x20_0000_0000_0000 {
      Binade(m / 2);
      assert m < 2 * (0x20_0000_0000_0000 * p) by { Doubled(m, 0x20_0000_0000_0000 * p); }
    } else {
      assert DroppedBits(m / 2) == 0 && p == 1;
    }
  }

  lemma Doubled(m: int, x: int)
    requires m / 2 < x
    ensures m < 2 * x
  {}

  /** Rounding a quotient gives the nearest multiple. */
  lemma NearestMultiple(m: nat, p: nat, t: int)
    requires p >= 1
    ensures var c := Rounded(m / p, m % p, p) * p;
      && 0 <= 2 * (c - m) + p <= 2 * p
      && (c <= m ==> c - m >= t * p - m || t * p - m >= m - c)
      && (c >= m ==> c - m <= t * p - m || t * p - m <= m - c)
      && (2 * (c - m) == p || 2 * (c - m) + p == 0 ==> Rounded(m / p, m % p, p) % 2 == 0)
  {
    var q: int, r: int := m / p, m % p;
    assert m == q * p + r;
    assert (q + 1) * p == q * p + p;
    if t <= q {
      assert t * p <= q * p by { Multiples(t, q, p); }
    } else {
      assert t * p >= (q + 1) * p by { Multiples(q + 1, t, p); }
    }
  }

  lemma Multiples(a: int, b: int, p: nat)
    requires a <= b
    ensures a * p <= b * p
  {
    assert (b - a) * p >= 0;
  }

  // ---------- doubles ----------

  /** With an exponent below j, 53 bits give less than 2^(52 + j). */
  lemma SmallExponent(m: nat, e: int, j: nat)
    requires m < 0x20_0000_0000_0000 && e < j
    ensures Scale(m, e) < (0x10_0000_0000_0000 * Pow2(j)) as real
  {
    hide Pow2;
    if e >= 0 {
      Pow2Grows(e, j - 1);
      DoubledPower(j - 1);
      Multiples(Pow2(e), Pow2(j - 1), 0x20_0000_0000_0000);
      Smaller(m, 0x20_0000_0000_0000, Pow2(e));
    } else {
      HalfOrLess(m, e);
    }
  }

  /** A double of at least 2^(52 + j) is a multiple of 2^j. */
  lemma LargeIsMultiple(m: nat, e: int, j: nat) returns (t: nat)
    requires m < 0x20_0000_0000_0000 && Scale(m, e) >= (0x10_0000_0000_0000 * Pow2(j)) as real
    ensures Scale(m, e) == (t * Pow2(j)) as real
  {
    hide Pow2;
    if e < j {
      SmallExponent(m, e, j);
    }
    t := m * Pow2(e - j);
    Pow2Adds(e - j, j);
    Associate(m, Pow2(e - j), Pow2(j));
  }

  lemma Associate(m: nat, a: nat, b: nat)
    ensures m * (a * b) == m * a * b
  {}

  lemma Smaller(m: nat, n: nat, p: nat)
    requires m < n && p >= 1
    ensures m * p < n * p
  {}

  lemma HalfOrLess(m: nat, e: int)
    requires e < 0
    ensures 2.0 * Scale(m, e) <= m as real
  {
    assert Pow2(-e) >= 2;
    Fraction2(m as real, Pow2(-e) as real);
  }

  lemma Fraction2(x: real, p: real)
    requires x >= 0.0 && p >= 2.0
    ensures 2.0 * (x / p) <= x
  {
    var y := x / p;
    assert y * p == x && y >= 0.0;
    assert y * p >= y * 2.0;
  }

  // ---------- the nearest double ----------

  /** For magnitudes: no double is nearer to an integer of more than 53 bits than what it is rounded to. */
  lemma MagnitudeIsNearest(n: nat, m: nat, e: int)
    requires n >= 0x20_0000_0000_0000 && m < 0x20_0000_0000_0000
    ensures var p := Pow2(DroppedBits(n));
      && 2.0 * Distance((RoundedBits(n) * p) as real, n as real) <= p as real
      && Distance((RoundedBits(n) * p) as real, n as real) <= Distance(Scale(m, e), n as real)
  {
    hide Pow2, Scale, DroppedBits, Rounded;
    Binade(n);
    var k := DroppedBits(n);
    var p, h: int := Pow2(k), Pow2(k - 1);
    DoubledPower(k - 1);
    var x := Scale(m, e);
    NearestMultiple(n, p, 0);
    if Distance(x, n as real) < h as real {
      assert x > (0x20_0000_0000_0000 * h - h) as real;
      var t := LargeIsMultiple(m, e, k - 1);
      NearestOfHalves(n, p, h, t, m, e, k);
    }
  }

  /** A double less than half a step away is a multiple of the whole step. */
  lemma NearestOfHalves(n: nat, p: nat, h: nat, t: nat, m: nat, e: int, k: nat)
    requires k >= 1 && p == Pow2(k) && h >= 1 && p == 2 * h
    requires 0x10_0000_0000_0000 * p <= n && m < 0x20_0000_0000_0000
    requires Scale(m, e) == (t * h) as real && Distance((t * h) as real, n as real) < h as real
    ensures var c := Rounded(n / p, n % p, p) * p;
      Distance(c as real, n as real) <= Distance((t * h) as real, n as real)
  {
    hide Pow2, Scale, Rounded;
    if t * h < 0x10_0000_0000_0000 * p {
      BelowByAStep(t, h, 0x20_0000_0000_0000);
    } else {
      var u := LargeIsMultiple(m, e, k);
      assert u * p == t * h;
      NearestMultiple(n, p, u);
    }
  }

  lemma BelowByAStep(t: nat, h: nat, b: nat)
    requires t * h < b * h
    ensures t * h <= b * h - h
  {
    if t >= b {
      Multiples(b, t, h);
    }
    Multiples(t, b - 1, h);
    assert (b - 1) * h == b * h - h;
  }

  /** For every integer of 64 bits and every double: the conversion is at least as near. */
  lemma CastIsNearest(n: int, d: Double)
    requires -0x1_0000_0000_0000_0000 < n < 0x1_0000_0000_0000_0000
    ensures Distance(CastToDouble(n), n as real) <= Distance(DoubleValue(d), n as real)
  {
    hide Pow2, Scale, RoundedBits, Fraction, BiasedExponent;
    var m := Abs(n);
    if m < 0x20_0000_0000_0000 {
      CastIsExact(n);
    } else {
      FractionBound(d);
      var biased: int := if BiasedExponent(d) == 0 then 1 else BiasedExponent(d);
      var bits: nat := if BiasedExponent(d) == 0 then Fraction(d) else Fraction(d) + 0x10_0000_0000_0000;
      MagnitudeIsNearest(m, bits, biased - 1075);
      SignedScale(d[0] >= 128, bits, biased - 1075);
      MagnitudeIsNearest(m, 0, 0);
      ScaleZero(0);
    }
  }

  lemma SignedScale(negative: bool, m: nat, e: int)
    ensures Scale(Signed(negative, m), e) == if negative then -Scale(m, e) else Scale(m, e)
    ensures Scale(m, e) >= 0.0
  {
    hide Pow2;
    if e >= 0 {
      var y: int := m;
      assert (-y) * Pow2(e) == -(y * Pow2(e));
    } else {
      var x, p := m as real, Pow2(-e) as real;
      assert (-x) / p == -(x / p);
      assert x / p >= 0.0;
    }
  }

  /** When the conversion is half a step away, its last bit is zero. */
  lemma TiesToEven(n: int)
    requires 2.0 * Distance(CastToDouble(n), n as real) == Pow2(DroppedBits(Abs(n))) as real
    ensures var s, p := RoundedBits(Abs(n)), Pow2(DroppedBits(Abs(n)));
      s % 2 == 0 && CastToDouble(n) == ((if n < 0 then -s else s) * p) as real
  {
    hide Pow2, DroppedBits, Rounded;
    var m := Abs(n);
    var p := Pow2(DroppedBits(m));
    NearestMultiple(m, p, 0);
    var s := RoundedBits(m);
    assert (-s) * p == -(s * p);
  }
}

/** Byte strings and the order `std::string` gives them. */
module ByteStrings {
  import opened Sequences

  type Byte = b: int | 0 <= b < 256

  type Bytes = seq<Byte>

  /** `operator<` of `std::string`: bytes are compared as unsigned values, a proper prefix is smaller. */
  predicate Less(a: Bytes, b: Bytes)
  {
    b != [] && (a == [] || a[0] < b[0] || (a[0] == b[0] && Less(a[1..], b[1..])))
  }

  lemma LessIrreflexive(a: Bytes)
    ensures !Less(a, a)
  {}

  lemma LessTransitive(a: Bytes, b: Bytes, c: Bytes)
    requires Less(a, b) && Less(b, c)
    ensures Less(a, c)
  {}

  lemma LessTotal(a: Bytes, b: Bytes)
    ensures a == b || Less(a, b) || Less(b, a)
  {
    if a != [] && b != [] && a[0] == b[0] {
      LessTotal(a[1..], b[1..]);
      assert a == [a[0]] + a[1..] && b == [b[0]] + b[1..];
    }
  }

  lemma LessAsymmetric(a: Bytes, b: Bytes)
    requires Less(a, b)
    ensures !Less(b, a) && a != b
  {
    LessIrreflexive(a);
    if Less(b, a) {
      LessTransitive(a, b, a);
    }
  }

  /** Comparing two strings with a common prefix is comparing what follows it. */
  lemma {:induction false} LessAfterPrefix(p: Bytes, a: Bytes, b: Bytes)
    ensures Less(p + a, p + b) == Less(a, b)
  {
    if p == [] {
      assert p + a == a && p + b == b;
    } else {
      LessAfterPrefix(p[1..], a, b);
      assert (p + a)[1..] == p[1..] + a && (p + b)[1..] == p[1..] + b;
    }
  }

  function Pow256(k: nat): (p: nat)
    ensures p >= 1
  {
    if k == 0 then 1 else 256 * Pow256(k - 1)
  }

  /** The low `k` bytes of `n` in two's complement, most significant first. */
  function ToBigEndian(n: int, k: nat): (r: Bytes)
    ensures |r| == k
    decreases k
  {
    if k == 0 then [] else ToBigEndian(n / 256, k - 1) + [n % 256]
  }

  function FromBigEndian(b: Bytes): (n: nat)
    ensures n < Pow256(|b|)
  {
    if b == [] then 0 else
    var high: nat := FromBigEndian(b[..|b| - 1]);
    high * 256 + b[|b| - 1]
  }

  /** Reading what was written gives the number back, modulo the width. */
  lemma {:induction false} FromToBigEndian(n: int, k: nat)
    ensures FromBigEndian(ToBigEndian(n, k)) == n % Pow256(k)
    decreases k
  {
    if k > 0 {
      FromToBigEndian(n / 256, k - 1);
      var b := ToBigEndian(n, k);
      assert b[..k - 1] == ToBigEndian(n / 256, k - 1);
      ModDigit(n, Pow256(k - 1));
    }
  }

  /** Writing what was read gives the bytes back. */
  lemma {:induction false} BackToBigEndian(b: Bytes)
    ensures ToBigEndian(FromBigEndian(b), |b|) == b
    decreases |b|
  {
    if b != [] {
      var init := b[..|b| - 1];
      BackToBigEndian(init);
      var high: nat := FromBigEndian(init);
      DivModUnique(FromBigEndian(b), 256, high, b[|b| - 1]);
    }
  }

  /** Numbers that differ by the width have the same bytes. */
  lemma {:induction false} BigEndianPeriod(n: int, k: nat)
    ensures ToBigEndian(n - Pow256(k), k) == ToBigEndian(n, k)
    decreases k
  {
    if k > 0 {
      var p: int := Pow256(k - 1);
      DivModUnique(n - 256 * p, 256, n / 256 - p, n % 256);
      BigEndianPeriod(n / 256, k - 1);
    }
  }

  lemma ModDigit(n: int, p: nat)
    requires p >= 1
    ensures n % (256 * p) == n / 256 % p * 256 + n % 256
  {
    var q, r := n / 256, n % 256;
    var a, b := q / p, q % p;
    assert n == 256 * p * a + (b * 256 + r) by {
      assert q == p * a + b;
      assert n == 256 * q + r;
      assert 256 * (p * a) == 256 * p * a;
    }
    assert b * 256 + r < 256 * p;
    DivModUnique(n, 256 * p, a, b * 256 + r);
  }

  lemma DivModUnique(n: int, d: nat, q: int, r: int)
    requires d >= 1 && 0 <= r < d && n == d * q + r
    ensures n / d == q && n % d == r
  {
    var q' := n / d;
    assert n == d * q' + n % d;
    if q > q' {
      MultiplesApart(d, q, q');
    } else if q < q' {
      MultiplesApart(d, q', q);
    }
  }

  lemma SmallMod(n: nat, m: nat)
    requires n < m
    ensures n % m == n
  {}

  lemma MultiplesApart(d: nat, a: int, b: int)
    requires a > b
    ensures d * a >= d * b + d
  {
    assert d * a == d * b + d * (a - b);
    assert d * (a - b - 1) >= 0;
  }

  /** One byte of a big-endian number: `(n >> 8 * (k - 1 - i)) & 0xff`. */
  lemma {:induction false} ToBigEndianAt(n: int, k: nat, i: nat)
    requires i < k
    ensures ToBigEndian(n, k)[i] == n / Pow256(k - 1 - i) % 256
    decreases k
  {
    if i < k - 1 {
      ToBigEndianAt(n / 256, k - 1, i);
      DivDiv(n, Pow256(k - 2 - i));
    }
  }

  lemma DivDiv(n: int, p: nat)
    requires p >= 1
    ensures n / 256 / p == n / (256 * p)
  {
    var q, r := n / 256, n % 256;
    var a, b := q / p, q % p;
    assert q == p * a + b;
    assert 256 * (p * a) == 256 * p * a;
    DivModUnique(n, 256 * p, a, b * 256 + r);
  }

  /** The bytes of `part` stand in `v` from position `i` on. */
  predicate Holds(v: Bytes, i: nat, part: Bytes)
  {
    i + |part| <= |v| && v[i..i + |part|] == part
  }

  lemma HoldsLength(v: Bytes, i: nat, part: Bytes)
    requires Holds(v, i, part)
    ensures i + |part| <= |v|
  {}

  lemma HoldsParts(v: Bytes, i: nat, a: Bytes, b: Bytes)
    requires Holds(v, i, a + b)
    ensures Holds(v, i, a) && Holds(v, i + |a|, b)
  {
    var s := v[i..i + |a + b|];
    PartsOfConcat(a, b);
    assert v[i..i + |a|] == s[..|a|] && v[i + |a|..i + |a| + |b|] == s[|a|..];
  }

  lemma HoldsFirst(v: Bytes, i: nat, a: Bytes)
    requires Holds(v, i, a) && a != []
    ensures i < |v| && v[i] == a[0]
  {
    assert v[i..i + |a|][0] == v[i];
  }
}

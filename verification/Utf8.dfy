/** UTF-8 (RFC 3629) and `lexer::to_unicode`. */
module Utf8 {
  import opened ByteStrings
  import opened Wrappers
  import opened Sequences

  // ---------- well-formed byte sequences ----------

  predicate IsTail(c: Byte)
  {
    0x80 <= c <= 0xbf
  }

  /** The number of bytes that a first byte announces; 0 for bytes that start nothing. */
  function Announced(c: Byte): nat
  {
    if c <= 0x7f then 1
    else if 0xc2 <= c <= 0xdf then 2
    else if 0xe0 <= c <= 0xef then 3
    else if 0xf0 <= c <= 0xf4 then 4
    else 0
  }

  /** The second byte: some first bytes exclude overlong forms, surrogates or what is above U+10FFFF. */
  predicate SecondFits(first: Byte, second: Byte)
  {
    (if first == 0xe0 then 0xa0 else if first == 0xf0 then 0x90 else 0x80) <= second
      <= (if first == 0xed then 0x9f else if first == 0xf4 then 0x8f else 0xbf)
  }

  /** The length of the well-formed sequence at the front of a text (RFC 3629, section 4), or 0. */
  function SequenceLength(s: Bytes): (n: nat)
    ensures n <= 4 && n <= |s|
  {
    if s == [] then 0 else
    var n := Announced(s[0]);
    if
      && n <= |s|
      && (n > 1 ==> SecondFits(s[0], s[1]))
      && (n > 2 ==> IsTail(s[2]))
      && (n > 3 ==> IsTail(s[3]))
    then n else 0
  }

  predicate WellFormed(s: Bytes)
  {
    s == [] || (SequenceLength(s) > 0 && WellFormed(s[SequenceLength(s)..]))
  }

  /** The payload bits of two, three or four bytes. */
  function Two(a: int, b: int): int
  {
    (a - 0xc0) * 64 + (b - 0x80)
  }

  function Three(a: int, b: int, c: int): int
  {
    (a - 0xe0) * 4096 + (b - 0x80) * 64 + (c - 0x80)
  }

  function Four(a: int, b: int, c: int, d: int): int
  {
    (a - 0xf0) * 0x4_0000 + (b - 0x80) * 4096 + (c - 0x80) * 64 + (d - 0x80)
  }

  /** The code point of a sequence. */
  function CodePoint(s: Bytes): (cp: nat)
    requires SequenceLength(s) > 0
  {
    var n := SequenceLength(s);
    if n == 1 then s[0]
    else if n == 2 then Two(s[0], s[1])
    else if n == 3 then Three(s[0], s[1], s[2])
    else Four(s[0], s[1], s[2], s[3])
  }

  // ---------- to_unicode ----------

  /** A code point that is not a surrogate. */
  predicate IsScalar(cp: nat)
  {
    cp <= 0x10_ffff && !(0xd800 <= cp <= 0xdfff)
  }

  predicate IsHigh(cp: nat)
  {
    0xd800 <= cp <= 0xdbff
  }

  predicate IsLow(cp: nat)
  {
    0xdc00 <= cp <= 0xdfff
  }

  function Append(cp: nat): (r: Result<Bytes>)
    ensures r == Err(OutOfRange) <==> cp > 0x10_ffff
    ensures r.Ok? || r == Err(OutOfRange)
  {
    if cp < 0x80 then Ok([cp])
    else if cp <= 0x7ff then Ok([0xc0 + cp / 64 % 32, 0x80 + cp % 64])
    else if cp <= 0xffff then Ok([0xe0 + cp / 4096 % 16, 0x80 + cp / 64 % 64, 0x80 + cp % 64])
    else if cp <= 0x10_ffff then
      Ok([0xf0 + cp / 0x4_0000 % 8, 0x80 + cp / 4096 % 64, 0x80 + cp / 64 % 64, 0x80 + cp % 64])
    else Err(OutOfRange)
  }

  /** `to_unicode`: one code point, or a surrogate pair. */
  function ToUnicode(cp1: nat, cp2: nat := 0): Result<Bytes>
  {
    if IsHigh(cp1) then
      if IsLow(cp2) then Append(cp1 * 1024 + cp2 - 0x35f_dc00) else Err(InvalidArgument)
    else Append(cp1)
  }

  /** A scalar value is written as one well-formed sequence, from which it can be read back. */
  lemma ReadsBack(cp: nat)
    requires IsScalar(cp)
    ensures Append(cp).Ok?
    ensures var r := Append(cp).value; SequenceLength(r) == |r| && CodePoint(r) == cp
  {
    if cp >= 0x80 {
      if cp <= 0x7ff {
        TwoBytes(cp);
      } else if cp <= 0xffff {
        ThreeBytes(cp);
      } else {
        FourBytes(cp);
      }
    }
  }

  lemma Split(q: int, m: nat, r: nat)
    requires r < m
    ensures (q * m + r) / m == q && (q * m + r) % m == r
  {
    DivModUnique(q * m + r, m, q, r);
  }

  /** The payload bits of the bytes that are written. */
  lemma TwoBytes(cp: nat)
    requires 0x80 <= cp <= 0x7ff
    ensures 2 <= cp / 64 % 32 <= 31 && Two(0xc0 + cp / 64 % 32, 0x80 + cp % 64) == cp
  {}

  lemma ThreeBytes(cp: nat)
    requires 0x800 <= cp <= 0xffff
    ensures cp / 4096 % 16 == cp / 4096 && Three(0xe0 + cp / 4096, 0x80 + cp / 64 % 64, 0x80 + cp % 64) == cp
    ensures cp / 4096 == 0 ==> cp / 64 % 64 >= 32
    ensures cp / 4096 == 13 ==> (cp / 64 % 64 >= 32 <==> 0xd800 <= cp <= 0xdfff)
  {
    assert cp / 4096 == cp / 64 / 64;
  }

  lemma FourBytes(cp: nat)
    requires 0x1_0000 <= cp <= 0x10_ffff
    ensures cp / 0x4_0000 % 8 == cp / 0x4_0000 <= 4
    ensures Four(0xf0 + cp / 0x4_0000, 0x80 + cp / 4096 % 64, 0x80 + cp / 64 % 64, 0x80 + cp % 64) == cp
    ensures cp / 0x4_0000 == 0 ==> cp / 4096 % 64 >= 16
    ensures cp / 0x4_0000 == 4 ==> cp / 4096 % 64 <= 15
  {
    assert cp / 4096 == cp / 64 / 64 && cp / 0x4_0000 == cp / 64 / 64 / 64;
  }

  lemma ThreeWritten(a: int, b: int, c: int)
    requires 0xe0 <= a <= 0xef && 0x80 <= b <= 0xbf && 0x80 <= c <= 0xbf
    ensures var cp := Three(a, b, c);
      0xe0 + cp / 4096 % 16 == a && 0x80 + cp / 64 % 64 == b && 0x80 + cp % 64 == c
  {
    var x, y, z := a - 0xe0, b - 0x80, c - 0x80;
    Split(x * 64 + y, 64, z);
    Split(x, 64, y);
    Split(x, 4096, y * 64 + z);
  }

  lemma FourWritten(a: int, b: int, c: int, d: int)
    requires 0xf0 <= a <= 0xf7 && 0x80 <= b <= 0xbf && 0x80 <= c <= 0xbf && 0x80 <= d <= 0xbf
    ensures var cp := Four(a, b, c, d);
      0xf0 + cp / 0x4_0000 % 8 == a && 0x80 + cp / 4096 % 64 == b && 0x80 + cp / 64 % 64 == c && 0x80 + cp % 64 == d
  {
    var w, x, y, z := a - 0xf0, b - 0x80, c - 0x80, d - 0x80;
    Split(w * 4096 + x * 64 + y, 64, z);
    Split(w * 64 + x, 64, y);
    Split(w * 64 + x, 4096, y * 64 + z);
    Split(w, 64, x);
    Split(w, 0x4_0000, x * 4096 + y * 64 + z);
  }

  /** Every well-formed sequence is what `to_unicode` writes for its code point. */
  lemma WritesBack(s: Bytes)
    requires SequenceLength(s) > 0
    ensures IsScalar(CodePoint(s)) && Append(CodePoint(s)) == Ok(s[..SequenceLength(s)])
  {
    hide WellFormed;
    var n := SequenceLength(s);
    var r := s[..n];
    if n == 1 {
      assert r == [s[0]];
    } else if n == 2 {
      assert r == [s[0], s[1]];
    } else if n == 3 {
      assert r == [s[0], s[1], s[2]];
      ThreeWritten(s[0], s[1], s[2]);
    } else {
      assert r == [s[0], s[1], s[2], s[3]];
      FourWritten(s[0], s[1], s[2], s[3]);
    }
  }

  lemma AppendIsInjective(cp: nat, cp': nat)
    requires IsScalar(cp) && IsScalar(cp') && Append(cp) == Append(cp')
    ensures cp == cp'
  {
    ReadsBack(cp);
    ReadsBack(cp');
  }

  // ---------- the shortest form ----------

  /** A number spread over one to four bytes by the bit pattern of UTF-8, overlong or not. */
  predicate Spread(s: Bytes, cp: nat)
  {
    match |s|
    case 1 => s[0] <= 0x7f && cp == s[0]
    case 2 => 0xc0 <= s[0] <= 0xdf && IsTail(s[1]) && cp == Two(s[0], s[1])
    case 3 => 0xe0 <= s[0] <= 0xef && IsTail(s[1]) && IsTail(s[2]) && cp == Three(s[0], s[1], s[2])
    case 4 =>
      0xf0 <= s[0] <= 0xf7 && IsTail(s[1]) && IsTail(s[2]) && IsTail(s[3]) && cp == Four(s[0], s[1], s[2], s[3])
    case _ => false
  }

  /** What is written is the only shortest byte pattern that holds the code point. */
  lemma ShortestForm(s: Bytes, cp: nat)
    requires IsScalar(cp) && Spread(s, cp)
    ensures Append(cp).Ok? && |Append(cp).value| <= |s|
    ensures |Append(cp).value| == |s| ==> Append(cp).value == s
  {
    var r := Append(cp).value;
    if |r| == |s| {
      if |s| == 3 {
        ThreeWritten(s[0], s[1], s[2]);
      } else if |s| == 4 {
        FourWritten(s[0], s[1], s[2], s[3]);
      }
      assert forall i :: 0 <= i < |s| ==> r[i] == s[i];
    }
  }

  // ---------- surrogate pairs ----------

  function PairValue(high: nat, low: nat): int
  {
    high * 1024 + low - 0x35f_dc00
  }

  /** Surrogate pairs stand one to one for U+10000 to U+10FFFF (RFC 2781, section 2.2). */
  lemma PairsAreSupplementary(high: nat, low: nat)
    requires IsHigh(high) && IsLow(low)
    ensures 0x1_0000 <= PairValue(high, low) <= 0x10_ffff
    ensures ToUnicode(high, low) == Append(PairValue(high, low)) && ToUnicode(high, low).Ok?
    ensures high == 0xd800 + (PairValue(high, low) - 0x1_0000) / 1024
    ensures low == 0xdc00 + (PairValue(high, low) - 0x1_0000) % 1024
  {}

  lemma EverySupplementaryHasAPair(cp: nat) returns (high: nat, low: nat)
    requires 0x1_0000 <= cp <= 0x10_ffff
    ensures IsHigh(high) && IsLow(low) && ToUnicode(high, low) == Append(cp)
  {
    high, low := 0xd800 + (cp - 0x1_0000) / 1024, 0xdc00 + (cp - 0x1_0000) % 1024;
    assert PairValue(high, low) == cp;
  }

  // ---------- texts ----------

  /** One sequence in front of a well-formed text. */
  lemma SequenceExtends(u: Bytes, s: Bytes)
    requires SequenceLength(u) == |u| > 0
    ensures SequenceLength(u + s) == |u|
  {}

  lemma WellFormedPrepend(u: Bytes, s: Bytes)
    requires SequenceLength(u) == |u| > 0 && WellFormed(s)
    ensures WellFormed(u + s)
  {
    SequenceExtends(u, s);
    PartsOfConcat(u, s);
  }
}

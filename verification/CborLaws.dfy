/** What `to_cbor` and `from_cbor` promise together. */
module CborLaws {
  import opened ByteStrings
  import opened Wrappers
  import opened Sequences
  import opened JsonValues
  import opened Compare
  import opened Floats
  import opened Binary
  import opened Cbor

  /** `from_cbor(to_cbor(j))` is equal to `j`, whatever bytes follow, and nothing of them is consumed. */
  lemma RoundTrip(j: Json, rest: Bytes)
    requires |Encode(j) + rest| <= MAX_SIZE
    ensures var r := Decode(Encode(j) + rest, 0);
      r == Ok(Read(Normal(j), |Encode(j)|)) && Eq(r.value.value, j)
  {
    PartsOfConcat(Encode(j), rest);
    DecodeOfEncode(Encode(j) + rest, 0, j);
    NormalIsEqual(j);
  }

  /** No encoding is a prefix of another one, unless the values differ only in signed or unsigned storage. */
  lemma PrefixFree(a: Json, b: Json)
    requires |Encode(b)| <= MAX_SIZE && Encode(a) <= Encode(b)
    ensures Encode(a) == Encode(b) && Normal(a) == Normal(b) && Eq(a, b)
  {
    hide Encode, Decode, Normal, Eq;
    var rest := Encode(b)[|Encode(a)|..];
    Parts(Encode(b), |Encode(a)|);
    assert Encode(b)[..|Encode(a)|] == Encode(a);
    RoundTrip(a, rest);
    RightUnit(Encode(b));
    RoundTrip(b, []);
    SameNormalIsEqual(a, b);
    EncodeIgnoresStorage(a);
    EncodeIgnoresStorage(b);
  }

  /** Storage does not show in the encoding. */
  lemma {:induction false} EncodeIgnoresStorage(j: Json)
    ensures Encode(Normal(j)) == Encode(j)
    decreases j, 0
  {
    hide Head;
    match j
    case Arr(es) => ElemsIgnoreStorage(es);
    case Obj(ms) => MembersIgnoreStorage(ms, 0);
    case _ =>
  }

  lemma {:induction false} ElemsIgnoreStorage(es: seq<Json>)
    ensures EncodeElems(Normals(es)) == EncodeElems(es)
    decreases es, 1
  {
    if es != [] {
      NormalsFirst(es);
      EncodeIgnoresStorage(es[0]);
      ElemsIgnoreStorage(es[1..]);
      ConsTail(Normal(es[0]), Normals(es[1..]));
    }
  }

  lemma {:induction false} MembersIgnoreStorage(ms: Members<Json>, i: nat)
    requires i <= |ms|
    ensures EncodeMembers(NormalMembers(ms)[i..]) == EncodeMembers(ms[i..])
    decreases ms, |ms| - i
  {
    if i < |ms| {
      var ns := NormalMembers(ms);
      DropStep(ms, i);
      DropStep(ns, i);
      EncodeIgnoresStorage(ms[i].value);
      assert EncodeMember(ns[i]) == EncodeMember(ms[i]);
      MembersIgnoreStorage(ms, i + 1);
    }
  }

  /** Two values have the same encoding exactly when they differ at most in signed or unsigned storage. */
  lemma SameEncoding(a: Json, b: Json)
    requires |Encode(a)| <= MAX_SIZE && |Encode(b)| <= MAX_SIZE
    ensures Encode(a) == Encode(b) <==> Normal(a) == Normal(b)
  {
    EncodeIgnoresStorage(a);
    EncodeIgnoresStorage(b);
    if Encode(a) == Encode(b) {
      PrefixFree(a, b);
    }
  }

  // ---------- the shortest form ----------

  /**
   A head as RFC 7049, section 2, lays it out: three bits of major type and five of additional information, which
   are the argument itself up to 23 and otherwise announce one, two, four or eight bytes with the argument.
   */
  lemma HeadFormat(major: nat, n: UInt64)
    requires major < 8
    ensures var r := Head(32 * major, n);
      var info := r[0] % 32;
      && r[0] / 32 == major
      && (info < 24 ==> |r| == 1 && n == info)
      && (info >= 24 ==> info <= 27 && |r[1..]| == Width(info - 24) && FromBigEndian(r[1..]) == n)
  {
    hide ToBigEndian, FromBigEndian, Pow256;
    if n > 0x17 {
      Powers();
      var k := if n <= 0xff then 0 else if n <= 0xffff then 1 else if n <= 0xffff_ffff then 2 else 3;
      ConsTail(Head(32 * major, n)[0], ToBigEndian(n, Width(k)));
      FromToBigEndian(n, Width(k));
      SmallMod(n, Pow256(Width(k)));
    }
  }

  /** Whatever head the decoder accepts for an argument, the encoder's is not longer. */
  lemma HeadIsShortest(v: Bytes, current: nat, low: nat, base: Byte)
    requires current < |v| && low < 0x1c && base <= 0xe0 && ReadArgument(v, current, low).Ok?
    ensures var r := ReadArgument(v, current, low).value; |Head(base, r.value)| <= r.next - current
  {
    Powers();
  }

  /** No encoding that the decoder accepts for an integer is shorter than the encoder's. */
  lemma IntegerIsShortest(v: Bytes, idx: nat, j: Json, next: nat)
    requires idx <= |v| <= MAX_SIZE && (j.Int? || j.UInt?) && Decode(v, idx) == Ok(Read(j, next))
    ensures |Encode(j)| <= next - idx
  {
    hide ReadArgument, Head;
    var b: int := v[idx];
    if b < 0x1c {
      HeadIsShortest(v, idx, b, 0x00);
    } else if 0x20 <= b < 0x3c {
      NegativeIsShortest(v, idx, b, j, next);
    }
  }

  lemma NegativeIsShortest(v: Bytes, idx: nat, b: int, j: Json, next: nat)
    requires idx < |v| <= MAX_SIZE && v[idx] == b && 0x20 <= b < 0x3c && Decode(v, idx) == Ok(Read(j, next))
    ensures |Encode(j)| <= next - idx
  {
    hide GetFromVector;
    HeadIsShortest(v, idx, b - 0x20, 0x20);
    Powers();
  }

  // ---------- floating point ----------

  /** A finite half-precision number is widened exactly: mant * 2^-24, or (mant + 1024) * 2^(exp - 25). */
  lemma HalfIsExact(half: nat)
    requires half < 0x1_0000 && half / 0x400 % 32 != 31
    ensures FromHalf(half).Float?
    ensures var e, m := half / 0x400 % 32, half % 0x400;
      DoubleValue(FromHalf(half).bits) ==
        Scale(Signed(half >= 0x8000, if e == 0 then m else m + 1024), if e == 0 then -24 else e - 25)
    ensures FromHalf(half).bits[0] >= 128 <==> half >= 0x8000
  {
    hide Widen, DoubleValue, Scale, BiasedExponent, Fraction, Log2, Shifted, Signed;
    var negative, e, m := half >= 0x8000, half / 0x400 % 32, half % 0x400;
    if e == 0 {
      WidenIsExact(negative, m, -24, Widen(negative, m, -24));
      WidenFields(negative, m, -24);
    } else {
      WidenIsExact(negative, m + 0x400, e - 25, Widen(negative, m + 0x400, e - 25));
      WidenFields(negative, m + 0x400, e - 25);
    }
  }

  /** A finite single-precision number is widened exactly: IEEE 754 binary32. */
  lemma SingleIsExact(bits: Bytes)
    requires |bits| == 4 && FromBigEndian(bits) / 0x80_0000 % 256 != 255
    ensures FromSingle(bits).Float?
    ensures var n := FromBigEndian(bits);
      var e, m := n / 0x80_0000 % 256, n % 0x80_0000;
      DoubleValue(FromSingle(bits).bits) ==
        Scale(Signed(n >= 0x8000_0000, if e == 0 then m else m + 0x80_0000), if e == 0 then -149 else e - 150)
    ensures FromSingle(bits).bits[0] >= 128 <==> FromBigEndian(bits) >= 0x8000_0000
  {
    hide Widen, DoubleValue, Scale, FromBigEndian, BiasedExponent, Fraction, Log2, Shifted, Signed;
    var n := FromBigEndian(bits);
    var negative, e: int, m := n >= 0x8000_0000, n / 0x80_0000 % 256, n % 0x80_0000;
    if e == 0 {
      WidenIsExact(negative, m, -149, Widen(negative, m, -149));
      WidenFields(negative, m, -149);
    } else {
      WidenIsExact(negative, m + 0x80_0000, e - 150, Widen(negative, m + 0x80_0000, e - 150));
      WidenFields(negative, m + 0x80_0000, e - 150);
    }
  }

  /** Infinities and NaN, whose exponent is all ones, become null. */
  lemma NotFiniteIsNull(half: nat, single: Bytes, double: Bytes)
    requires half < 0x1_0000 && |single| == 4 && |double| == 8
    ensures half / 0x400 % 32 == 31 <==> FromHalf(half) == Null
    ensures FromBigEndian(single) / 0x80_0000 % 256 == 255 <==> FromSingle(single) == Null
    ensures FromDouble(double) == if double[0] % 128 == 127 && double[1] >= 240 then Null else Float(double)
  {
    hide Widen, FromBigEndian;
  }

  // ---------- more bytes ----------

  lemma ArgumentExtends(v: Bytes, w: Bytes, current: nat, low: nat)
    requires current < |v| && low < 0x1c
    ensures ReadArgument(v, current, low) == Err(OutOfRange)
      || ReadArgument(v + w, current, low) == ReadArgument(v, current, low)
  {
    if low > 0x17 {
      var width := if low == 0x18 then 1 else if low == 0x19 then 2 else if low == 0x1a then 4 else 8;
      if current + 1 + width <= |v| {
        SliceOfConcat(v, w, current + 1, current + 1 + width);
      }
    }
  }

  lemma SimpleExtends(v: Bytes, w: Bytes, idx: nat, b: int)
    requires idx < |v|
    ensures DecodeSimple(v, idx, b) == Err(OutOfRange) || DecodeSimple(v + w, idx, b) == DecodeSimple(v, idx, b)
  {
    hide FromHalf, FromSingle, FromDouble;
    var k := if b == 0xf9 then 2 else if b == 0xfa then 4 else if b == 0xfb then 8 else 0;
    if idx + 1 + k <= |v| {
      SliceOfConcat(v, w, idx + 1, idx + 1 + k);
    }
  }

  /** More bytes at the end change nothing but an out-of-range error. */
  lemma {:induction false} DecodeExtends(v: Bytes, w: Bytes, idx: nat)
    requires idx <= |v| && |v + w| <= MAX_SIZE
    ensures Decode(v, idx) == Err(OutOfRange) || Decode(v + w, idx) == Decode(v, idx)
    decreases |v| - idx, 0
  {
    hide ReadArgument, ReadString, DecodeSimple, DecodeChunks, DecodeElems, DecodeElemsToBreak, DecodeMembers,
      DecodeMembersToBreak;
    if idx < |v| {
      var b: int := v[idx];
      assert (v + w)[idx] == b;
      if b < 0x1c {
        ArgumentExtends(v, w, idx, b);
      } else if 0x20 <= b < 0x3c {
        ArgumentExtends(v, w, idx, b - 0x20);
      } else if 0x60 <= b < 0x7c {
        ArgumentExtends(v, w, idx, b - 0x60);
        var n := ReadArgument(v, idx, b - 0x60);
        if n.Ok? {
          StringExtends(v, w, n.value.next, n.value.value);
        }
      } else if b == 0x7f {
        ChunksExtend(v, w, idx + 1, []);
      } else if 0x80 <= b < 0x9c {
        ArgumentExtends(v, w, idx, b - 0x80);
        var n := ReadArgument(v, idx, b - 0x80);
        if n.Ok? {
          ElemsExtend(v, w, n.value.next, n.value.value, []);
        }
      } else if b == 0x9f {
        ElemsToBreakExtend(v, w, idx + 1, []);
      } else if 0xa0 <= b < 0xbc {
        ArgumentExtends(v, w, idx, b - 0xa0);
        var n := ReadArgument(v, idx, b - 0xa0);
        if n.Ok? {
          MembersExtend(v, w, n.value.next, n.value.value, []);
        }
      } else if b == 0xbf {
        MembersToBreakExtend(v, w, idx + 1, []);
      } else {
        SimpleExtends(v, w, idx, b);
      }
    }
  }

  lemma {:induction false} ChunksExtend(v: Bytes, w: Bytes, idx: nat, done: Bytes)
    requires idx <= |v| && |v + w| <= MAX_SIZE
    ensures DecodeChunks(v, idx, done) == Err(OutOfRange)
      || DecodeChunks(v + w, idx, done) == DecodeChunks(v, idx, done)
    decreases |v| - idx, 1
  {
    hide Decode, AsString;
    if idx < |v| {
      assert (v + w)[idx] == v[idx];
      DecodeExtends(v, w, idx);
      var x := Decode(v, idx);
      if v[idx] != 0xff && x.Ok? && AsString(x.value.value).Ok? {
        ChunksExtend(v, w, x.value.next, done + AsString(x.value.value).value);
      }
    }
  }

  lemma {:induction false} ElemsExtend(v: Bytes, w: Bytes, idx: nat, n: nat, done: seq<Json>)
    requires idx <= |v| && |v + w| <= MAX_SIZE
    ensures DecodeElems(v, idx, n, done) == Err(OutOfRange)
      || DecodeElems(v + w, idx, n, done) == DecodeElems(v, idx, n, done)
    decreases |v| - idx, 1
  {
    hide Decode;
    if n > 0 {
      DecodeExtends(v, w, idx);
      var x := Decode(v, idx);
      if x.Ok? {
        ElemsExtend(v, w, x.value.next, n - 1, done + [x.value.value]);
      }
    }
  }

  lemma {:induction false} ElemsToBreakExtend(v: Bytes, w: Bytes, idx: nat, done: seq<Json>)
    requires idx <= |v| && |v + w| <= MAX_SIZE
    ensures DecodeElemsToBreak(v, idx, done) == Err(OutOfRange)
      || DecodeElemsToBreak(v + w, idx, done) == DecodeElemsToBreak(v, idx, done)
    decreases |v| - idx, 1
  {
    hide Decode;
    if idx < |v| {
      assert (v + w)[idx] == v[idx];
      DecodeExtends(v, w, idx);
      var x := Decode(v, idx);
      if v[idx] != 0xff && x.Ok? {
        ElemsToBreakExtend(v, w, x.value.next, done + [x.value.value]);
      }
    }
  }

  lemma {:induction false} MemberExtends(v: Bytes, w: Bytes, idx: nat, done: Members<Json>)
    requires idx <= |v| && |v + w| <= MAX_SIZE
    ensures DecodeMember(v, idx, done) == Err(OutOfRange)
      || DecodeMember(v + w, idx, done) == DecodeMember(v, idx, done)
    decreases |v| - idx, 1
  {
    hide Decode, AsString, Insert;
    DecodeExtends(v, w, idx);
    var k := Decode(v, idx);
    if k.Ok? {
      DecodeExtends(v, w, k.value.next);
    }
  }

  lemma {:induction false} MembersExtend(v: Bytes, w: Bytes, idx: nat, n: nat, done: Members<Json>)
    requires idx <= |v| && |v + w| <= MAX_SIZE
    ensures DecodeMembers(v, idx, n, done) == Err(OutOfRange)
      || DecodeMembers(v + w, idx, n, done) == DecodeMembers(v, idx, n, done)
    decreases |v| - idx, 2
  {
    hide DecodeMember;
    if n > 0 {
      MemberExtends(v, w, idx, done);
      var m := DecodeMember(v, idx, done);
      if m.Ok? {
        MembersExtend(v, w, m.value.next, n - 1, m.value.value);
      }
    }
  }

  lemma {:induction false} MembersToBreakExtend(v: Bytes, w: Bytes, idx: nat, done: Members<Json>)
    requires idx <= |v| && |v + w| <= MAX_SIZE
    ensures DecodeMembersToBreak(v, idx, done) == Err(OutOfRange)
      || DecodeMembersToBreak(v + w, idx, done) == DecodeMembersToBreak(v, idx, done)
    decreases |v| - idx, 2
  {
    hide DecodeMember;
    if idx < |v| {
      assert (v + w)[idx] == v[idx];
      MemberExtends(v, w, idx, done);
      var m := DecodeMember(v, idx, done);
      if v[idx] != 0xff && m.Ok? {
        MembersToBreakExtend(v, w, m.value.next, m.value.value);
      }
    }
  }

  /** An encoding that ends prematurely is always reported as such. */
  lemma TruncatedIsOutOfRange(j: Json, k: nat)
    requires |Encode(j)| <= MAX_SIZE && k < |Encode(j)|
    ensures Decode(Encode(j)[..k], 0) == Err(OutOfRange)
  {
    Parts(Encode(j), k);
    DecodeExtends(Encode(j)[..k], Encode(j)[k..], 0);
    RightUnit(Encode(j));
    RoundTrip(j, []);
  }
}

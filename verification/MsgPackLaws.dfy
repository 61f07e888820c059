/** What `to_msgpack` and `from_msgpack` promise together, and for which values the promise holds. */
module MsgPackLaws {
  import opened ByteStrings
  import opened Wrappers
  import opened Sequences
  import opened JsonValues
  import opened Compare
  import opened Binary
  import opened MsgPack

  /**
   For values that fit: decoding gives a value equal to `j`, whatever bytes follow, and consumes exactly its bytes.
   */
  lemma RoundTrip(j: Json, rest: Bytes)
    requires Fits(j) && |Encode(j) + rest| <= MAX_SIZE
    ensures var r := Decode(Encode(j) + rest, 0);
      r == Ok(Read(Normal(j), |Encode(j)|)) && Eq(r.value.value, j)
  {
    hide Encode, Decode, Normal, Eq, Fits;
    PartsOfConcat(Encode(j), rest);
    DecodeOfEncode(Encode(j) + rest, 0, j);
    NormalIsEqual(j);
  }

  /** The round trip holds exactly when every string, key, array and object has a length of at most 2^32 - 1. */
  lemma {:induction false} RoundTripExactly(j: Json, rest: Bytes)
    requires |Encode(j) + rest| <= MAX_SIZE
    ensures var r := Decode(Encode(j) + rest, 0); (r.Ok? && Eq(r.value.value, j)) <==> Fits(j)
  {
    hide Encode, Decode, Normal, Eq, Fits;
    var r := Decode(Encode(j) + rest, 0);
    if r.Ok? && Eq(r.value.value, j) {
      DecodedFits(Encode(j) + rest, 0);
      EqualFits(r.value.value, j);
    }
    if Fits(j) {
      RoundTrip(j, rest);
    }
  }

  lemma {:induction false} EqualFits(a: Json, b: Json)
    requires Eq(a, b) && Fits(a)
    ensures Fits(b)
  {
    match a
    case Arr(es) =>
      forall i | 0 <= i < |es|
        ensures Fits(b.elems[i])
      {
        EqualFits(es[i], b.elems[i]);
      }
    case Obj(ms) =>
      forall i | 0 <= i < |ms|
        ensures |b.members[i].key| <= MAX_LENGTH && Fits(b.members[i].value)
      {
        assert ms[i].key == b.members[i].key;
        EqualFits(ms[i].value, b.members[i].value);
      }
    case _ =>
  }

  // ---------- what the decoder can return ----------

  predicate ElemsFit(es: seq<Json>)
  {
    forall i | 0 <= i < |es| :: Fits(es[i])
  }

  predicate MembersFit(ms: seq<Member<Json>>)
  {
    forall i | 0 <= i < |ms| :: |ms[i].key| <= MAX_LENGTH && Fits(ms[i].value)
  }

  /** No head announces more than 2^32 - 1 bytes, elements or members. */
  lemma {:induction false} DecodedFits(v: Bytes, idx: nat)
    requires idx <= |v| <= MAX_SIZE && Decode(v, idx).Ok?
    ensures Fits(Decode(v, idx).value.value)
    decreases |v| - idx, 0
  {
    hide ReadNumber, DecodeSimple, DecodeInteger, DecodeElems, DecodeMembers;
    Powers();
    var b: int := v[idx];
    if 0x80 <= b <= 0x8f {
      DecodedMembersFit(v, idx + 1, b - 0x80, []);
    } else if 0x90 <= b <= 0x9f {
      DecodedElemsFit(v, idx + 1, b - 0x90, []);
    } else if 0xcc <= b <= 0xd3 {
      IntegerFits(v, idx, b);
    } else if 0xdc <= b <= 0xdd {
      var n := ReadNumber(v, idx, b - 0xdb).value;
      DecodedElemsFit(v, n.next, n.value, []);
    } else if 0xde <= b <= 0xdf {
      var n := ReadNumber(v, idx, b - 0xdd).value;
      DecodedMembersFit(v, n.next, n.value, []);
    } else if b == 0xc0 || b == 0xc2 || b == 0xc3 || b == 0xca || b == 0xcb {
      SimpleFits(v, idx, b);
    } else if b < 0xe0 && !(0xa0 <= b <= 0xbf) && !(0xd9 <= b <= 0xdb) && b > 0x7f {
      SimpleFits(v, idx, b);
    }
  }

  lemma IntegerFits(v: Bytes, idx: nat, b: int)
    requires idx < |v| && 0xcc <= b <= 0xd3 && DecodeInteger(v, idx, b).Ok?
    ensures Fits(DecodeInteger(v, idx, b).value.value)
  {}

  lemma SimpleFits(v: Bytes, idx: nat, b: int)
    requires idx < |v| && DecodeSimple(v, idx, b).Ok?
    ensures Fits(DecodeSimple(v, idx, b).value.value)
  {}

  lemma {:induction false} DecodedElemsFit(v: Bytes, idx: nat, n: nat, done: seq<Json>)
    requires idx <= |v| <= MAX_SIZE && ElemsFit(done) && DecodeElems(v, idx, n, done).Ok?
    ensures var es := DecodeElems(v, idx, n, done).value.value; ElemsFit(es) && |es| == |done| + n
    decreases |v| - idx, 1
  {
    hide Decode, Fits;
    if n > 0 {
      DecodedFits(v, idx);
      var x := Decode(v, idx).value;
      DecodedElemsFit(v, x.next, n - 1, done + [x.value]);
    }
  }

  lemma {:induction false} DecodedMemberFits(v: Bytes, idx: nat, done: Members<Json>)
    requires idx <= |v| <= MAX_SIZE && MembersFit(done) && DecodeMember(v, idx, done).Ok?
    ensures var ms := DecodeMember(v, idx, done).value.value; MembersFit(ms) && |ms| <= |done| + 1
    decreases |v| - idx, 1
  {
    hide Decode, Fits, LowerBound;
    DecodedFits(v, idx);
    var k := Decode(v, idx).value;
    DecodedFits(v, k.next);
    KeyFits(k.value);
  }

  lemma KeyFits(j: Json)
    requires Fits(j) && AsString(j).Ok?
    ensures |AsString(j).value| <= MAX_LENGTH
  {}

  lemma {:induction false} DecodedMembersFit(v: Bytes, idx: nat, n: nat, done: Members<Json>)
    requires idx <= |v| <= MAX_SIZE && MembersFit(done) && DecodeMembers(v, idx, n, done).Ok?
    ensures var ms := DecodeMembers(v, idx, n, done).value.value; MembersFit(ms) && |ms| <= |done| + n
    decreases |v| - idx, 2
  {
    hide DecodeMember, Fits;
    if n > 0 {
      DecodedMemberFits(v, idx, done);
      var m := DecodeMember(v, idx, done).value;
      DecodedMembersFit(v, m.next, n - 1, m.value);
    }
  }

  // ---------- prefixes ----------

  /** Among values that fit, no encoding is a prefix of another one, up to signed or unsigned storage. */
  lemma PrefixFree(a: Json, b: Json)
    requires Fits(a) && Fits(b) && |Encode(b)| <= MAX_SIZE && Encode(a) <= Encode(b)
    ensures |Encode(a)| == |Encode(b)| && Normal(a) == Normal(b) && Eq(a, b)
  {
    hide Encode, Decode, Normal, Eq, Fits;
    var rest := Encode(b)[|Encode(a)|..];
    Parts(Encode(b), |Encode(a)|);
    assert Encode(b)[..|Encode(a)|] == Encode(a);
    RoundTrip(a, rest);
    RightUnit(Encode(b));
    RoundTrip(b, []);
    SameNormalIsEqual(a, b);
  }

  /** No encoding that the decoder accepts for an integer is shorter than the encoder's. */
  lemma IntegerIsShortest(v: Bytes, idx: nat, j: Json, next: nat)
    requires idx <= |v| <= MAX_SIZE && (j.Int? || j.UInt?) && Decode(v, idx) == Ok(Read(j, next))
    ensures |Encode(j)| <= next - idx
  {
    hide GetFromVector, ToBigEndian;
    Powers();
  }

  // ---------- more bytes ----------

  lemma NumberExtends(v: Bytes, w: Bytes, current: nat, log: nat)
    requires current < |v|
    ensures ReadNumber(v, current, log) == Err(OutOfRange)
      || ReadNumber(v + w, current, log) == ReadNumber(v, current, log)
  {
    if current + 1 + Width(log) <= |v| {
      SliceOfConcat(v, w, current + 1, current + 1 + Width(log));
    }
  }

  lemma SimpleExtends(v: Bytes, w: Bytes, idx: nat, b: int)
    requires idx < |v|
    ensures DecodeSimple(v, idx, b) == Err(OutOfRange) || DecodeSimple(v + w, idx, b) == DecodeSimple(v, idx, b)
  {
    hide FromSingle, FromDouble;
    var k := if b == 0xca then 4 else if b == 0xcb then 8 else 0;
    if idx + 1 + k <= |v| {
      SliceOfConcat(v, w, idx + 1, idx + 1 + k);
    }
  }

  lemma IntegerExtends(v: Bytes, w: Bytes, idx: nat, b: int)
    requires idx < |v| && 0xcc <= b <= 0xd3
    ensures DecodeInteger(v, idx, b) == Err(OutOfRange) || DecodeInteger(v + w, idx, b) == DecodeInteger(v, idx, b)
  {
    hide ReadNumber, SignedOf;
    NumberExtends(v, w, idx, if b <= 0xcf then b - 0xcc else b - 0xd0);
  }

  /** More bytes at the end change nothing but an out-of-range error. */
  lemma {:induction false} DecodeExtends(v: Bytes, w: Bytes, idx: nat)
    requires idx <= |v| && |v + w| <= MAX_SIZE
    ensures Decode(v, idx) == Err(OutOfRange) || Decode(v + w, idx) == Decode(v, idx)
    decreases |v| - idx, 0
  {
    hide ReadNumber, ReadString, DecodeSimple, DecodeInteger, DecodeElems, DecodeMembers;
    if idx < |v| {
      var b: int := v[idx];
      assert (v + w)[idx] == b;
      if 0x80 <= b <= 0x8f {
        MembersExtend(v, w, idx + 1, b - 0x80, []);
      } else if 0x90 <= b <= 0x9f {
        ElemsExtend(v, w, idx + 1, b - 0x90, []);
      } else if 0xa0 <= b <= 0xbf {
        StringExtends(v, w, idx + 1, b - 0xa0);
      } else if 0xcc <= b <= 0xd3 {
        IntegerExtends(v, w, idx, b);
      } else if 0xd9 <= b <= 0xdb {
        NumberExtends(v, w, idx, b - 0xd9);
        var n := ReadNumber(v, idx, b - 0xd9);
        if n.Ok? {
          StringExtends(v, w, n.value.next, n.value.value);
        }
      } else if 0xdc <= b <= 0xdd {
        NumberExtends(v, w, idx, b - 0xdb);
        var n := ReadNumber(v, idx, b - 0xdb);
        if n.Ok? {
          ElemsExtend(v, w, n.value.next, n.value.value, []);
        }
      } else if 0xde <= b <= 0xdf {
        NumberExtends(v, w, idx, b - 0xdd);
        var n := ReadNumber(v, idx, b - 0xdd);
        if n.Ok? {
          MembersExtend(v, w, n.value.next, n.value.value, []);
        }
      } else {
        SimpleExtends(v, w, idx, b);
      }
    }
  }

  lemma {:induction false} ElemsExtend(v: Bytes, w: Bytes, idx: nat, n: nat, done: seq<Json>)
    requires idx <= |v| && |v + w| <= MAX_SIZE
    ensures DecodeElems(v, idx, n, done) == Err(OutOfRange)
      || DecodeElems(v + w, idx, n, done) == DecodeElems(v, idx, n, done)
    decreases |v| - idx, 1
  {
    hide Decode;
    if n > 0 {
      DecodeExtends(v, w, idx);
      var x := Decode(v, idx);
      if x.Ok? {
        ElemsExtend(v, w, x.value.next, n - 1, done + [x.value.value]);
      }
    }
  }

  lemma {:induction false} MemberExtends(v: Bytes, w: Bytes, idx: nat, done: Members<Json>)
    requires idx <= |v| && |v + w| <= MAX_SIZE
    ensures DecodeMember(v, idx, done) == Err(OutOfRange)
      || DecodeMember(v + w, idx, done) == DecodeMember(v, idx, done)
    decreases |v| - idx, 1
  {
    hide Decode, AsString, Insert;
    DecodeExtends(v, w, idx);
    var k := Decode(v, idx);
    if k.Ok? {
      DecodeExtends(v, w, k.value.next);
    }
  }

  lemma {:induction false} MembersExtend(v: Bytes, w: Bytes, idx: nat, n: nat, done: Members<Json>)
    requires idx <= |v| && |v + w| <= MAX_SIZE
    ensures DecodeMembers(v, idx, n, done) == Err(OutOfRange)
      || DecodeMembers(v + w, idx, n, done) == DecodeMembers(v, idx, n, done)
    decreases |v| - idx, 2
  {
    hide DecodeMember;
    if n > 0 {
      MemberExtends(v, w, idx, done);
      var m := DecodeMember(v, idx, done);
      if m.Ok? {
        MembersExtend(v, w, m.value.next, n - 1, m.value.value);
      }
    }
  }

  /** An encoding that ends prematurely is always reported as such. */
  lemma TruncatedIsOutOfRange(j: Json, k: nat)
    requires Fits(j) && |Encode(j)| <= MAX_SIZE && k < |Encode(j)|
    ensures Decode(Encode(j)[..k], 0) == Err(OutOfRange)
  {
    hide Encode, Decode, Normal, Eq, Fits;
    Parts(Encode(j), k);
    DecodeExtends(Encode(j)[..k], Encode(j)[k..], 0);
    RightUnit(Encode(j));
    RoundTrip(j, []);
  }

  // ---------- a value that does not fit ----------

  /** A string of 2^32 zero bytes is written without a head, and read as the number 0. */
  lemma LongStringIsLost()
    ensures var s: Bytes := seq(MAX_LENGTH + 1, _ => 0);
      && !Fits(Str(s)) && |Encode(Str(s))| <= MAX_SIZE
      && Decode(Encode(Str(s)), 0) == Ok(Read(UInt(0), 1)) && !Eq(UInt(0), Str(s))
  {
    var s: Bytes := seq(MAX_LENGTH + 1, _ => 0);
    assert |s| == MAX_LENGTH + 1;
    LeftUnit(s);
  }
}

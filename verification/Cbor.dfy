/** CBOR (RFC 7049): `to_cbor_internal`, `from_cbor_internal`, and what makes them inverse to each other. */
module Cbor {
  import opened ByteStrings
  import opened Wrappers
  import opened Sequences
  import opened JsonValues
  import opened Floats
  import opened Compare
  import opened Binary

  // ---------- encoding ----------

  /** The first byte of a major type and its argument, in the shortest of five forms. */
  function Head(base: Byte, n: nat): (r: Bytes)
    requires base <= 0xe0
    ensures r != []
  {
    if n <= 0x17 then [base + n]
    else if n <= 0xff then [base + 0x18] + ToBigEndian(n, 1)
    else if n <= 0xffff then [base + 0x19] + ToBigEndian(n, 2)
    else if n <= 0xffff_ffff then [base + 0x1a] + ToBigEndian(n, 4)
    else [base + 0x1b] + ToBigEndian(n, 8)
  }

  function EncodeString(s: Bytes): (r: Bytes)
    ensures r != []
  {
    Head(0x60, |s|) + s
  }

  function Encode(j: Json): (r: Bytes)
    ensures r != []
    decreases j, 0
  {
    match j
    case Null => [0xf6]
    case Bool(b) => [if b then 0xf5 else 0xf4]
    case Int(i) => if i >= 0 then Head(0x00, i) else Head(0x20, -1 - i)
    case UInt(u) => Head(0x00, u)
    case Float(bits) => [0xfb] + bits
    case Str(s) => EncodeString(s)
    case Arr(es) => Head(0x80, |es|) + EncodeElems(es)
    case Obj(ms) => Head(0xa0, |ms|) + EncodeMembers(ms)
  }

  function EncodeElems(es: seq<Json>): (r: Bytes)
    ensures |r| >= |es|
    decreases es, 1
  {
    if es == [] then [] else Encode(es[0]) + EncodeElems(es[1..])
  }

  function EncodeMember(m: Member<Json>): (r: Bytes)
    ensures r != []
    decreases m, 1
  {
    EncodeString(m.key) + Encode(m.value)
  }

  function EncodeMembers(ms: seq<Member<Json>>): (r: Bytes)
    ensures |r| >= |ms|
    decreases ms, 1
  {
    if ms == [] then [] else EncodeMember(ms[0]) + EncodeMembers(ms[1..])
  }

  // ---------- decoding ----------

  /** The argument of the head at `current`; `low` is what its first byte adds to the base. */
  function ReadArgument(v: Bytes, current: nat, low: nat): (r: Result<Read<nat>>)
    requires current < |v| && low < 0x1c
    ensures r.Ok? ==> current < r.value.next <= |v| && r.value.value <= UINT64_MAX
  {
    Powers();
    if low <= 0x17 then Ok(Read(low, current + 1)) else
    var width := if low == 0x18 then 1 else if low == 0x19 then 2 else if low == 0x1a then 4 else 8;
    var n :- GetFromVector(v, current, width);
    Ok(Read(n, current + 1 + width))
  }

  /** Half precision, as the decoder of RFC 7049, appendix D, computes it. */
  function FromHalf(half: nat): Json
    requires half < 0x1_0000
  {
    var negative, e, m := half >= 0x8000, half / 0x400 % 32, half % 0x400;
    if e == 31 then Null
    else if e == 0 then Float(Widen(negative, m, -24))
    else Float(Widen(negative, m + 0x400, e - 25))
  }

  function Decode(v: Bytes, idx: nat): (r: Result<Read<Json>>)
    requires idx <= |v| <= MAX_SIZE
    ensures r.Ok? ==> idx < r.value.next <= |v|
    decreases |v| - idx, 0
  {
    if idx == |v| then Err(OutOfRange) else
    var b: int := v[idx];
    if b < 0x1c then
      var n :- ReadArgument(v, idx, b);
      Ok(Read(UInt(n.value), n.next))
    else if 0x20 <= b < 0x3c then
      var n :- ReadArgument(v, idx, b - 0x20);
      Ok(Read(Int(-1 - ToSigned(n.value)), n.next))
    else if 0x60 <= b < 0x7c then
      var n :- ReadArgument(v, idx, b - 0x60);
      var s :- ReadString(v, n.next, n.value);
      Ok(Read(Str(s.value), s.next))
    else if b == 0x7f then
      var s :- DecodeChunks(v, idx + 1, []);
      Ok(Read(Str(s.value), s.next))
    else if 0x80 <= b < 0x9c then
      var n :- ReadArgument(v, idx, b - 0x80);
      var es :- DecodeElems(v, n.next, n.value, []);
      Ok(Read(Arr(es.value), es.next))
    else if b == 0x9f then
      var es :- DecodeElemsToBreak(v, idx + 1, []);
      Ok(Read(Arr(es.value), es.next))
    else if 0xa0 <= b < 0xbc then
      var n :- ReadArgument(v, idx, b - 0xa0);
      var ms :- DecodeMembers(v, n.next, n.value, []);
      Ok(Read(Obj(ms.value), ms.next))
    else if b == 0xbf then
      var ms :- DecodeMembersToBreak(v, idx + 1, []);
      Ok(Read(Obj(ms.value), ms.next))
    else DecodeSimple(v, idx, b)
  }

  /** The values of major type 7, and everything that is not supported. */
  function DecodeSimple(v: Bytes, idx: nat, b: int): (r: Result<Read<Json>>)
    requires idx < |v|
    ensures r.Ok? ==> idx < r.value.next <= |v|
  {
    if b == 0xf4 then Ok(Read(Bool(false), idx + 1))
    else if b == 0xf5 then Ok(Read(Bool(true), idx + 1))
    else if b == 0xf6 then Ok(Read(Null, idx + 1))
    else if b == 0xf9 then
      var bits :- ReadBits(v, idx, 2);
      var high: int, low: int := bits.value[0], bits.value[1];
      Ok(Read(FromHalf(high * 256 + low), bits.next))
    else if b == 0xfa then
      var bits :- ReadBits(v, idx, 4);
      Ok(Read(FromSingle(bits.value), bits.next))
    else if b == 0xfb then
      var bits :- ReadBits(v, idx, 8);
      Ok(Read(FromDouble(bits.value), bits.next))
    else Err(InvalidArgument)
  }

  /** The chunks of a string of indefinite length, up to the break byte. */
  function DecodeChunks(v: Bytes, idx: nat, done: Bytes): (r: Result<Read<Bytes>>)
    requires idx <= |v| <= MAX_SIZE
    ensures r.Ok? ==> idx < r.value.next <= |v|
    decreases |v| - idx, 1
  {
    if idx == |v| then Err(OutOfRange)
    else if v[idx] == 0xff then Ok(Read(done, idx + 1))
    else
      var x :- Decode(v, idx);
      var s :- AsString(x.value);
      DecodeChunks(v, x.next, done + s)
  }

  function DecodeElems(v: Bytes, idx: nat, n: nat, done: seq<Json>): (r: Result<Read<seq<Json>>>)
    requires idx <= |v| <= MAX_SIZE
    ensures r.Ok? ==> idx <= r.value.next <= |v|
    decreases |v| - idx, 1
  {
    if n == 0 then Ok(Read(done, idx)) else
    var x :- Decode(v, idx);
    DecodeElems(v, x.next, n - 1, done + [x.value])
  }

  function DecodeElemsToBreak(v: Bytes, idx: nat, done: seq<Json>): (r: Result<Read<seq<Json>>>)
    requires idx <= |v| <= MAX_SIZE
    ensures r.Ok? ==> idx < r.value.next <= |v|
    decreases |v| - idx, 1
  {
    if idx == |v| then Err(OutOfRange)
    else if v[idx] == 0xff then Ok(Read(done, idx + 1))
    else
      var x :- Decode(v, idx);
      DecodeElemsToBreak(v, x.next, done + [x.value])
  }

  /** One key and its value: a later pair replaces an earlier one with the same key. */
  function DecodeMember(v: Bytes, idx: nat, done: Members<Json>): (r: Result<Read<Members<Json>>>)
    requires idx <= |v| <= MAX_SIZE
    ensures r.Ok? ==> idx < r.value.next <= |v|
    decreases |v| - idx, 1
  {
    var k :- Decode(v, idx);
    var key :- AsString(k.value);
    var x :- Decode(v, k.next);
    Ok(Read(Insert(done, key, x.value), x.next))
  }

  function DecodeMembers(v: Bytes, idx: nat, n: nat, done: Members<Json>): (r: Result<Read<Members<Json>>>)
    requires idx <= |v| <= MAX_SIZE
    ensures r.Ok? ==> idx <= r.value.next <= |v|
    decreases |v| - idx, 2
  {
    if n == 0 then Ok(Read(done, idx)) else
    var m :- DecodeMember(v, idx, done);
    DecodeMembers(v, m.next, n - 1, m.value)
  }

  function DecodeMembersToBreak(v: Bytes, idx: nat, done: Members<Json>): (r: Result<Read<Members<Json>>>)
    requires idx <= |v| <= MAX_SIZE
    ensures r.Ok? ==> idx < r.value.next <= |v|
    decreases |v| - idx, 2
  {
    if idx == |v| then Err(OutOfRange)
    else if v[idx] == 0xff then Ok(Read(done, idx + 1))
    else
      var m :- DecodeMember(v, idx, done);
      DecodeMembersToBreak(v, m.next, m.value)
  }

  // ---------- decoding what was encoded ----------

  /** A head is read back from any place in any vector. */
  lemma HeadReadsBack(v: Bytes, idx: nat, base: Byte, n: nat)
    requires base <= 0xe0 && n <= UINT64_MAX && Holds(v, idx, Head(base, n))
    ensures idx < |v| && base <= v[idx] < base + 0x1c
    ensures ReadArgument(v, idx, v[idx] - base) == Ok(Read(n, idx + |Head(base, n)|))
  {
    hide GetFromVector, ToBigEndian, Pow256;
    Powers();
    HoldsFirst(v, idx, Head(base, n));
    if n > 0x17 {
      var width := if n <= 0xff then 1 else if n <= 0xffff then 2 else if n <= 0xffff_ffff then 4 else 8;
      HoldsParts(v, idx, [v[idx]], ToBigEndian(n, width));
      ReadsBack(v, idx, n, width);
      SmallMod(n, Pow256(width));
    }
  }

  lemma StringReadsBack(v: Bytes, idx: nat, s: Bytes)
    requires |v| <= MAX_SIZE && Holds(v, idx, EncodeString(s))
    ensures idx < |v| && Decode(v, idx) == Ok(Read(Str(s), idx + |EncodeString(s)|))
  {
    hide ReadArgument, Head, ReadString, Advance;
    HoldsParts(v, idx, Head(0x60, |s|), s);
    HeadReadsBack(v, idx, 0x60, |s|);
  }

  /**
   Decoding at the start of an encoded value, with anything before and after it, gives the value back, with its
   integers in normal form, and leaves the index exactly at the end.
   */
  lemma {:induction false} DecodeOfEncode(v: Bytes, idx: nat, j: Json)
    requires |v| <= MAX_SIZE && Holds(v, idx, Encode(j))
    ensures Decode(v, idx) == Ok(Read(Normal(j), idx + |Encode(j)|))
    decreases j, 0
  {
    hide Decode, Head, EncodeString, EncodeElems, EncodeMembers, Holds;
    match j
    case Int(i) => IntReadsBack(v, idx, i);
    case UInt(u) => UIntReadsBack(v, idx, u);
    case Str(s) => StringReadsBack(v, idx, s);
    case Arr(es) =>
      var n := ArrayHeadReadsBack(v, idx, es);
      DecodeOfElems(v, n, es, []);
      LeftUnit(Normals(es));
    case Obj(ms) =>
      var n := ObjectHeadReadsBack(v, idx, ms);
      assert ms[0..] == ms;
      DecodeOfMembers(v, n, ms, 0);
    case _ => SimpleReadsBack(v, idx, j);
  }

  lemma UIntReadsBack(v: Bytes, idx: nat, u: UInt64)
    requires |v| <= MAX_SIZE && Holds(v, idx, Head(0x00, u))
    ensures idx < |v| && Decode(v, idx) == Ok(Read(UInt(u), idx + |Head(0x00, u)|))
  {
    hide ReadArgument, Head;
    HeadReadsBack(v, idx, 0x00, u);
  }

  lemma IntReadsBack(v: Bytes, idx: nat, i: Int64)
    requires |v| <= MAX_SIZE && Holds(v, idx, Encode(Int(i)))
    ensures idx < |v| && Decode(v, idx) == Ok(Read(Normal(Int(i)), idx + |Encode(Int(i))|))
  {
    hide ReadArgument, Head;
    HeadReadsBack(v, idx, if i >= 0 then 0x00 else 0x20, if i >= 0 then i else -1 - i);
  }

  lemma SimpleReadsBack(v: Bytes, idx: nat, j: Json)
    requires j.Null? || j.Bool? || j.Float?
    requires |v| <= MAX_SIZE && Holds(v, idx, Encode(j))
    ensures idx < |v| && Decode(v, idx) == Ok(Read(j, idx + |Encode(j)|))
  {
    hide ReadArgument, ReadString, Head;
    HoldsFirst(v, idx, Encode(j));
    if j.Float? {
      HoldsParts(v, idx, [0xfb], j.bits);
    }
  }

  lemma ArrayHeadReadsBack(v: Bytes, idx: nat, es: seq<Json>) returns (next: nat)
    requires |v| <= MAX_SIZE && Holds(v, idx, Encode(Arr(es)))
    ensures next + |EncodeElems(es)| == idx + |Encode(Arr(es))| && Holds(v, next, EncodeElems(es))
    ensures next <= |v| && idx < |v|
    ensures Decode(v, idx) ==
      var r := DecodeElems(v, next, |es|, []);
      if r.Ok? then Ok(Read(Arr(r.value.value), r.value.next)) else Err(r.error)
  {
    hide ReadArgument, Head, EncodeElems, DecodeElems, Holds;
    var head := Head(0x80, |es|);
    next := idx + |head|;
    HoldsParts(v, idx, head, EncodeElems(es));
    HoldsLength(v, next, EncodeElems(es));
    HeadReadsBack(v, idx, 0x80, |es|);
  }

  lemma ObjectHeadReadsBack(v: Bytes, idx: nat, ms: Members<Json>) returns (next: nat)
    requires |v| <= MAX_SIZE && Holds(v, idx, Encode(Obj(ms)))
    ensures next + |EncodeMembers(ms)| == idx + |Encode(Obj(ms))| && Holds(v, next, EncodeMembers(ms))
    ensures next <= |v| && idx < |v|
    ensures Decode(v, idx) ==
      var r := DecodeMembers(v, next, |ms|, []);
      if r.Ok? then Ok(Read(Obj(r.value.value), r.value.next)) else Err(r.error)
  {
    hide ReadArgument, Head, EncodeMembers, DecodeMembers, Holds;
    var head := Head(0xa0, |ms|);
    next := idx + |head|;
    HoldsParts(v, idx, head, EncodeMembers(ms));
    HoldsLength(v, next, EncodeMembers(ms));
    HeadReadsBack(v, idx, 0xa0, |ms|);
  }

  lemma {:induction false} DecodeOfElems(v: Bytes, idx: nat, es: seq<Json>, done: seq<Json>)
    requires |v| <= MAX_SIZE && Holds(v, idx, EncodeElems(es))
    ensures DecodeElems(v, idx, |es|, done) == Ok(Read(done + Normals(es), idx + |EncodeElems(es)|))
    decreases es, 1
  {
    hide Encode, Decode, Normal, Holds;
    if es == [] {
      RightUnit(done);
      NoNormals();
    } else {
      HoldsParts(v, idx, Encode(es[0]), EncodeElems(es[1..]));
      DecodeOfEncode(v, idx, es[0]);
      DecodeOfElems(v, idx + |Encode(es[0])|, es[1..], done + [Normal(es[0])]);
      NormalsFirst(es);
      Assoc(done, [Normal(es[0])], Normals(es[1..]));
    }
  }

  lemma {:induction false} DecodeOfMember(v: Bytes, idx: nat, m: Member<Json>, done: Members<Json>)
    requires |v| <= MAX_SIZE && Holds(v, idx, EncodeMember(m))
    ensures DecodeMember(v, idx, done) ==
      Ok(Read(Insert(done, m.key, Normal(m.value)), idx + |EncodeMember(m)|))
    decreases m, 1
  {
    hide Insert, EncodeString, Encode, Decode, Normal, Holds;
    HoldsParts(v, idx, EncodeString(m.key), Encode(m.value));
    StringReadsBack(v, idx, m.key);
    DecodeOfEncode(v, idx + |EncodeString(m.key)|, m.value);
  }

  lemma {:induction false} DecodeOfMembers(v: Bytes, idx: nat, ms: Members<Json>, i: nat)
    requires |v| <= MAX_SIZE && i <= |ms| && Holds(v, idx, EncodeMembers(ms[i..]))
    ensures DecodeMembers(v, idx, |ms| - i, NormalMembers(ms)[..i]) ==
      Ok(Read(NormalMembers(ms), idx + |EncodeMembers(ms[i..])|))
    decreases ms, |ms| - i
  {
    hide EncodeMember, DecodeMember, Normal, NormalMembers, Holds, Insert;
    var ns := NormalMembers(ms);
    if i < |ms| {
      var m := ms[i];
      DropStep(ms, i);
      HoldsParts(v, idx, EncodeMember(m), EncodeMembers(ms[i + 1..]));
      DecodeOfMember(v, idx, m, ns[..i]);
      NormalMembersStep(ms, i);
      DecodeOfMembers(v, idx + |EncodeMember(m)|, ms, i + 1);
    } else {
      assert ns[..i] == ns && ms[i..] == [];
    }
  }
}

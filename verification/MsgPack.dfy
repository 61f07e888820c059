/** MessagePack: `to_msgpack_internal`, `from_msgpack_internal`, and what makes them inverse to each other. */
module MsgPack {
  import opened ByteStrings
  import opened Wrappers
  import opened Sequences
  import opened JsonValues
  import opened Compare
  import opened Binary

  /** The longest string, array or object for which the encoder writes a head. */
  const MAX_LENGTH := 0xffff_ffff

  // ---------- encoding ----------

  function EncodeUnsigned(n: nat): (r: Bytes)
    ensures r != []
  {
    if n < 128 then ToBigEndian(n, 1)
    else if n <= 0xff then [0xcc] + ToBigEndian(n, 1)
    else if n <= 0xffff then [0xcd] + ToBigEndian(n, 2)
    else if n <= 0xffff_ffff then [0xce] + ToBigEndian(n, 4)
    else [0xcf] + ToBigEndian(n, 8)
  }

  function EncodeNegative(i: int): (r: Bytes)
    requires i < 0
    ensures r != []
  {
    if i >= -32 then ToBigEndian(i, 1)
    else if i >= -0x80 then [0xd0] + ToBigEndian(i, 1)
    else if i >= -0x8000 then [0xd1] + ToBigEndian(i, 2)
    else if i >= -0x8000_0000 then [0xd2] + ToBigEndian(i, 4)
    else [0xd3] + ToBigEndian(i, 8)
  }

  /** Strings: above 2^32 - 1 bytes, no branch applies and nothing is written. */
  function StringHead(n: nat): Bytes
  {
    if n <= 31 then [0xa0 + n]
    else if n <= 0xff then [0xd9] + ToBigEndian(n, 1)
    else if n <= 0xffff then [0xda] + ToBigEndian(n, 2)
    else if n <= MAX_LENGTH then [0xdb] + ToBigEndian(n, 4)
    else []
  }

  /** Arrays (base 0x90, tag 0xdc) and objects (base 0x80, tag 0xde). */
  function ContainerHead(base: Byte, tag: Byte, n: nat): Bytes
    requires base <= 0x90 && tag <= 0xde
  {
    if n <= 15 then [base + n]
    else if n <= 0xffff then [tag] + ToBigEndian(n, 2)
    else if n <= MAX_LENGTH then [tag + 1] + ToBigEndian(n, 4)
    else []
  }

  function EncodeString(s: Bytes): (r: Bytes)
    ensures r != []
  {
    StringHead(|s|) + s
  }

  function Encode(j: Json): (r: Bytes)
    ensures r != []
    decreases j, 0
  {
    match j
    case Null => [0xc0]
    case Bool(b) => [if b then 0xc3 else 0xc2]
    case Int(i) => if i >= 0 then EncodeUnsigned(i) else EncodeNegative(i)
    case UInt(u) => EncodeUnsigned(u)
    case Float(bits) => [0xcb] + bits
    case Str(s) => EncodeString(s)
    case Arr(es) => ContainerHead(0x90, 0xdc, |es|) + EncodeElems(es)
    case Obj(ms) => ContainerHead(0x80, 0xde, |ms|) + EncodeMembers(ms)
  }

  function EncodeElems(es: seq<Json>): (r: Bytes)
    ensures |r| >= |es|
    decreases es, 1
  {
    if es == [] then [] else Encode(es[0]) + EncodeElems(es[1..])
  }

  function EncodeMember(m: Member<Json>): (r: Bytes)
    ensures r != []
    decreases m, 1
  {
    EncodeString(m.key) + Encode(m.value)
  }

  function EncodeMembers(ms: seq<Member<Json>>): (r: Bytes)
    ensures |r| >= |ms|
    decreases ms, 1
  {
    if ms == [] then [] else EncodeMember(ms[0]) + EncodeMembers(ms[1..])
  }

  // ---------- decoding ----------

  /** The number of 2^log bytes after the byte at `current`. */
  function ReadNumber(v: Bytes, current: nat, log: nat): (r: Result<Read<nat>>)
    requires current < |v|
    ensures r.Ok? ==> r.value.next == current + 1 + Width(log) <= |v|
    ensures r.Ok? ==> r.value.value < Pow256(Width(log)) <= SIZE_T
  {
    Powers();
    var n :- GetFromVector(v, current, Width(log));
    Ok(Read(n, current + 1 + Width(log)))
  }

  /** `k` bytes read as a two's complement number. */
  function SignedOf(n: nat, k: nat): int
  {
    if 2 * n >= Pow256(k) then n - Pow256(k) else n
  }

  function Decode(v: Bytes, idx: nat): (r: Result<Read<Json>>)
    requires idx <= |v| <= MAX_SIZE
    ensures r.Ok? ==> idx < r.value.next <= |v|
    decreases |v| - idx, 0
  {
    if CheckLength(|v|, 1, idx).Err? then Err(OutOfRange) else
    var b: int := v[idx];
    if b <= 0x7f then Ok(Read(UInt(b), idx + 1))
    else if b <= 0x8f then
      var ms :- DecodeMembers(v, idx + 1, b - 0x80, []);
      Ok(Read(Obj(ms.value), ms.next))
    else if b <= 0x9f then
      var es :- DecodeElems(v, idx + 1, b - 0x90, []);
      Ok(Read(Arr(es.value), es.next))
    else if b <= 0xbf then
      var s :- ReadString(v, idx + 1, b - 0xa0);
      Ok(Read(Str(s.value), s.next))
    else if b >= 0xe0 then Ok(Read(Int(b - 256), idx + 1))
    else if 0xcc <= b <= 0xd3 then DecodeInteger(v, idx, b)
    else if 0xd9 <= b <= 0xdb then
      var n :- ReadNumber(v, idx, b - 0xd9);
      var s :- ReadString(v, n.next, n.value);
      Ok(Read(Str(s.value), s.next))
    else if 0xdc <= b <= 0xdd then
      var n :- ReadNumber(v, idx, b - 0xdb);
      var es :- DecodeElems(v, n.next, n.value, []);
      Ok(Read(Arr(es.value), es.next))
    else if 0xde <= b <= 0xdf then
      var n :- ReadNumber(v, idx, b - 0xdd);
      var ms :- DecodeMembers(v, n.next, n.value, []);
      Ok(Read(Obj(ms.value), ms.next))
    else DecodeSimple(v, idx, b)
  }

  /** uint 8 to uint 64, and int 8 to int 64. */
  function DecodeInteger(v: Bytes, idx: nat, b: int): (r: Result<Read<Json>>)
    requires idx < |v| && 0xcc <= b <= 0xd3
    ensures r.Ok? ==> idx < r.value.next <= |v|
  {
    Powers();
    if b <= 0xcf then
      var n :- ReadNumber(v, idx, b - 0xcc);
      Ok(Read(UInt(n.value), n.next))
    else
      var n :- ReadNumber(v, idx, b - 0xd0);
      Ok(Read(Int(SignedOf(n.value, Width(b - 0xd0))), n.next))
  }

  function DecodeSimple(v: Bytes, idx: nat, b: int): (r: Result<Read<Json>>)
    requires idx < |v|
    ensures r.Ok? ==> idx < r.value.next <= |v|
  {
    if b == 0xc0 then Ok(Read(Null, idx + 1))
    else if b == 0xc2 then Ok(Read(Bool(false), idx + 1))
    else if b == 0xc3 then Ok(Read(Bool(true), idx + 1))
    else if b == 0xca then
      var bits :- ReadBits(v, idx, 4);
      Ok(Read(FromSingle(bits.value), bits.next))
    else if b == 0xcb then
      var bits :- ReadBits(v, idx, 8);
      Ok(Read(FromDouble(bits.value), bits.next))
    else Err(InvalidArgument)
  }

  function DecodeElems(v: Bytes, idx: nat, n: nat, done: seq<Json>): (r: Result<Read<seq<Json>>>)
    requires idx <= |v| <= MAX_SIZE
    ensures r.Ok? ==> idx <= r.value.next <= |v|
    decreases |v| - idx, 1
  {
    if n == 0 then Ok(Read(done, idx)) else
    var x :- Decode(v, idx);
    DecodeElems(v, x.next, n - 1, done + [x.value])
  }

  /** One key and its value: a later pair replaces an earlier one with the same key. */
  function DecodeMember(v: Bytes, idx: nat, done: Members<Json>): (r: Result<Read<Members<Json>>>)
    requires idx <= |v| <= MAX_SIZE
    ensures r.Ok? ==> idx < r.value.next <= |v|
    decreases |v| - idx, 1
  {
    var k :- Decode(v, idx);
    var key :- AsString(k.value);
    var x :- Decode(v, k.next);
    Ok(Read(Insert(done, key, x.value), x.next))
  }

  function DecodeMembers(v: Bytes, idx: nat, n: nat, done: Members<Json>): (r: Result<Read<Members<Json>>>)
    requires idx <= |v| <= MAX_SIZE
    ensures r.Ok? ==> idx <= r.value.next <= |v|
    decreases |v| - idx, 2
  {
    if n == 0 then Ok(Read(done, idx)) else
    var m :- DecodeMember(v, idx, done);
    DecodeMembers(v, m.next, n - 1, m.value)
  }

  // ---------- decoding what was encoded ----------

  /** Every string, key, array and object is short enough for a head. */
  predicate Fits(j: Json)
    decreases j
  {
    match j
    case Str(s) => |s| <= MAX_LENGTH
    case Arr(es) => |es| <= MAX_LENGTH && forall i | 0 <= i < |es| :: Fits(es[i])
    case Obj(ms) => |ms| <= MAX_LENGTH && forall i | 0 <= i < |ms| :: |ms[i].key| <= MAX_LENGTH && Fits(ms[i].value)
    case _ => true
  }

  /** A tag byte and a number of 2^log bytes, read back. */
  lemma NumberReadsBack(v: Bytes, idx: nat, tag: Byte, n: int, log: nat)
    requires Holds(v, idx, [tag] + ToBigEndian(n, Width(log)))
    ensures idx < |v| && v[idx] == tag
    ensures ReadNumber(v, idx, log) == Ok(Read(n % Pow256(Width(log)), idx + 1 + Width(log)))
  {
    hide GetFromVector, ToBigEndian, Pow256;
    HoldsFirst(v, idx, [tag] + ToBigEndian(n, Width(log)));
    HoldsParts(v, idx, [tag], ToBigEndian(n, Width(log)));
    ReadsBack(v, idx, n, Width(log));
  }

  lemma OneByte(n: int)
    ensures ToBigEndian(n, 1) == [n % 256]
  {
    LeftUnit([n % 256]);
  }

  /** Integers with a tag byte. */
  lemma TaggedInteger(v: Bytes, idx: nat, b: int)
    requires idx < |v| <= MAX_SIZE && v[idx] == b && 0xcc <= b <= 0xd3
    ensures Decode(v, idx) == DecodeInteger(v, idx, b)
  {}

  lemma FixedInteger(v: Bytes, idx: nat, b: int)
    requires idx < |v| <= MAX_SIZE && v[idx] == b && (b <= 0x7f || b >= 0xe0)
    ensures Decode(v, idx) == Ok(Read(if b <= 0x7f then UInt(b) else Int(b - 256), idx + 1))
  {}

  /** The number of bytes that an unsigned number needs, as a power of two. */
  function UnsignedLog(n: UInt64): (log: nat)
    ensures log <= 3 && n < Pow256(Width(log))
  {
    Powers();
    if n <= 0xff then 0 else if n <= 0xffff then 1 else if n <= 0xffff_ffff then 2 else 3
  }

  lemma UnsignedReadsBack(v: Bytes, idx: nat, n: UInt64)
    requires |v| <= MAX_SIZE && Holds(v, idx, EncodeUnsigned(n))
    ensures idx < |v| && Decode(v, idx) == Ok(Read(UInt(n), idx + |EncodeUnsigned(n)|))
  {
    hide ReadNumber, Holds, Pow256, ToBigEndian, Decode;
    if n < 128 {
      HoldsFirst(v, idx, EncodeUnsigned(n));
      OneByte(n);
      FixedInteger(v, idx, n);
    } else {
      var log := UnsignedLog(n);
      NumberReadsBack(v, idx, 0xcc + log, n, log);
      TaggedInteger(v, idx, 0xcc + log);
      SmallMod(n, Pow256(Width(log)));
    }
  }

  function SignedLog(i: Int64): (log: nat)
    requires i < 0
    ensures log <= 3 && 0 <= 2 * i + Pow256(Width(log))
  {
    Powers();
    if i >= -0x80 then 0 else if i >= -0x8000 then 1 else if i >= -0x8000_0000 then 2 else 3
  }

  lemma NegativeReadsBack(v: Bytes, idx: nat, i: Int64)
    requires i < 0 && |v| <= MAX_SIZE && Holds(v, idx, EncodeNegative(i))
    ensures idx < |v| && Decode(v, idx) == Ok(Read(Int(i), idx + |EncodeNegative(i)|))
  {
    hide ReadNumber, Holds, Pow256, ToBigEndian, SignedOf, Decode;
    if i >= -32 {
      HoldsFirst(v, idx, EncodeNegative(i));
      OneByte(i);
      FixedInteger(v, idx, i + 256);
    } else {
      var log := SignedLog(i);
      NumberReadsBack(v, idx, 0xd0 + log, i, log);
      TaggedInteger(v, idx, 0xd0 + log);
      SignedOfNegative(i, Width(log));
    }
  }

  /** A negative number that fits is the two's complement value of its low bytes. */
  lemma SignedOfNegative(i: int, k: nat)
    requires i < 0 && 0 <= 2 * i + Pow256(k)
    ensures SignedOf(i % Pow256(k), k) == i
  {
    hide Pow256;
    NegativeModulo(i, Pow256(k));
  }

  lemma NegativeModulo(i: int, p: nat)
    requires 0 <= i + p && i < 0
    ensures i % p == i + p
  {
    DivModUnique(i, p, -1, i + p);
  }

  lemma StringReadsBack(v: Bytes, idx: nat, s: Bytes)
    requires |s| <= MAX_LENGTH && |v| <= MAX_SIZE && Holds(v, idx, EncodeString(s))
    ensures idx < |v| && Decode(v, idx) == Ok(Read(Str(s), idx + |EncodeString(s)|))
  {
    hide ReadNumber, Pow256, Advance, ToBigEndian;
    Powers();
    var n := |s|;
    HoldsParts(v, idx, StringHead(n), s);
    HoldsFirst(v, idx, StringHead(n));
    if n > 31 {
      var log := if n <= 0xff then 0 else if n <= 0xffff then 1 else 2;
      NumberReadsBack(v, idx, 0xd9 + log, n, log);
      SmallMod(n, Pow256(Width(log)));
    }
  }

  lemma SimpleReadsBack(v: Bytes, idx: nat, j: Json)
    requires j.Null? || j.Bool? || j.Float?
    requires |v| <= MAX_SIZE && Holds(v, idx, Encode(j))
    ensures idx < |v| && Decode(v, idx) == Ok(Read(j, idx + |Encode(j)|))
  {
    hide ReadNumber, ReadString;
    HoldsFirst(v, idx, Encode(j));
    if j.Float? {
      HoldsParts(v, idx, [0xcb], j.bits);
    }
  }

  lemma ArrayHeadReadsBack(v: Bytes, idx: nat, es: seq<Json>) returns (next: nat)
    requires |es| <= MAX_LENGTH && |v| <= MAX_SIZE && Holds(v, idx, Encode(Arr(es)))
    ensures next + |EncodeElems(es)| == idx + |Encode(Arr(es))| && Holds(v, next, EncodeElems(es))
    ensures next <= |v| && idx < |v|
    ensures Decode(v, idx) ==
      var r := DecodeElems(v, next, |es|, []);
      if r.Ok? then Ok(Read(Arr(r.value.value), r.value.next)) else Err(r.error)
  {
    hide ReadNumber, EncodeElems, DecodeElems, Holds, Pow256, ToBigEndian;
    var n := |es|;
    var head := ContainerHead(0x90, 0xdc, n);
    next := idx + |head|;
    HoldsParts(v, idx, head, EncodeElems(es));
    HoldsLength(v, next, EncodeElems(es));
    HoldsFirst(v, idx, head);
    if n > 15 {
      Powers();
      var log := if n <= 0xffff then 1 else 2;
      NumberReadsBack(v, idx, 0xdb + log, n, log);
      SmallMod(n, Pow256(Width(log)));
    }
  }

  lemma ObjectHeadReadsBack(v: Bytes, idx: nat, ms: Members<Json>) returns (next: nat)
    requires |ms| <= MAX_LENGTH && |v| <= MAX_SIZE && Holds(v, idx, Encode(Obj(ms)))
    ensures next + |EncodeMembers(ms)| == idx + |Encode(Obj(ms))| && Holds(v, next, EncodeMembers(ms))
    ensures next <= |v| && idx < |v|
    ensures Decode(v, idx) ==
      var r := DecodeMembers(v, next, |ms|, []);
      if r.Ok? then Ok(Read(Obj(r.value.value), r.value.next)) else Err(r.error)
  {
    hide ReadNumber, EncodeMembers, DecodeMembers, Holds, Pow256, ToBigEndian;
    var n := |ms|;
    var head := ContainerHead(0x80, 0xde, n);
    next := idx + |head|;
    HoldsParts(v, idx, head, EncodeMembers(ms));
    HoldsLength(v, next, EncodeMembers(ms));
    HoldsFirst(v, idx, head);
    if n > 15 {
      Powers();
      var log := if n <= 0xffff then 1 else 2;
      NumberReadsBack(v, idx, 0xdd + log, n, log);
      SmallMod(n, Pow256(Width(log)));
    }
  }

  /** As for CBOR, for values with short enough strings, arrays and objects. */
  lemma {:induction false} DecodeOfEncode(v: Bytes, idx: nat, j: Json)
    requires Fits(j) && |v| <= MAX_SIZE && Holds(v, idx, Encode(j))
    ensures Decode(v, idx) == Ok(Read(Normal(j), idx + |Encode(j)|))
    decreases j, 0
  {
    hide Decode, ContainerHead, EncodeUnsigned, EncodeNegative, EncodeString, EncodeElems, EncodeMembers, Holds;
    match j
    case Int(i) =>
      if i >= 0 {
        UnsignedReadsBack(v, idx, i);
      } else {
        NegativeReadsBack(v, idx, i);
      }
    case UInt(u) => UnsignedReadsBack(v, idx, u);
    case Str(s) => StringReadsBack(v, idx, s);
    case Arr(es) =>
      var n := ArrayHeadReadsBack(v, idx, es);
      DecodeOfElems(v, n, es, []);
      LeftUnit(Normals(es));
    case Obj(ms) =>
      var n := ObjectHeadReadsBack(v, idx, ms);
      assert ms[0..] == ms;
      DecodeOfMembers(v, n, ms, 0);
    case _ => SimpleReadsBack(v, idx, j);
  }

  lemma {:induction false} DecodeOfElems(v: Bytes, idx: nat, es: seq<Json>, done: seq<Json>)
    requires forall i :: 0 <= i < |es| ==> Fits(es[i])
    requires |v| <= MAX_SIZE && Holds(v, idx, EncodeElems(es))
    ensures DecodeElems(v, idx, |es|, done) == Ok(Read(done + Normals(es), idx + |EncodeElems(es)|))
    decreases es, 1
  {
    hide Encode, Decode, Normal, Holds, Fits;
    if es == [] {
      RightUnit(done);
      NoNormals();
    } else {
      HoldsParts(v, idx, Encode(es[0]), EncodeElems(es[1..]));
      DecodeOfEncode(v, idx, es[0]);
      DecodeOfElems(v, idx + |Encode(es[0])|, es[1..], done + [Normal(es[0])]);
      NormalsFirst(es);
      Assoc(done, [Normal(es[0])], Normals(es[1..]));
    }
  }

  lemma {:induction false} DecodeOfMember(v: Bytes, idx: nat, m: Member<Json>, done: Members<Json>)
    requires |m.key| <= MAX_LENGTH && Fits(m.value) && |v| <= MAX_SIZE && Holds(v, idx, EncodeMember(m))
    ensures DecodeMember(v, idx, done) ==
      Ok(Read(Insert(done, m.key, Normal(m.value)), idx + |EncodeMember(m)|))
    decreases m, 1
  {
    hide Insert, EncodeString, Encode, Decode, Normal, Holds, Fits;
    HoldsParts(v, idx, EncodeString(m.key), Encode(m.value));
    StringReadsBack(v, idx, m.key);
    DecodeOfEncode(v, idx + |EncodeString(m.key)|, m.value);
  }

  lemma {:induction false} DecodeOfMembers(v: Bytes, idx: nat, ms: Members<Json>, i: nat)
    requires forall i :: 0 <= i < |ms| ==> |ms[i].key| <= MAX_LENGTH && Fits(ms[i].value)
    requires |v| <= MAX_SIZE && i <= |ms| && Holds(v, idx, EncodeMembers(ms[i..]))
    ensures DecodeMembers(v, idx, |ms| - i, NormalMembers(ms)[..i]) ==
      Ok(Read(NormalMembers(ms), idx + |EncodeMembers(ms[i..])|))
    decreases ms, |ms| - i
  {
    hide EncodeMember, DecodeMember, Normal, NormalMembers, Holds, Insert, Fits;
    var ns := NormalMembers(ms);
    if i < |ms| {
      var m := ms[i];
      DropStep(ms, i);
      HoldsParts(v, idx, EncodeMember(m), EncodeMembers(ms[i + 1..]));
      DecodeOfMember(v, idx, m, ns[..i]);
      NormalMembersStep(ms, i);
      DecodeOfMembers(v, idx + |EncodeMember(m)|, ms, i + 1);
    } else {
      assert ns[..i] == ns && ms[i..] == [];
    }
  }
}

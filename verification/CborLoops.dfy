/** The loops of `to_cbor_internal` and `from_cbor_internal`, proved against the functions in Cbor. */
module CborLoops {
  import opened ByteStrings
  import opened Wrappers
  import opened Sequences
  import opened JsonValues
  import opened Compare
  import opened Binary
  import opened Cbor

  /** The head of a value, pushed in the order of the cascade. */
  method PushHead(v: ByteVector, base: Byte, n: nat)
    requires base <= 0xe0
    modifies v
    ensures v.data == old(v.data) + Head(base, n)
  {
    if n <= 0x17 {
      v.PushBack(base + n);
      return;
    }
    var width, tag := 8, 0x1b;
    if n <= 0xff {
      width, tag := 1, 0x18;
    } else if n <= 0xffff {
      width, tag := 2, 0x19;
    } else if n <= 0xffff_ffff {
      width, tag := 4, 0x1a;
    }
    v.PushBack(base + tag);
    Assoc(old(v.data), [base + tag], ToBigEndian(n, width));
    v.AddToVector(width, n);
  }

  method PushString(v: ByteVector, s: Bytes)
    modifies v
    ensures v.data == old(v.data) + EncodeString(s)
  {
    PushHead(v, 0x60, |s|);
    v.Append(s);
    Assoc(old(v.data), Head(0x60, |s|), s);
  }

  /** `to_cbor_internal` */
  method ToCbor(j: Json, v: ByteVector)
    modifies v
    ensures v.data == old(v.data) + Encode(j)
    decreases j, 1
  {
    match j
    case Null => v.PushBack(0xf6);
    case Bool(b) => v.PushBack(if b then 0xf5 else 0xf4);
    case Int(i) => PushHead(v, if i >= 0 then 0x00 else 0x20, if i >= 0 then i else -1 - i);
    case UInt(u) => PushHead(v, 0x00, u);
    case Float(bits) =>
      v.PushBack(0xfb);
      v.PushBits(bits);
      Assoc(old(v.data), [0xfb], bits);
    case Str(s) => PushString(v, s);
    case Arr(es) =>
      PushHead(v, 0x80, |es|);
      Assoc(old(v.data), Head(0x80, |es|), EncodeElems(es));
      PushElems(es, v);
    case Obj(ms) =>
      PushHead(v, 0xa0, |ms|);
      Assoc(old(v.data), Head(0xa0, |ms|), EncodeMembers(ms));
      PushMembers(ms, v);
  }

  method PushElems(es: seq<Json>, v: ByteVector)
    modifies v
    ensures v.data == old(v.data) + EncodeElems(es)
    decreases es, 0
  {
    assert es[0..] == es;
    for i := 0 to |es|
      invariant v.data + EncodeElems(es[i..]) == old(v.data) + EncodeElems(es)
    {
      DropStep(es, i);
      Assoc(v.data, Encode(es[i]), EncodeElems(es[i + 1..]));
      ToCbor(es[i], v);
    }
    assert es[|es|..] == [];
    RightUnit(v.data);
  }

  method PushMembers(ms: Members<Json>, v: ByteVector)
    modifies v
    ensures v.data == old(v.data) + EncodeMembers(ms)
    decreases ms, 0
  {
    assert ms[0..] == ms;
    for i := 0 to |ms|
      invariant v.data + EncodeMembers(ms[i..]) == old(v.data) + EncodeMembers(ms)
    {
      DropStep(ms, i);
      var m := ms[i];
      Assoc(v.data, EncodeMember(m), EncodeMembers(ms[i + 1..]));
      Assoc(v.data, EncodeString(m.key), Encode(m.value));
      PushString(v, m.key);
      ToCbor(m.value, v);
    }
    assert ms[|ms|..] == [];
    RightUnit(v.data);
  }

  // ---------- reading ----------

  /** The vector and the index that `from_cbor_internal` takes by reference. */
  class Reader {
    const v: Bytes
    var idx: nat

    constructor (v: Bytes)
      ensures this.v == v && idx == 0
    {
      this.v := v;
      idx := 0;
    }

    ghost predicate Valid()
      reads this
    {
      idx <= |v| <= MAX_SIZE
    }

    /** `get_from_vector` after the first byte, and the index moved behind what it read. */
    method Argument(current: nat, low: nat) returns (r: Result<nat>)
      requires current < |v| <= MAX_SIZE && low < 0x1c && idx == current + 1
      modifies this
      ensures Agrees(ReadArgument(v, current, low), r, idx)
    {
      if low <= 0x17 {
        return Ok(low);
      }
      var width := if low == 0x18 then 1 else if low == 0x19 then 2 else if low == 0x1a then 4 else 8;
      idx := idx + width;
      r := GetFromVectorLoop(v, current, width);
    }

    method Text(len: nat) returns (r: Result<Bytes>)
      requires Valid()
      modifies this
      ensures Agrees(ReadString(v, old(idx), len), r, idx)
    {
      var offset := idx;
      idx := Advance(idx, len);
      var _ :- CheckLength(|v|, len, offset);
      r := Ok(v[offset..offset + len]);
    }

    /** `from_cbor_internal` */
    method Item() returns (r: Result<Json>)
      requires Valid()
      modifies this
      ensures Agrees(Decode(v, old(idx)), r, idx)
      decreases |v| - idx, 0
    {
      hide ReadArgument, ReadString, DecodeSimple, DecodeChunks, DecodeElems, DecodeMembers, DecodeElemsToBreak,
        DecodeMembersToBreak;
      var current := idx;
      idx := idx + 1;
      if current >= |v| {
        return Err(OutOfRange);
      }
      var b: int := v[current];
      if b < 0x1c {
        var n :- Argument(current, b);
        r := Ok(UInt(n));
      } else if 0x20 <= b < 0x3c {
        var n :- Argument(current, b - 0x20);
        r := Ok(Int(-1 - ToSigned(n)));
      } else if 0x60 <= b < 0x7c {
        var len :- Argument(current, b - 0x60);
        var s :- Text(len);
        r := Ok(Str(s));
      } else if b == 0x7f {
        var s :- Chunks();
        r := Ok(Str(s));
      } else if 0x80 <= b < 0x9c {
        var len :- Argument(current, b - 0x80);
        var es :- Elems(len);
        r := Ok(Arr(es));
      } else if b == 0x9f {
        var es :- ElemsToBreak();
        r := Ok(Arr(es));
      } else if 0xa0 <= b < 0xbc {
        var len :- Argument(current, b - 0xa0);
        var ms :- Members(len);
        r := Ok(Obj(ms));
      } else if b == 0xbf {
        var ms :- MembersToBreak();
        r := Ok(Obj(ms));
      } else {
        var x :- DecodeSimple(v, current, b);
        idx := x.next;
        r := Ok(x.value);
      }
    }

    method Chunks() returns (r: Result<Bytes>)
      requires Valid()
      modifies this
      ensures Agrees(DecodeChunks(v, old(idx), []), r, idx)
      decreases |v| - idx, 1
    {
      var result: Bytes := [];
      while idx < |v| && v[idx] != 0xff
        invariant old(idx) <= idx <= |v|
        invariant DecodeChunks(v, old(idx), []) == DecodeChunks(v, idx, result)
        decreases |v| - idx
      {
        var x :- Item();
        var s :- AsString(x);
        result := result + s;
      }
      if idx == |v| {
        return Err(OutOfRange);
      }
      idx := idx + 1;
      r := Ok(result);
    }

    method Elems(len: nat) returns (r: Result<seq<Json>>)
      requires Valid()
      modifies this
      ensures Agrees(DecodeElems(v, old(idx), len, []), r, idx)
      decreases |v| - idx, 1
    {
      var result: seq<Json> := [];
      for i := 0 to len
        invariant old(idx) <= idx <= |v|
        invariant DecodeElems(v, old(idx), len, []) == DecodeElems(v, idx, len - i, result)
      {
        var x :- Item();
        result := result + [x];
      }
      r := Ok(result);
    }

    method ElemsToBreak() returns (r: Result<seq<Json>>)
      requires Valid()
      modifies this
      ensures Agrees(DecodeElemsToBreak(v, old(idx), []), r, idx)
      decreases |v| - idx, 1
    {
      var result: seq<Json> := [];
      while idx < |v| && v[idx] != 0xff
        invariant old(idx) <= idx <= |v|
        invariant DecodeElemsToBreak(v, old(idx), []) == DecodeElemsToBreak(v, idx, result)
        decreases |v| - idx
      {
        var x :- Item();
        result := result + [x];
      }
      if idx == |v| {
        return Err(OutOfRange);
      }
      idx := idx + 1;
      r := Ok(result);
    }

    /** `std::string key = ...; result[key] = ...;` */
    method OneMember(done: Members<Json>) returns (r: Result<Members<Json>>)
      requires Valid()
      modifies this
      ensures Agrees(DecodeMember(v, old(idx), done), r, idx)
      decreases |v| - idx, 1
    {
      var k :- Item();
      var key :- AsString(k);
      var x :- Item();
      r := Ok(Insert(done, key, x));
    }

    method Members(len: nat) returns (r: Result<Members<Json>>)
      requires Valid()
      modifies this
      ensures Agrees(DecodeMembers(v, old(idx), len, []), r, idx)
      decreases |v| - idx, 2
    {
      var result: Members<Json> := [];
      for i := 0 to len
        invariant old(idx) <= idx <= |v|
        invariant DecodeMembers(v, old(idx), len, []) == DecodeMembers(v, idx, len - i, result)
      {
        result :- OneMember(result);
      }
      r := Ok(result);
    }

    method MembersToBreak() returns (r: Result<Members<Json>>)
      requires Valid()
      modifies this
      ensures Agrees(DecodeMembersToBreak(v, old(idx), []), r, idx)
      decreases |v| - idx, 2
    {
      var result: Members<Json> := [];
      while idx < |v| && v[idx] != 0xff
        invariant old(idx) <= idx <= |v|
        invariant DecodeMembersToBreak(v, old(idx), []) == DecodeMembersToBreak(v, idx, result)
        decreases |v| - idx
      {
        result :- OneMember(result);
      }
      if idx == |v| {
        return Err(OutOfRange);
      }
      idx := idx + 1;
      r := Ok(result);
    }
  }
}

/** The loops of `to_msgpack_internal` and `from_msgpack_internal`, proved against the functions in MsgPack. */
module MsgPackLoops {
  import opened ByteStrings
  import opened Wrappers
  import opened Sequences
  import opened JsonValues
  import opened Binary
  import opened MsgPack

  /** A tag byte and a number. */
  method PushTagged(v: ByteVector, tag: Byte, width: nat, n: int)
    requires width == 1 || width == 2 || width == 4 || width == 8
    modifies v
    ensures v.data == old(v.data) + ([tag] + ToBigEndian(n, width))
  {
    v.PushBack(tag);
    Assoc(old(v.data), [tag], ToBigEndian(n, width));
    v.AddToVector(width, n);
  }

  method PushUnsigned(v: ByteVector, n: nat)
    modifies v
    ensures v.data == old(v.data) + EncodeUnsigned(n)
  {
    if n < 128 {
      v.AddToVector(1, n);
    } else if n <= 0xff {
      PushTagged(v, 0xcc, 1, n);
    } else if n <= 0xffff {
      PushTagged(v, 0xcd, 2, n);
    } else if n <= 0xffff_ffff {
      PushTagged(v, 0xce, 4, n);
    } else {
      PushTagged(v, 0xcf, 8, n);
    }
  }

  method PushNegative(v: ByteVector, i: int)
    requires i < 0
    modifies v
    ensures v.data == old(v.data) + EncodeNegative(i)
  {
    if i >= -32 {
      v.AddToVector(1, i);
    } else if i >= -0x80 {
      PushTagged(v, 0xd0, 1, i);
    } else if i >= -0x8000 {
      PushTagged(v, 0xd1, 2, i);
    } else if i >= -0x8000_0000 {
      PushTagged(v, 0xd2, 4, i);
    } else {
      PushTagged(v, 0xd3, 8, i);
    }
  }

  method PushString(v: ByteVector, s: Bytes)
    modifies v
    ensures v.data == old(v.data) + EncodeString(s)
  {
    var n := |s|;
    if n <= 31 {
      v.PushBack(0xa0 + n);
    } else if n <= 0xff {
      PushTagged(v, 0xd9, 1, n);
    } else if n <= 0xffff {
      PushTagged(v, 0xda, 2, n);
    } else if n <= MAX_LENGTH {
      PushTagged(v, 0xdb, 4, n);
    } else {
      RightUnit(v.data);
    }
    v.Append(s);
    Assoc(old(v.data), StringHead(n), s);
  }

  method PushContainerHead(v: ByteVector, base: Byte, tag: Byte, n: nat)
    requires base <= 0x90 && tag <= 0xde
    modifies v
    ensures v.data == old(v.data) + ContainerHead(base, tag, n)
  {
    if n <= 15 {
      v.PushBack(base + n);
    } else if n <= 0xffff {
      PushTagged(v, tag, 2, n);
    } else if n <= MAX_LENGTH {
      PushTagged(v, tag + 1, 4, n);
    } else {
      RightUnit(v.data);
    }
  }

  /** `to_msgpack_internal` */
  method ToMsgPack(j: Json, v: ByteVector)
    modifies v
    ensures v.data == old(v.data) + Encode(j)
    decreases j, 1
  {
    match j
    case Null => v.PushBack(0xc0);
    case Bool(b) => v.PushBack(if b then 0xc3 else 0xc2);
    case Int(i) =>
      if i >= 0 {
        PushUnsigned(v, i);
      } else {
        PushNegative(v, i);
      }
    case UInt(u) => PushUnsigned(v, u);
    case Float(bits) =>
      v.PushBack(0xcb);
      v.PushBits(bits);
      Assoc(old(v.data), [0xcb], bits);
    case Str(s) => PushString(v, s);
    case Arr(es) =>
      PushContainerHead(v, 0x90, 0xdc, |es|);
      Assoc(old(v.data), ContainerHead(0x90, 0xdc, |es|), EncodeElems(es));
      PushElems(es, v);
    case Obj(ms) =>
      PushContainerHead(v, 0x80, 0xde, |ms|);
      Assoc(old(v.data), ContainerHead(0x80, 0xde, |ms|), EncodeMembers(ms));
      PushMembers(ms, v);
  }

  method PushElems(es: seq<Json>, v: ByteVector)
    modifies v
    ensures v.data == old(v.data) + EncodeElems(es)
    decreases es, 0
  {
    assert es[0..] == es;
    for i := 0 to |es|
      invariant v.data + EncodeElems(es[i..]) == old(v.data) + EncodeElems(es)
    {
      DropStep(es, i);
      Assoc(v.data, Encode(es[i]), EncodeElems(es[i + 1..]));
      ToMsgPack(es[i], v);
    }
    assert es[|es|..] == [];
    RightUnit(v.data);
  }

  method PushMembers(ms: Members<Json>, v: ByteVector)
    modifies v
    ensures v.data == old(v.data) + EncodeMembers(ms)
    decreases ms, 0
  {
    assert ms[0..] == ms;
    for i := 0 to |ms|
      invariant v.data + EncodeMembers(ms[i..]) == old(v.data) + EncodeMembers(ms)
    {
      DropStep(ms, i);
      var m := ms[i];
      Assoc(v.data, EncodeMember(m), EncodeMembers(ms[i + 1..]));
      Assoc(v.data, EncodeString(m.key), Encode(m.value));
      PushString(v, m.key);
      ToMsgPack(m.value, v);
    }
    assert ms[|ms|..] == [];
    RightUnit(v.data);
  }

  // ---------- reading ----------

  /** The vector and the index that `from_msgpack_internal` takes by reference. */
  class Reader {
    const v: Bytes
    var idx: nat

    constructor (v: Bytes)
      ensures this.v == v && idx == 0
    {
      this.v := v;
      idx := 0;
    }

    ghost predicate Valid()
      reads this
    {
      idx <= |v| <= MAX_SIZE
    }

    /** `get_from_vector` after the first byte, and the index moved behind what it read. */
    method Number(current: nat, log: nat) returns (r: Result<nat>)
      requires current < |v| <= MAX_SIZE && idx == current + 1
      modifies this
      ensures Agrees(ReadNumber(v, current, log), r, idx)
    {
      idx := idx + Width(log);
      r := GetFromVectorLoop(v, current, Width(log));
    }

    method Text(len: nat) returns (r: Result<Bytes>)
      requires Valid()
      modifies this
      ensures Agrees(ReadString(v, old(idx), len), r, idx)
    {
      var offset := idx;
      idx := Advance(idx, len);
      var _ :- CheckLength(|v|, len, offset);
      r := Ok(v[offset..offset + len]);
    }

    /** `from_msgpack_internal` */
    method Item() returns (r: Result<Json>)
      requires Valid()
      modifies this
      ensures Agrees(Decode(v, old(idx)), r, idx)
      decreases |v| - idx, 0
    {
      hide ReadNumber, ReadString, DecodeSimple, DecodeInteger, DecodeElems, DecodeMembers;
      var _ :- CheckLength(|v|, 1, idx);
      var current := idx;
      idx := idx + 1;
      var b: int := v[current];
      if b <= 0x7f {
        r := Ok(UInt(b));
      } else if b <= 0x8f {
        var ms :- Members(b - 0x80);
        r := Ok(Obj(ms));
      } else if b <= 0x9f {
        var es :- Elems(b - 0x90);
        r := Ok(Arr(es));
      } else if b <= 0xbf {
        var s :- Text(b - 0xa0);
        r := Ok(Str(s));
      } else if b >= 0xe0 {
        r := Ok(Int(b - 256));
      } else if 0xcc <= b <= 0xd3 {
        var x :- DecodeInteger(v, current, b);
        idx := x.next;
        r := Ok(x.value);
      } else if 0xd9 <= b <= 0xdb {
        var len :- Number(current, b - 0xd9);
        var s :- Text(len);
        r := Ok(Str(s));
      } else if 0xdc <= b <= 0xdd {
        var len :- Number(current, b - 0xdb);
        var es :- Elems(len);
        r := Ok(Arr(es));
      } else if 0xde <= b <= 0xdf {
        var len :- Number(current, b - 0xdd);
        var ms :- Members(len);
        r := Ok(Obj(ms));
      } else {
        var x :- DecodeSimple(v, current, b);
        idx := x.next;
        r := Ok(x.value);
      }
    }

    method Elems(len: nat) returns (r: Result<seq<Json>>)
      requires Valid()
      modifies this
      ensures Agrees(DecodeElems(v, old(idx), len, []), r, idx)
      decreases |v| - idx, 1
    {
      var result: seq<Json> := [];
      for i := 0 to len
        invariant old(idx) <= idx <= |v|
        invariant DecodeElems(v, old(idx), len, []) == DecodeElems(v, idx, len - i, result)
      {
        var x :- Item();
        result := result + [x];
      }
      r := Ok(result);
    }

    /** `std::string key = ...; result[key] = ...;` */
    method OneMember(done: Members<Json>) returns (r: Result<Members<Json>>)
      requires Valid()
      modifies this
      ensures Agrees(DecodeMember(v, old(idx), done), r, idx)
      decreases |v| - idx, 1
    {
      var k :- Item();
      var key :- AsString(k);
      var x :- Item();
      r := Ok(Insert(done, key, x));
    }

    method Members(len: nat) returns (r: Result<Members<Json>>)
      requires Valid()
      modifies this
      ensures Agrees(DecodeMembers(v, old(idx), len, []), r, idx)
      decreases |v| - idx, 2
    {
      var result: Members<Json> := [];
      for i := 0 to len
        invariant old(idx) <= idx <= |v|
        invariant DecodeMembers(v, old(idx), len, []) == DecodeMembers(v, idx, len - i, result)
      {
        result :- OneMember(result);
      }
      r := Ok(result);
    }
  }
}

/**
 The objects of the MessagePack specification that the decoder supports, written as trees, with their bytes and their
 values; and that the decoder accepts exactly these.
 */
module MsgPackFormat {
  import opened ByteStrings
  import opened Wrappers
  import opened Sequences
  import opened JsonValues
  import opened Binary
  import opened MsgPack
  import opened MsgPackLaws
  import C = CborFormat

  // ---------- items ----------

  /** A format with a first byte of its own has `size` bytes behind it for the number or the length. */
  datatype Item =
    | PositiveFixint(n: nat)
    | NegativeFixint(i: int)
    | Unsigned(size: nat, n: nat)
    | Signed(size: nat, i: int)
    | Nil
    | False
    | True
    | Single(bits: Bytes)
    | Double(bits: Bytes)
    | FixString(s: Bytes)
    | String(size: nat, s: Bytes)
    | FixArray(items: seq<Item>)
    | Array(size: nat, items: seq<Item>)
    | FixMap(pairs: seq<Pair>)
    | Map(size: nat, pairs: seq<Pair>)

  datatype Pair = Pair(key: Item, value: Item)

  predicate UnsignedOk(size: nat, n: nat)
  {
    || (size == 1 && n < 0x100)
    || (size == 2 && n < 0x1_0000)
    || (size == 4 && n < 0x1_0000_0000)
    || (size == 8 && n < 0x1_0000_0000_0000_0000)
  }

  predicate SignedOk(size: nat, i: int)
  {
    || (size == 1 && -0x80 <= i < 0x80)
    || (size == 2 && -0x8000 <= i < 0x8000)
    || (size == 4 && -0x8000_0000 <= i < 0x8000_0000)
    || (size == 8 && -0x8000_0000_0000_0000 <= i < 0x8000_0000_0000_0000)
  }

  predicate ItemOk(i: Item)
  {
    match i
    case PositiveFixint(n) => n < 128
    case NegativeFixint(n) => -32 <= n < 0
    case Unsigned(size, n) => UnsignedOk(size, n)
    case Signed(size, n) => SignedOk(size, n)
    case Single(bits) => |bits| == 4
    case Double(bits) => |bits| == 8
    case FixString(s) => |s| < 32
    case String(size, s) => size <= 4 && UnsignedOk(size, |s|)
    case FixArray(items) => |items| < 16 && forall k | 0 <= k < |items| :: ItemOk(items[k])
    case Array(size, items) =>
      (size == 2 || size == 4) && UnsignedOk(size, |items|) && forall k | 0 <= k < |items| :: ItemOk(items[k])
    case FixMap(pairs) =>
      |pairs| < 16 && forall k | 0 <= k < |pairs| :: ItemOk(pairs[k].key) && ItemOk(pairs[k].value)
    case Map(size, pairs) =>
      && (size == 2 || size == 4) && UnsignedOk(size, |pairs|)
      && forall k | 0 <= k < |pairs| :: ItemOk(pairs[k].key) && ItemOk(pairs[k].value)
    case _ => true
  }

  predicate AllOk(items: seq<Item>)
  {
    forall k | 0 <= k < |items| :: ItemOk(items[k])
  }

  predicate PairOk(p: Pair)
  {
    ItemOk(p.key) && ItemOk(p.value)
  }

  predicate PairsOk(pairs: seq<Pair>)
  {
    forall k | 0 <= k < |pairs| :: PairOk(pairs[k])
  }

  function Written(i: Item): (r: Bytes)
    requires ItemOk(i)
    ensures r != []
    decreases i, 0
  {
    match i
    case PositiveFixint(n) => [n]
    case NegativeFixint(n) => [256 + n]
    case Unsigned(size, n) =>
      [if size == 1 then 0xcc else if size == 2 then 0xcd else if size == 4 then 0xce else 0xcf] + ToBigEndian(n, size)
    case Signed(size, n) =>
      [if size == 1 then 0xd0 else if size == 2 then 0xd1 else if size == 4 then 0xd2 else 0xd3] + ToBigEndian(n, size)
    case Nil => [0xc0]
    case False => [0xc2]
    case True => [0xc3]
    case Single(bits) => [0xca] + bits
    case Double(bits) => [0xcb] + bits
    case FixString(s) => [0xa0 + |s|] + s
    case String(size, s) =>
      [if size == 1 then 0xd9 else if size == 2 then 0xda else 0xdb] + ToBigEndian(|s|, size) + s
    case FixArray(items) => [0x90 + |items|] + WrittenAll(items)
    case Array(size, items) => [if size == 2 then 0xdc else 0xdd] + ToBigEndian(|items|, size) + WrittenAll(items)
    case FixMap(pairs) => [0x80 + |pairs|] + WrittenPairs(pairs)
    case Map(size, pairs) => [if size == 2 then 0xde else 0xdf] + ToBigEndian(|pairs|, size) + WrittenPairs(pairs)
  }

  function WrittenAll(items: seq<Item>): Bytes
    requires AllOk(items)
    decreases items, 1
  {
    if items == [] then [] else Written(items[0]) + WrittenAll(items[1..])
  }

  function WrittenPair(p: Pair): Bytes
    requires PairOk(p)
    decreases p, 1
  {
    Written(p.key) + Written(p.value)
  }

  function WrittenPairs(pairs: seq<Pair>): Bytes
    requires PairsOk(pairs)
    decreases pairs, 1
  {
    if pairs == [] then [] else WrittenPair(pairs[0]) + WrittenPairs(pairs[1..])
  }

  // ---------- values ----------

  /** The value of an item, if there is one: every key must be one that a string can be made of. */
  function Value(i: Item): Option<Json>
    requires ItemOk(i)
    decreases i, 0
  {
    match i
    case PositiveFixint(n) => Some(UInt(n))
    case NegativeFixint(n) => Some(Int(n))
    case Unsigned(_, n) => Some(UInt(n))
    case Signed(_, n) => Some(Int(n))
    case Nil => Some(Null)
    case False => Some(Bool(false))
    case True => Some(Bool(true))
    case Single(bits) => Some(FromSingle(bits))
    case Double(bits) => Some(FromDouble(bits))
    case FixString(s) => Some(Str(s))
    case String(_, s) => Some(Str(s))
    case FixArray(items) => var es := Values(items); if es.Some? then Some(Arr(es.value)) else None
    case Array(_, items) => var es := Values(items); if es.Some? then Some(Arr(es.value)) else None
    case FixMap(pairs) => var ms := Filled(pairs, []); if ms.Some? then Some(Obj(ms.value)) else None
    case Map(_, pairs) => var ms := Filled(pairs, []); if ms.Some? then Some(Obj(ms.value)) else None
  }

  /** The elements in order. */
  function Values(items: seq<Item>): Option<seq<Json>>
    requires AllOk(items)
    decreases items, 1
  {
    if items == [] then Some([])
    else
      var j, rest := Value(items[0]), Values(items[1..]);
      if j.Some? && rest.Some? then Some([j.value] + rest.value) else None
  }

  function MemberOf(p: Pair): Option<Member<Json>>
    requires PairOk(p)
    decreases p, 1
  {
    var k, j := Value(p.key), Value(p.value);
    if k.Some? && C.TextOf(k.value).Some? && j.Some? then Some(Member(C.TextOf(k.value).value, j.value)) else None
  }

  /** The members, each put into the object in turn. */
  function Filled(pairs: seq<Pair>, done: Members<Json>): Option<Members<Json>>
    requires PairsOk(pairs)
    decreases pairs, 1
  {
    if pairs == [] then Some(done)
    else
      var m := MemberOf(pairs[0]);
      if m.Some? then Filled(pairs[1..], Insert(done, m.value.key, m.value.value)) else None
  }

  // ---------- numbers ----------

  function Log(size: nat): nat
  {
    if size == 1 then 0 else if size == 2 then 1 else if size == 4 then 2 else 3
  }

  /** A number behind a first byte. */
  lemma NumberReads(v: Bytes, idx: nat, tag: Byte, size: nat, n: int)
    requires size == 1 || size == 2 || size == 4 || size == 8
    requires Holds(v, idx, [tag] + ToBigEndian(n, size))
    ensures idx < |v| && v[idx] == tag && idx + 1 + size <= |v|
    ensures ReadNumber(v, idx, Log(size)) == Ok(Read(n % Pow256(size), idx + 1 + size))
  {
    hide Holds, ReadNumber, ToBigEndian, Pow256;
    HoldsLength(v, idx, [tag] + ToBigEndian(n, size));
    NumberReadsBack(v, idx, tag, n, Log(size));
  }

  lemma UnsignedFits(size: nat, n: nat)
    requires UnsignedOk(size, n)
    ensures n % Pow256(size) == n
  {
    Powers();
    SmallMod(n, Pow256(size));
  }

  lemma SignedFits(size: nat, i: int)
    requires SignedOk(size, i)
    ensures SignedOf(i % Pow256(size), size) == i
  {
    Powers();
    if i < 0 {
      SignedOfNegative(i, size);
    } else {
      SmallMod(i, Pow256(size));
    }
  }

  /** The number that has been read. */
  lemma NumberOf(v: Bytes, idx: nat, log: nat) returns (size: nat)
    requires idx < |v| && log <= 3 && ReadNumber(v, idx, log).Ok?
    ensures size == Width(log) && Log(size) == log
    ensures var r := ReadNumber(v, idx, log).value;
      && UnsignedOk(size, r.value) && SignedOk(size, SignedOf(r.value, size))
      && r.next == idx + 1 + size <= |v|
      && v[idx..r.next] == [v[idx]] + ToBigEndian(r.value, size)
      && ToBigEndian(SignedOf(r.value, size), size) == ToBigEndian(r.value, size)
  {
    hide ToBigEndian, FromBigEndian, Pow256;
    Powers();
    size := Width(log);
    var r := ReadNumber(v, idx, log).value;
    var bytes := v[idx + 1..idx + 1 + size];
    BackToBigEndian(bytes);
    BigEndianPeriod(r.value, size);
    assert v[idx..r.next] == [v[idx]] + bytes;
  }

  // ---------- the first byte ----------

  lemma AtFixint(v: Bytes, idx: nat)
    requires idx < |v| <= MAX_SIZE && (v[idx] < 0x80 || v[idx] >= 0xe0)
    ensures Decode(v, idx) == Ok(Read(if v[idx] < 0x80 then UInt(v[idx]) else Int(v[idx] as int - 256), idx + 1))
  {
    FixedInteger(v, idx, v[idx]);
  }

  lemma AtInteger(v: Bytes, idx: nat, log: nat, signed: bool)
    requires idx < |v| <= MAX_SIZE && log <= 3 && v[idx] == (if signed then 0xd0 else 0xcc) + log
    ensures Decode(v, idx) ==
      var n := ReadNumber(v, idx, log);
      if n.Err? then Err(n.error)
      else Ok(Read(if signed then Int(SignedOf(n.value.value, Width(log))) else UInt(n.value.value), n.value.next))
  {
    hide ReadNumber, SignedOf, Decode;
    Powers();
    TaggedInteger(v, idx, v[idx]);
  }

  lemma AtFixString(v: Bytes, idx: nat, n: nat)
    requires idx < |v| <= MAX_SIZE && n < 32 && v[idx] == 0xa0 + n
    ensures Decode(v, idx) ==
      var s := ReadString(v, idx + 1, n);
      if s.Ok? then Ok(Read(Str(s.value.value), s.value.next)) else Err(s.error)
  {
    hide ReadString;
  }

  lemma AtString(v: Bytes, idx: nat, log: nat)
    requires idx < |v| <= MAX_SIZE && log <= 2 && v[idx] == 0xd9 + log
    ensures Decode(v, idx) ==
      var n := ReadNumber(v, idx, log);
      if n.Err? then Err(n.error)
      else
        var s := ReadString(v, n.value.next, n.value.value);
        if s.Ok? then Ok(Read(Str(s.value.value), s.value.next)) else Err(s.error)
  {
    hide ReadNumber, ReadString;
  }

  lemma AtFixArray(v: Bytes, idx: nat, n: nat)
    requires idx < |v| <= MAX_SIZE && n < 16 && v[idx] == 0x90 + n
    ensures Decode(v, idx) ==
      var es := DecodeElems(v, idx + 1, n, []);
      if es.Ok? then Ok(Read(Arr(es.value.value), es.value.next)) else Err(es.error)
  {
    hide DecodeElems;
  }

  lemma AtArray(v: Bytes, idx: nat, log: nat)
    requires idx < |v| <= MAX_SIZE && 1 <= log <= 2 && v[idx] == 0xdb + log
    ensures Decode(v, idx) ==
      var n := ReadNumber(v, idx, log);
      if n.Err? then Err(n.error)
      else
        var es := DecodeElems(v, n.value.next, n.value.value, []);
        if es.Ok? then Ok(Read(Arr(es.value.value), es.value.next)) else Err(es.error)
  {
    hide ReadNumber, DecodeElems;
  }

  lemma AtFixMap(v: Bytes, idx: nat, n: nat)
    requires idx < |v| <= MAX_SIZE && n < 16 && v[idx] == 0x80 + n
    ensures Decode(v, idx) ==
      var ms := DecodeMembers(v, idx + 1, n, []);
      if ms.Ok? then Ok(Read(Obj(ms.value.value), ms.value.next)) else Err(ms.error)
  {
    hide DecodeMembers;
  }

  lemma AtMap(v: Bytes, idx: nat, log: nat)
    requires idx < |v| <= MAX_SIZE && 1 <= log <= 2 && v[idx] == 0xdd + log
    ensures Decode(v, idx) ==
      var n := ReadNumber(v, idx, log);
      if n.Err? then Err(n.error)
      else
        var ms := DecodeMembers(v, n.value.next, n.value.value, []);
        if ms.Ok? then Ok(Read(Obj(ms.value.value), ms.value.next)) else Err(ms.error)
  {
    hide ReadNumber, DecodeMembers;
  }

  predicate SimpleByte(b: int)
  {
    (0xc0 <= b <= 0xcb) || (0xd4 <= b <= 0xd8)
  }

  lemma AtSimple(v: Bytes, idx: nat)
    requires idx < |v| <= MAX_SIZE && SimpleByte(v[idx])
    ensures Decode(v, idx) == DecodeSimple(v, idx, v[idx])
  {
    hide DecodeSimple;
  }

  /** First bytes that start none of the items make the decoder throw. */
  lemma NoItem(v: Bytes, idx: nat)
    requires idx < |v| <= MAX_SIZE
    requires var b := v[idx]; b == 0xc1 || 0xc4 <= b <= 0xc9 || 0xd4 <= b <= 0xd8
    ensures Decode(v, idx) == Err(InvalidArgument)
  {
    AtSimple(v, idx);
  }

  // ---------- every item is read ----------

  /** Wherever an item stands, the decoder gives its value and stops behind it; without a value, it throws. */
  lemma {:induction false} ItemReads(v: Bytes, idx: nat, i: Item)
    requires |v| <= MAX_SIZE && ItemOk(i) && Holds(v, idx, Written(i))
    ensures Decode(v, idx) == C.Outcome(Value(i), idx + |Written(i)|)
    decreases i, 2
  {
    hide Decode, Holds, Written, Value, ItemOk;
    match i
    case PositiveFixint(_) => FixintReads(v, idx, i);
    case NegativeFixint(_) => FixintReads(v, idx, i);
    case Unsigned(_, _) => IntegerReads(v, idx, i);
    case Signed(_, _) => IntegerReads(v, idx, i);
    case FixString(_) => TextReads(v, idx, i);
    case String(_, _) => TextReads(v, idx, i);
    case FixArray(_) => ArrayReads(v, idx, i);
    case Array(_, _) => ArrayReads(v, idx, i);
    case FixMap(_) => MapReads(v, idx, i);
    case Map(_, _) => MapReads(v, idx, i);
    case _ => SimpleReads(v, idx, i);
  }

  lemma FixintReads(v: Bytes, idx: nat, i: Item)
    requires |v| <= MAX_SIZE && ItemOk(i) && (i.PositiveFixint? || i.NegativeFixint?) && Holds(v, idx, Written(i))
    ensures Decode(v, idx) == C.Outcome(Value(i), idx + |Written(i)|)
  {
    hide Decode, Holds;
    HoldsFirst(v, idx, Written(i));
    AtFixint(v, idx);
  }

  lemma IntegerReads(v: Bytes, idx: nat, i: Item)
    requires |v| <= MAX_SIZE && ItemOk(i) && (i.Unsigned? || i.Signed?) && Holds(v, idx, Written(i))
    ensures Decode(v, idx) == C.Outcome(Value(i), idx + |Written(i)|)
  {
    hide Decode, Holds, ReadNumber, ToBigEndian, Pow256, SignedOf;
    if i.Unsigned? {
      NumberReads(v, idx, Written(i)[0], i.size, i.n);
      UnsignedFits(i.size, i.n);
      AtInteger(v, idx, Log(i.size), false);
    } else {
      NumberReads(v, idx, Written(i)[0], i.size, i.i);
      SignedFits(i.size, i.i);
      AtInteger(v, idx, Log(i.size), true);
    }
  }

  /** A length behind a first byte, in front of the rest of an item. */
  lemma LengthReads(v: Bytes, idx: nat, tag: Byte, size: nat, n: nat, rest: Bytes)
    requires size <= 4 && UnsignedOk(size, n) && Holds(v, idx, [tag] + ToBigEndian(n, size) + rest)
    ensures idx < |v| && v[idx] == tag && ReadNumber(v, idx, Log(size)) == Ok(Read(n, idx + 1 + size))
    ensures Holds(v, idx + 1 + size, rest) && idx + 1 + size + |rest| <= |v|
  {
    hide Holds, ReadNumber, ToBigEndian, Pow256;
    HoldsParts(v, idx, [tag] + ToBigEndian(n, size), rest);
    NumberReads(v, idx, tag, size, n);
    UnsignedFits(size, n);
    HoldsLength(v, idx + 1 + size, rest);
  }

  /** A length in the first byte. */
  lemma FixReads(v: Bytes, idx: nat, tag: Byte, rest: Bytes)
    requires Holds(v, idx, [tag] + rest)
    ensures idx < |v| && v[idx] == tag && Holds(v, idx + 1, rest) && idx + 1 + |rest| <= |v|
  {
    HoldsFirst(v, idx, [tag] + rest);
    HoldsParts(v, idx, [tag], rest);
  }

  lemma TextReads(v: Bytes, idx: nat, i: Item)
    requires |v| <= MAX_SIZE && ItemOk(i) && (i.FixString? || i.String?) && Holds(v, idx, Written(i))
    ensures Decode(v, idx) == C.Outcome(Value(i), idx + |Written(i)|)
  {
    hide Decode, ReadNumber, ToBigEndian;
    if i.FixString? {
      FixReads(v, idx, 0xa0 + |i.s|, i.s);
      AtFixString(v, idx, |i.s|);
    } else {
      LengthReads(v, idx, Written(i)[0], i.size, |i.s|, i.s);
      AtString(v, idx, Log(i.size));
    }
  }

  lemma ItemsOk(i: Item)
    requires ItemOk(i)
    ensures i.FixArray? ==> |i.items| < 16 && AllOk(i.items)
    ensures i.Array? ==> (i.size == 2 || i.size == 4) && UnsignedOk(i.size, |i.items|) && AllOk(i.items)
    ensures i.FixMap? ==> |i.pairs| < 16 && PairsOk(i.pairs)
    ensures i.Map? ==> (i.size == 2 || i.size == 4) && UnsignedOk(i.size, |i.pairs|) && PairsOk(i.pairs)
  {}

  lemma {:induction false} ArrayReads(v: Bytes, idx: nat, i: Item)
    requires |v| <= MAX_SIZE && ItemOk(i) && (i.FixArray? || i.Array?) && Holds(v, idx, Written(i))
    ensures Decode(v, idx) == C.Outcome(Value(i), idx + |Written(i)|)
    decreases i, 1
  {
    hide Decode, ReadNumber, ToBigEndian, Holds, ItemOk, WrittenAll, Values;
    ItemsOk(i);
    if Values(i.items).Some? {
      LeftUnit(Values(i.items).value);
    }
    if i.FixArray? {
      FixReads(v, idx, 0x90 + |i.items|, WrittenAll(i.items));
      AtFixArray(v, idx, |i.items|);
      ElemsRead(v, idx + 1, i.items, []);
    } else {
      LengthReads(v, idx, Written(i)[0], i.size, |i.items|, WrittenAll(i.items));
      AtArray(v, idx, Log(i.size));
      ElemsRead(v, idx + 1 + i.size, i.items, []);
    }
  }

  lemma {:induction false} MapReads(v: Bytes, idx: nat, i: Item)
    requires |v| <= MAX_SIZE && ItemOk(i) && (i.FixMap? || i.Map?) && Holds(v, idx, Written(i))
    ensures Decode(v, idx) == C.Outcome(Value(i), idx + |Written(i)|)
    decreases i, 1
  {
    hide Decode, ReadNumber, ToBigEndian, Holds, ItemOk, WrittenPairs, Filled;
    ItemsOk(i);
    if i.FixMap? {
      FixReads(v, idx, 0x80 + |i.pairs|, WrittenPairs(i.pairs));
      AtFixMap(v, idx, |i.pairs|);
      PairsRead(v, idx + 1, i.pairs, []);
    } else {
      LengthReads(v, idx, Written(i)[0], i.size, |i.pairs|, WrittenPairs(i.pairs));
      AtMap(v, idx, Log(i.size));
      PairsRead(v, idx + 1 + i.size, i.pairs, []);
    }
  }

  lemma SimpleReads(v: Bytes, idx: nat, i: Item)
    requires |v| <= MAX_SIZE && ItemOk(i) && Holds(v, idx, Written(i))
    requires i.Nil? || i.False? || i.True? || i.Single? || i.Double?
    ensures Decode(v, idx) == C.Outcome(Value(i), idx + |Written(i)|)
  {
    hide Decode, FromSingle, FromDouble;
    HoldsFirst(v, idx, Written(i));
    AtSimple(v, idx);
    if i.Single? {
      HoldsParts(v, idx, [0xca], i.bits);
    } else if i.Double? {
      HoldsParts(v, idx, [0xcb], i.bits);
    }
  }

  lemma {:induction false} ElemsRead(v: Bytes, idx: nat, items: seq<Item>, done: seq<Json>)
    requires |v| <= MAX_SIZE && AllOk(items) && idx <= |v| && Holds(v, idx, WrittenAll(items))
    ensures DecodeElems(v, idx, |items|, done) == C.Outcome(C.Appended(done, Values(items)), idx + |WrittenAll(items)|)
    decreases items, 1
  {
    hide Decode, Written, Value, Holds, ItemOk;
    if items == [] {
      RightUnit(done);
    } else {
      HoldsParts(v, idx, Written(items[0]), WrittenAll(items[1..]));
      ItemReads(v, idx, items[0]);
      if Value(items[0]).Some? {
        var j, next := Value(items[0]).value, idx + |Written(items[0])|;
        HoldsLength(v, next, WrittenAll(items[1..]));
        ElemsRead(v, next, items[1..], done + [j]);
        if Values(items[1..]).Some? {
          Assoc(done, [j], Values(items[1..]).value);
        }
      }
    }
  }

  lemma {:induction false} PairReads(v: Bytes, idx: nat, p: Pair, done: Members<Json>)
    requires |v| <= MAX_SIZE && PairOk(p) && idx <= |v| && Holds(v, idx, WrittenPair(p))
    ensures DecodeMember(v, idx, done) ==
      var m := MemberOf(p);
      if m.Some? then Ok(Read(Insert(done, m.value.key, m.value.value), idx + |WrittenPair(p)|)) else Err(DomainError)
    decreases p, 3
  {
    hide Decode, Written, Value, Holds, ItemOk, C.TextOf, AsString, Insert;
    HoldsParts(v, idx, Written(p.key), Written(p.value));
    ItemReads(v, idx, p.key);
    HoldsLength(v, idx + |Written(p.key)|, Written(p.value));
    if Value(p.key).Some? {
      C.SameText(Value(p.key).value);
      ItemReads(v, idx + |Written(p.key)|, p.value);
    }
  }

  lemma {:induction false} PairsRead(v: Bytes, idx: nat, pairs: seq<Pair>, done: Members<Json>)
    requires |v| <= MAX_SIZE && PairsOk(pairs) && idx <= |v| && Holds(v, idx, WrittenPairs(pairs))
    ensures DecodeMembers(v, idx, |pairs|, done) == C.Outcome(Filled(pairs, done), idx + |WrittenPairs(pairs)|)
    decreases pairs, 1
  {
    hide DecodeMember, WrittenPair, MemberOf, Holds, PairOk, Insert;
    if pairs != [] {
      HoldsParts(v, idx, WrittenPair(pairs[0]), WrittenPairs(pairs[1..]));
      PairReads(v, idx, pairs[0], done);
      if MemberOf(pairs[0]).Some? {
        var m, next := MemberOf(pairs[0]).value, idx + |WrittenPair(pairs[0])|;
        HoldsLength(v, next, WrittenPairs(pairs[1..]));
        PairsRead(v, next, pairs[1..], Insert(done, m.key, m.value));
      }
    }
  }

  // ---------- everything that is read is an item ----------

  /** The bytes from `idx` to `next` are those of an item with this value. */
  predicate IsItem(v: Bytes, idx: nat, i: Item, r: Read<Json>)
  {
    idx <= r.next <= |v| && ItemOk(i) && v[idx..r.next] == Written(i) && Value(i) == Some(r.value)
  }

  lemma {:induction false} ItemOf(v: Bytes, idx: nat) returns (i: Item)
    requires idx <= |v| <= MAX_SIZE && Decode(v, idx).Ok?
    ensures IsItem(v, idx, i, Decode(v, idx).value)
    decreases |v| - idx, 2
  {
    hide IsItem, ReadNumber, ReadString, DecodeElems, DecodeMembers, DecodeSimple, DecodeInteger;
    var b: int := v[idx];
    if b <= 0x7f || b >= 0xe0 {
      i := FixintOf(v, idx);
    } else if b <= 0x8f || 0xde <= b {
      i := MapOf(v, idx);
    } else if b <= 0x9f || 0xdc <= b {
      i := ArrayOf(v, idx);
    } else if b <= 0xbf {
      i := FixStringOf(v, idx);
    } else if 0xd9 <= b {
      i := StringOf(v, idx);
    } else if 0xcc <= b <= 0xd3 {
      i := IntegerOf(v, idx);
    } else {
      AtSimple(v, idx);
      i := SimpleOf(v, idx);
    }
  }

  lemma FixintOf(v: Bytes, idx: nat) returns (i: Item)
    requires idx < |v| <= MAX_SIZE && (v[idx] < 0x80 || v[idx] >= 0xe0)
    ensures Decode(v, idx).Ok? && IsItem(v, idx, i, Decode(v, idx).value)
  {
    hide Decode;
    AtFixint(v, idx);
    i := if v[idx] < 0x80 then PositiveFixint(v[idx]) else NegativeFixint(v[idx] as int - 256);
    assert v[idx..idx + 1] == [v[idx]];
  }

  lemma IntegerOf(v: Bytes, idx: nat) returns (i: Item)
    requires idx < |v| <= MAX_SIZE && 0xcc <= v[idx] <= 0xd3 && Decode(v, idx).Ok?
    ensures IsItem(v, idx, i, Decode(v, idx).value)
  {
    hide Decode, ReadNumber, ToBigEndian, SignedOf;
    var signed := v[idx] >= 0xd0;
    var log: nat := v[idx] as int - if signed then 0xd0 else 0xcc;
    AtInteger(v, idx, log, signed);
    var size := NumberOf(v, idx, log);
    var n := ReadNumber(v, idx, log).value.value;
    i := if signed then Signed(size, SignedOf(n, size)) else Unsigned(size, n);
  }

  lemma FixStringOf(v: Bytes, idx: nat) returns (i: Item)
    requires idx < |v| <= MAX_SIZE && 0xa0 <= v[idx] <= 0xbf && Decode(v, idx).Ok?
    ensures IsItem(v, idx, i, Decode(v, idx).value)
  {
    hide Decode, Advance;
    var next := Decode(v, idx).value.next;
    var n: nat := v[idx] as int - 0xa0;
    AtFixString(v, idx, n);
    i := FixString(v[idx + 1..next]);
    assert v[idx..next] == [v[idx]] + v[idx + 1..next];
  }

  lemma StringOf(v: Bytes, idx: nat) returns (i: Item)
    requires idx < |v| <= MAX_SIZE && 0xd9 <= v[idx] <= 0xdb && Decode(v, idx).Ok?
    ensures IsItem(v, idx, i, Decode(v, idx).value)
  {
    hide Decode, ReadNumber, ToBigEndian, Advance, Pow256, SignedOf, IsItem;
    var log: nat := v[idx] as int - 0xd9;
    AtString(v, idx, log);
    var size := NumberOf(v, idx, log);
    var n := ReadNumber(v, idx, log).value;
    i := String(size, v[n.next..n.next + n.value]);
    StringIsItem(v, idx, size, n.next, n.next + n.value);
  }

  lemma StringIsItem(v: Bytes, idx: nat, size: nat, start: nat, next: nat)
    requires idx < start <= next <= |v| && size <= 4 && UnsignedOk(size, next - start)
    requires v[idx] == 0xd9 + Log(size) && v[idx..start] == [v[idx]] + ToBigEndian(next - start, size)
    ensures IsItem(v, idx, String(size, v[start..next]), Read(Str(v[start..next]), next))
  {
    hide ToBigEndian;
    Cut(v, idx, start, next);
  }

  lemma AreOk(items: seq<Item>)
    requires AllOk(items)
    ensures forall k :: 0 <= k < |items| ==> ItemOk(items[k])
  {}

  lemma PairsAreOk(pairs: seq<Pair>)
    requires PairsOk(pairs)
    ensures forall k :: 0 <= k < |pairs| ==> ItemOk(pairs[k].key) && ItemOk(pairs[k].value)
  {
    forall k | 0 <= k < |pairs|
      ensures ItemOk(pairs[k].key) && ItemOk(pairs[k].value)
    {
      assert PairOk(pairs[k]);
    }
  }

  lemma {:induction false} ArrayOf(v: Bytes, idx: nat) returns (i: Item)
    requires idx < |v| <= MAX_SIZE && (0x90 <= v[idx] <= 0x9f || 0xdc <= v[idx] <= 0xdd) && Decode(v, idx).Ok?
    ensures IsItem(v, idx, i, Decode(v, idx).value)
    decreases |v| - idx, 1
  {
    hide Decode, ReadNumber, ToBigEndian, DecodeElems, Values, WrittenAll, AllOk;
    var next := Decode(v, idx).value.next;
    if v[idx] <= 0x9f {
      var n: nat := v[idx] as int - 0x90;
      AtFixArray(v, idx, n);
      var items := ElemsOf(v, idx + 1, n, []);
      i := FixArray(items);
      AreOk(items);
      LeftUnit(Values(items).value);
      assert v[idx..next] == [v[idx]] + v[idx + 1..next];
    } else {
      var log: nat := v[idx] as int - 0xdb;
      AtArray(v, idx, log);
      var size := NumberOf(v, idx, log);
      var n := ReadNumber(v, idx, log).value;
      var items := ElemsOf(v, n.next, n.value, []);
      i := Array(size, items);
      AreOk(items);
      LeftUnit(Values(items).value);
      Cut(v, idx, n.next, next);
    }
  }

  lemma {:induction false} MapOf(v: Bytes, idx: nat) returns (i: Item)
    requires idx < |v| <= MAX_SIZE && (0x80 <= v[idx] <= 0x8f || 0xde <= v[idx] <= 0xdf) && Decode(v, idx).Ok?
    ensures IsItem(v, idx, i, Decode(v, idx).value)
    decreases |v| - idx, 1
  {
    hide Decode, ReadNumber, ToBigEndian, DecodeMembers, Filled, WrittenPairs, PairsOk;
    var next := Decode(v, idx).value.next;
    if v[idx] <= 0x8f {
      var n: nat := v[idx] as int - 0x80;
      AtFixMap(v, idx, n);
      var pairs := PairsOf(v, idx + 1, n, []);
      i := FixMap(pairs);
      PairsAreOk(pairs);
      assert v[idx..next] == [v[idx]] + v[idx + 1..next];
    } else {
      var log: nat := v[idx] as int - 0xdd;
      AtMap(v, idx, log);
      var size := NumberOf(v, idx, log);
      var n := ReadNumber(v, idx, log).value;
      var pairs := PairsOf(v, n.next, n.value, []);
      i := Map(size, pairs);
      PairsAreOk(pairs);
      Cut(v, idx, n.next, next);
    }
  }

  lemma SimpleOf(v: Bytes, idx: nat) returns (i: Item)
    requires idx < |v| <= MAX_SIZE && DecodeSimple(v, idx, v[idx]).Ok?
    ensures IsItem(v, idx, i, DecodeSimple(v, idx, v[idx]).value)
  {
    hide FromSingle, FromDouble;
    var next := DecodeSimple(v, idx, v[idx]).value.next;
    var bits := v[idx + 1..next];
    i := match v[idx]
      case 0xc0 => Nil
      case 0xc2 => False
      case 0xc3 => True
      case 0xca => Single(bits)
      case _ => Double(bits);
    assert v[idx..next] == [v[idx]] + bits;
  }

  lemma {:induction false} ElemsOf(v: Bytes, idx: nat, n: nat, done: seq<Json>) returns (items: seq<Item>)
    requires idx <= |v| <= MAX_SIZE && DecodeElems(v, idx, n, done).Ok?
    ensures |items| == n && AllOk(items) && Values(items).Some?
    ensures var r := DecodeElems(v, idx, n, done).value;
      idx <= r.next <= |v| && r.value == done + Values(items).value && v[idx..r.next] == WrittenAll(items)
    decreases |v| - idx, 3
  {
    hide Decode, Written, Value, ItemOk;
    if n == 0 {
      items := [];
      RightUnit(done);
    } else {
      var i := ItemOf(v, idx);
      var x := Decode(v, idx).value;
      var more := ElemsOf(v, x.next, n - 1, done + [x.value]);
      items := [i] + more;
      ConsTail(i, more);
      Assoc(done, [x.value], Values(more).value);
      Cut(v, idx, x.next, DecodeElems(v, idx, n, done).value.next);
    }
  }

  lemma {:induction false} PairOf(v: Bytes, idx: nat, done: Members<Json>) returns (p: Pair)
    requires idx <= |v| <= MAX_SIZE && DecodeMember(v, idx, done).Ok?
    ensures PairOk(p) && MemberOf(p).Some?
    ensures var r, m := DecodeMember(v, idx, done).value, MemberOf(p).value;
      idx <= r.next <= |v| && r.value == Insert(done, m.key, m.value) && v[idx..r.next] == WrittenPair(p)
    decreases |v| - idx, 3
  {
    hide Decode, Written, Value, ItemOk, C.TextOf, AsString, Insert;
    var key := ItemOf(v, idx);
    var k := Decode(v, idx).value;
    C.SameText(k.value);
    var value := ItemOf(v, k.next);
    p := Pair(key, value);
    Cut(v, idx, k.next, Decode(v, k.next).value.next);
  }

  lemma {:induction false} PairsOf(v: Bytes, idx: nat, n: nat, done: Members<Json>) returns (pairs: seq<Pair>)
    requires idx <= |v| <= MAX_SIZE && DecodeMembers(v, idx, n, done).Ok?
    ensures |pairs| == n && PairsOk(pairs)
    ensures var r := DecodeMembers(v, idx, n, done).value;
      idx <= r.next <= |v| && Filled(pairs, done) == Some(r.value) && v[idx..r.next] == WrittenPairs(pairs)
    decreases |v| - idx, 4
  {
    hide DecodeMember, WrittenPair, MemberOf, PairOk, Insert;
    if n == 0 {
      pairs := [];
    } else {
      var p := PairOf(v, idx, done);
      var m := DecodeMember(v, idx, done).value;
      var more := PairsOf(v, m.next, n - 1, m.value);
      pairs := [p] + more;
      ConsTail(p, more);
      Cut(v, idx, m.next, DecodeMembers(v, idx, n, done).value.next);
    }
  }

  /** For every vector and place: the decoder returns a value and an index exactly when such an item ends there. */
  lemma DecodesItems(v: Bytes, idx: nat, r: Read<Json>)
    requires idx <= |v| <= MAX_SIZE
    ensures Decode(v, idx) == Ok(r) <==> exists i :: IsItem(v, idx, i, r)
  {
    hide Decode, Value, Written, ItemOk;
    if Decode(v, idx) == Ok(r) {
      var i := ItemOf(v, idx);
    }
    forall i | IsItem(v, idx, i, r)
      ensures Decode(v, idx) == Ok(r)
    {
      ItemReads(v, idx, i);
    }
  }

  // ---------- repeated keys ----------

  /** The value of the last pair with a key. */
  function LastOf(pairs: seq<Pair>, k: Bytes): Option<Json>
    requires PairsOk(pairs)
  {
    if pairs == [] then None
    else
      var later := LastOf(pairs[1..], k);
      var m := MemberOf(pairs[0]);
      if later.Some? then later else if m.Some? && m.value.key == k then Some(m.value.value) else None
  }

  /** In the object that is read, the last pair with a key decides. */
  lemma {:induction false} LastPairDecides(pairs: seq<Pair>, done: Members<Json>, k: Bytes)
    requires PairsOk(pairs) && Filled(pairs, done).Some?
    ensures Find(Filled(pairs, done).value, k) ==
      if LastOf(pairs, k).Some? then LastOf(pairs, k) else Find(done, k)
    decreases |pairs|
  {
    hide MemberOf, PairOk, Find, Insert;
    if pairs != [] {
      var m := MemberOf(pairs[0]).value;
      FindAfterInsert(done, m.key, m.value, k);
      LastPairDecides(pairs[1..], Insert(done, m.key, m.value), k);
    }
  }

  // ---------- what is written ----------

  /** The fewest bytes for a number, a length, and a length of containers, which have no one-byte form. */
  function UnsignedSize(n: nat): nat
  {
    if n < 0x100 then 1 else if n < 0x1_0000 then 2 else if n < 0x1_0000_0000 then 4 else 8
  }

  function SignedSize(i: int): nat
  {
    if i >= -0x80 then 1 else if i >= -0x8000 then 2 else if i >= -0x8000_0000 then 4 else 8
  }

  function IntegerForm(i: int): Item
  {
    if 0 <= i < 128 then PositiveFixint(i)
    else if i >= 0 then Unsigned(UnsignedSize(i), i)
    else if i >= -32 then NegativeFixint(i)
    else Signed(SignedSize(i), i)
  }

  function StringForm(s: Bytes): Item
  {
    if |s| < 32 then FixString(s) else String(UnsignedSize(|s|), s)
  }

  function ArrayForm(items: seq<Item>): Item
  {
    if |items| < 16 then FixArray(items) else Array(if |items| < 0x1_0000 then 2 else 4, items)
  }

  function MapForm(pairs: seq<Pair>): Item
  {
    if |pairs| < 16 then FixMap(pairs) else Map(if |pairs| < 0x1_0000 then 2 else 4, pairs)
  }

  lemma IntegerLength(i: Item)
    requires ItemOk(i)
    ensures i.PositiveFixint? || i.NegativeFixint? ==> |Written(i)| == 1
    ensures i.Unsigned? || i.Signed? ==> |Written(i)| == 1 + i.size
  {
    hide ToBigEndian;
  }

  lemma StringLength(i: Item)
    requires ItemOk(i)
    ensures i.FixString? ==> |Written(i)| == 1 + |i.s|
    ensures i.String? ==> |Written(i)| == 1 + i.size + |i.s|
  {
    hide ToBigEndian;
  }

  lemma ArrayLength(i: Item)
    requires ItemOk(i)
    ensures i.FixArray? ==> AllOk(i.items) && |Written(i)| == 1 + |WrittenAll(i.items)|
    ensures i.Array? ==> AllOk(i.items) && |Written(i)| == 1 + i.size + |WrittenAll(i.items)|
  {
    hide ToBigEndian, WrittenAll;
  }

  lemma MapLength(i: Item)
    requires ItemOk(i)
    ensures i.FixMap? ==> PairsOk(i.pairs) && |Written(i)| == 1 + |WrittenPairs(i.pairs)|
    ensures i.Map? ==> PairsOk(i.pairs) && |Written(i)| == 1 + i.size + |WrittenPairs(i.pairs)|
  {
    hide ToBigEndian, WrittenPairs;
  }

  /** Every other form of an integer has at least as many bytes. */
  lemma IntegersAreShortest(i: Item)
    requires ItemOk(i) && (i.PositiveFixint? || i.Unsigned? || i.NegativeFixint? || i.Signed?)
    ensures var n: int := if i.PositiveFixint? || i.Unsigned? then i.n else i.i;
      ItemOk(IntegerForm(n)) && |Written(IntegerForm(n))| <= |Written(i)|
  {
    hide Written;
    var n: int := if i.PositiveFixint? || i.Unsigned? then i.n else i.i;
    assert ItemOk(IntegerForm(n));
    IntegerLength(i);
    IntegerLength(IntegerForm(n));
  }

  lemma StringsAreShortest(i: Item)
    requires ItemOk(i) && (i.FixString? || i.String?)
    ensures ItemOk(StringForm(i.s)) && |Written(StringForm(i.s))| <= |Written(i)|
  {
    hide Written;
    assert ItemOk(StringForm(i.s));
    StringLength(i);
    StringLength(StringForm(i.s));
  }

  lemma ArraysAreShortest(i: Item)
    requires ItemOk(i) && (i.FixArray? || i.Array?)
    ensures ItemOk(ArrayForm(i.items)) && |Written(ArrayForm(i.items))| <= |Written(i)|
  {
    hide Written;
    assert ItemOk(ArrayForm(i.items));
    ArrayLength(i);
    ArrayLength(ArrayForm(i.items));
  }

  lemma MapsAreShortest(i: Item)
    requires ItemOk(i) && (i.FixMap? || i.Map?)
    ensures ItemOk(MapForm(i.pairs)) && |Written(MapForm(i.pairs))| <= |Written(i)|
  {
    hide Written;
    assert ItemOk(MapForm(i.pairs));
    MapLength(i);
    MapLength(MapForm(i.pairs));
  }

  /** The item of a value: the shortest forms, and doubles with all their bytes. */
  function Canonical(j: Json): Item
    decreases j, 0
  {
    match j
    case Null => Nil
    case Bool(b) => if b then True else False
    case Int(i) => IntegerForm(i)
    case UInt(u) => IntegerForm(u)
    case Float(bits) => Item.Double(bits)
    case Str(s) => StringForm(s)
    case Arr(es) => ArrayForm(Canonicals(es))
    case Obj(ms) => MapForm(CanonicalPairs(ms))
  }

  function Canonicals(es: seq<Json>): (r: seq<Item>)
    ensures |r| == |es|
    decreases es, 1
  {
    if es == [] then [] else [Canonical(es[0])] + Canonicals(es[1..])
  }

  function CanonicalPair(m: Member<Json>): Pair
    decreases m, 1
  {
    Pair(StringForm(m.key), Canonical(m.value))
  }

  function CanonicalPairs(ms: seq<Member<Json>>): (r: seq<Pair>)
    ensures |r| == |ms|
    decreases ms, 1
  {
    if ms == [] then [] else [CanonicalPair(ms[0])] + CanonicalPairs(ms[1..])
  }

  lemma IntegerIsForm(i: int)
    requires -0x8000_0000_0000_0000 <= i < 0x1_0000_0000_0000_0000
    ensures ItemOk(IntegerForm(i)) && Written(IntegerForm(i)) == if i >= 0 then EncodeUnsigned(i) else EncodeNegative(i)
  {
    hide ToBigEndian;
    OneByte(i);
  }

  lemma StringIsForm(s: Bytes)
    requires |s| <= MAX_LENGTH
    ensures ItemOk(StringForm(s)) && Written(StringForm(s)) == EncodeString(s)
  {
    hide ToBigEndian;
  }

  lemma ArrayIsForm(items: seq<Item>)
    requires |items| <= MAX_LENGTH && AllOk(items)
    ensures ItemOk(ArrayForm(items))
    ensures Written(ArrayForm(items)) == ContainerHead(0x90, 0xdc, |items|) + WrittenAll(items)
  {
    hide ToBigEndian, WrittenAll;
  }

  lemma MapIsForm(pairs: seq<Pair>)
    requires |pairs| <= MAX_LENGTH && PairsOk(pairs)
    ensures ItemOk(MapForm(pairs))
    ensures Written(MapForm(pairs)) == ContainerHead(0x80, 0xde, |pairs|) + WrittenPairs(pairs)
  {
    hide ToBigEndian, WrittenPairs;
    PairsAreOk(pairs);
  }

  /** For every value that fits: the encoder writes exactly the bytes of its item. */
  lemma {:induction false} EncodeIsCanonical(j: Json)
    requires Fits(j)
    ensures ItemOk(Canonical(j)) && Written(Canonical(j)) == Encode(j)
    decreases j, 0
  {
    hide Written, ItemOk, EncodeElems, EncodeMembers, WrittenAll, WrittenPairs, ArrayForm, MapForm, IntegerForm,
      StringForm, ContainerHead, EncodeUnsigned, EncodeNegative, EncodeString;
    match j
    case Int(i) => IntegerIsForm(i);
    case UInt(u) => IntegerIsForm(u);
    case Str(s) => StringIsForm(s);
    case Arr(es) =>
      ElemsAreCanonical(es);
      ArrayIsForm(Canonicals(es));
    case Obj(ms) =>
      MembersAreCanonical(ms);
      MapIsForm(CanonicalPairs(ms));
    case _ => SimpleIsCanonical(j);
  }

  lemma SimpleIsCanonical(j: Json)
    requires j.Null? || j.Bool? || j.Float?
    ensures ItemOk(Canonical(j)) && Written(Canonical(j)) == Encode(j)
  {}

  lemma {:induction false} ElemsAreCanonical(es: seq<Json>)
    requires forall k :: 0 <= k < |es| ==> Fits(es[k])
    ensures AllOk(Canonicals(es)) && WrittenAll(Canonicals(es)) == EncodeElems(es)
    decreases es, 1
  {
    hide Canonical, Written, Encode, ItemOk, Fits;
    if es != [] {
      EncodeIsCanonical(es[0]);
      ElemsAreCanonical(es[1..]);
      ConsTail(Canonical(es[0]), Canonicals(es[1..]));
    }
  }

  lemma {:induction false} MemberIsCanonical(m: Member<Json>)
    requires |m.key| <= MAX_LENGTH && Fits(m.value)
    ensures PairOk(CanonicalPair(m)) && WrittenPair(CanonicalPair(m)) == EncodeMember(m)
    decreases m, 1
  {
    hide Canonical, Encode, EncodeString, StringForm, Written, ItemOk, Fits;
    StringIsForm(m.key);
    EncodeIsCanonical(m.value);
  }

  lemma {:induction false} MembersAreCanonical(ms: seq<Member<Json>>)
    requires forall k :: 0 <= k < |ms| ==> |ms[k].key| <= MAX_LENGTH && Fits(ms[k].value)
    ensures PairsOk(CanonicalPairs(ms)) && WrittenPairs(CanonicalPairs(ms)) == EncodeMembers(ms)
    decreases ms, 1
  {
    hide CanonicalPair, WrittenPair, EncodeMember, PairOk, Fits;
    if ms != [] {
      MemberIsCanonical(ms[0]);
      MembersAreCanonical(ms[1..]);
      ConsTail(CanonicalPair(ms[0]), CanonicalPairs(ms[1..]));
    }
  }

  /** Every proper prefix of an item that has a value is rejected as out of range. */
  lemma CutItemIsOutOfRange(i: Item, k: nat)
    requires ItemOk(i) && Value(i).Some? && k < |Written(i)| <= MAX_SIZE
    ensures Decode(Written(i)[..k], 0) == Err(OutOfRange)
  {
    hide Decode, Written, Value, ItemOk;
    var all, v := Written(i), Written(i)[..k];
    Parts(all, k);
    assert Holds(all, 0, all);
    ItemReads(all, 0, i);
    DecodeExtends(v, all[k..], 0);
  }
}

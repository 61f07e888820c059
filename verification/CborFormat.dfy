/**
 The data items of RFC 7049 that the decoder supports, written as trees, with their bytes and their values; and that
 the decoder accepts exactly these.
 */
module CborFormat {
  import opened ByteStrings
  import opened Wrappers
  import opened Sequences
  import opened JsonValues
  import opened Compare
  import opened Binary
  import opened Cbor
  import opened CborLaws

  // ---------- items ----------

  /** The argument of an item takes `size` bytes behind the first one, or none when it is part of that byte. */
  datatype Item =
    | Unsigned(size: nat, n: nat)
    | Negative(size: nat, n: nat)
    | TextString(size: nat, s: Bytes)
    | Chunks(items: seq<Item>)
    | Array(size: nat, items: seq<Item>)
    | OpenArray(items: seq<Item>)
    | Map(size: nat, pairs: seq<Pair>)
    | OpenMap(pairs: seq<Pair>)
    | False
    | True
    | Nil
    | Half(bits: Bytes)
    | Single(bits: Bytes)
    | Double(bits: Bytes)

  datatype Pair = Pair(key: Item, value: Item)

  predicate ArgumentOk(size: nat, n: nat)
  {
    || (size == 0 && n < 24)
    || (size == 1 && n < 0x100)
    || (size == 2 && n < 0x1_0000)
    || (size == 4 && n < 0x1_0000_0000)
    || (size == 8 && n < 0x1_0000_0000_0000_0000)
  }

  /** Five bits of additional information (RFC 7049, section 2). */
  function Info(size: nat, n: nat): nat
  {
    if size == 0 then n else if size == 1 then 24 else if size == 2 then 25 else if size == 4 then 26 else 27
  }

  /** Three bits of major type, the additional information, and the argument. */
  function Initial(major: nat, size: nat, n: nat): Bytes
    requires major < 8 && ArgumentOk(size, n)
  {
    var first: Byte := 32 * major + Info(size, n);
    [first] + ToBigEndian(n, size)
  }

  predicate ItemOk(i: Item)
  {
    match i
    case Unsigned(size, n) => ArgumentOk(size, n)
    case Negative(size, n) => ArgumentOk(size, n)
    case TextString(size, s) => ArgumentOk(size, |s|)
    case Chunks(items) => forall k | 0 <= k < |items| :: ItemOk(items[k])
    case Array(size, items) => ArgumentOk(size, |items|) && forall k | 0 <= k < |items| :: ItemOk(items[k])
    case OpenArray(items) => forall k | 0 <= k < |items| :: ItemOk(items[k])
    case Map(size, pairs) =>
      && ArgumentOk(size, |pairs|)
      && forall k | 0 <= k < |pairs| :: ItemOk(pairs[k].key) && ItemOk(pairs[k].value)
    case OpenMap(pairs) => forall k | 0 <= k < |pairs| :: ItemOk(pairs[k].key) && ItemOk(pairs[k].value)
    case Half(bits) => |bits| == 2
    case Single(bits) => |bits| == 4
    case Double(bits) => |bits| == 8
    case _ => true
  }

  predicate AllOk(items: seq<Item>)
  {
    forall k | 0 <= k < |items| :: ItemOk(items[k])
  }

  predicate PairOk(p: Pair)
  {
    ItemOk(p.key) && ItemOk(p.value)
  }

  predicate PairsOk(pairs: seq<Pair>)
  {
    forall k | 0 <= k < |pairs| :: PairOk(pairs[k])
  }

  /** The bytes of an item: unsigned 0, negative 1, text 3, array 4, map 5, and simple values and floats 7. */
  function Written(i: Item): (r: Bytes)
    requires ItemOk(i)
    ensures r != []
    decreases i, 0
  {
    match i
    case Unsigned(size, n) => Initial(0, size, n)
    case Negative(size, n) => Initial(1, size, n)
    case TextString(size, s) => Initial(3, size, |s|) + s
    case Chunks(items) => [0x7f] + (WrittenAll(items) + [0xff])
    case Array(size, items) => Initial(4, size, |items|) + WrittenAll(items)
    case OpenArray(items) => [0x9f] + (WrittenAll(items) + [0xff])
    case Map(size, pairs) => Initial(5, size, |pairs|) + WrittenPairs(pairs)
    case OpenMap(pairs) => [0xbf] + (WrittenPairs(pairs) + [0xff])
    case False => [0xf4]
    case True => [0xf5]
    case Nil => [0xf6]
    case Half(bits) => [0xf9] + bits
    case Single(bits) => [0xfa] + bits
    case Double(bits) => [0xfb] + bits
  }

  function WrittenAll(items: seq<Item>): Bytes
    requires AllOk(items)
    decreases items, 1
  {
    if items == [] then [] else Written(items[0]) + WrittenAll(items[1..])
  }

  function WrittenPair(p: Pair): Bytes
    requires PairOk(p)
    decreases p, 1
  {
    Written(p.key) + Written(p.value)
  }

  function WrittenPairs(pairs: seq<Pair>): Bytes
    requires PairsOk(pairs)
    decreases pairs, 1
  {
    if pairs == [] then [] else WrittenPair(pairs[0]) + WrittenPairs(pairs[1..])
  }

  // ---------- values ----------

  /** What a value is as a string: as it is, with null as the empty string, and booleans by their names. */
  function TextOf(j: Json): Option<Bytes>
  {
    match j
    case Str(s) => Some(s)
    case Null => Some([])
    case Bool(true) => Some(['t' as int, 'r' as int, 'u' as int, 'e' as int])
    case Bool(false) => Some(['f' as int, 'a' as int, 'l' as int, 's' as int, 'e' as int])
    case _ => None
  }

  /**
   The value of an item, if there is one: every key and every chunk must be one that a string can be made of. A negative
   number is -1 - n, with n reduced to a signed 64-bit number.
   */
  function Value(i: Item): Option<Json>
    requires ItemOk(i)
    decreases i, 0
  {
    match i
    case Unsigned(_, n) => Some(UInt(n))
    case Negative(_, n) => Some(Int(if n < 0x8000_0000_0000_0000 then -1 - n else -1 - (n - 0x1_0000_0000_0000_0000)))
    case TextString(_, s) => Some(Str(s))
    case Chunks(items) => var s := Joined(items); if s.Some? then Some(Str(s.value)) else None
    case Array(_, items) => var es := Values(items); if es.Some? then Some(Arr(es.value)) else None
    case OpenArray(items) => var es := Values(items); if es.Some? then Some(Arr(es.value)) else None
    case Map(_, pairs) => var ms := Filled(pairs, []); if ms.Some? then Some(Obj(ms.value)) else None
    case OpenMap(pairs) => var ms := Filled(pairs, []); if ms.Some? then Some(Obj(ms.value)) else None
    case False => Some(Bool(false))
    case True => Some(Bool(true))
    case Nil => Some(Null)
    case Half(bits) => Some(FromHalf(bits[0] as int * 0x100 + bits[1]))
    case Single(bits) => Some(FromSingle(bits))
    case Double(bits) => Some(FromDouble(bits))
  }

  /** The chunks in order. */
  function Joined(items: seq<Item>): Option<Bytes>
    requires AllOk(items)
    decreases items, 1
  {
    if items == [] then Some([])
    else
      var j, rest := Value(items[0]), Joined(items[1..]);
      if j.Some? && TextOf(j.value).Some? && rest.Some? then Some(TextOf(j.value).value + rest.value) else None
  }

  /** The elements in order. */
  function Values(items: seq<Item>): Option<seq<Json>>
    requires AllOk(items)
    decreases items, 1
  {
    if items == [] then Some([])
    else
      var j, rest := Value(items[0]), Values(items[1..]);
      if j.Some? && rest.Some? then Some([j.value] + rest.value) else None
  }

  function MemberOf(p: Pair): Option<Member<Json>>
    requires PairOk(p)
    decreases p, 1
  {
    var k, j := Value(p.key), Value(p.value);
    if k.Some? && TextOf(k.value).Some? && j.Some? then Some(Member(TextOf(k.value).value, j.value)) else None
  }

  /** The members, each put into the object in turn. */
  function Filled(pairs: seq<Pair>, done: Members<Json>): Option<Members<Json>>
    requires PairsOk(pairs)
    decreases pairs, 1
  {
    if pairs == [] then Some(done)
    else
      var m := MemberOf(pairs[0]);
      if m.Some? then Filled(pairs[1..], Insert(done, m.value.key, m.value.value)) else None
  }

  // ---------- heads ----------

  lemma ArgumentReads(v: Bytes, idx: nat, major: nat, size: nat, n: nat)
    requires major < 8 && ArgumentOk(size, n) && Holds(v, idx, Initial(major, size, n))
    ensures idx < |v| && v[idx] == 32 * major + Info(size, n) && Info(size, n) < 0x1c
    ensures ReadArgument(v, idx, Info(size, n)) == Ok(Read(n, idx + 1 + size))
    ensures |Initial(major, size, n)| == 1 + size
  {
    hide ToBigEndian, Pow256, GetFromVector;
    Powers();
    HoldsFirst(v, idx, Initial(major, size, n));
    if size > 0 {
      HoldsParts(v, idx, [v[idx]], ToBigEndian(n, size));
      ReadsBack(v, idx, n, size);
      SmallMod(n, Pow256(size));
    }
  }

  /** The head that has been read. */
  lemma ArgumentOf(v: Bytes, idx: nat, major: nat, low: nat) returns (size: nat)
    requires major < 8 && idx < |v| && low < 0x1c && v[idx] == 32 * major + low && ReadArgument(v, idx, low).Ok?
    ensures var r := ReadArgument(v, idx, low).value;
      ArgumentOk(size, r.value) && r.next == idx + 1 + size && v[idx..r.next] == Initial(major, size, r.value)
  {
    hide ToBigEndian, FromBigEndian, Pow256;
    Powers();
    var r := ReadArgument(v, idx, low).value;
    size :=
      if low <= 0x17 then 0 else if low == 0x18 then 1 else if low == 0x19 then 2 else if low == 0x1a then 4 else 8;
    var bytes := v[idx + 1..idx + 1 + size];
    if size > 0 {
      BackToBigEndian(bytes);
    } else {
      NoBytes(r.value);
    }
    assert v[idx..r.next] == [v[idx]] + bytes;
  }

  lemma NoBytes(n: nat)
    ensures ToBigEndian(n, 0) == []
  {}

  // ---------- the first byte ----------

  lemma AtUnsigned(v: Bytes, idx: nat, low: nat)
    requires idx < |v| <= MAX_SIZE && low < 0x1c && v[idx] == low
    ensures Decode(v, idx) ==
      var n := ReadArgument(v, idx, low);
      if n.Ok? then Ok(Read(UInt(n.value.value), n.value.next)) else Err(n.error)
  {
    hide ReadArgument;
  }

  lemma AtNegative(v: Bytes, idx: nat, low: nat)
    requires idx < |v| <= MAX_SIZE && low < 0x1c && v[idx] == 0x20 + low
    ensures Decode(v, idx) ==
      var n := ReadArgument(v, idx, low);
      if n.Ok? then Ok(Read(Int(-1 - ToSigned(n.value.value)), n.value.next)) else Err(n.error)
  {
    hide ReadArgument;
  }

  lemma AtText(v: Bytes, idx: nat, low: nat)
    requires idx < |v| <= MAX_SIZE && low < 0x1c && v[idx] == 0x60 + low
    ensures Decode(v, idx) ==
      var n := ReadArgument(v, idx, low);
      if n.Err? then Err(n.error)
      else
        var s := ReadString(v, n.value.next, n.value.value);
        if s.Ok? then Ok(Read(Str(s.value.value), s.value.next)) else Err(s.error)
  {
    hide ReadArgument, ReadString;
  }

  lemma AtChunks(v: Bytes, idx: nat)
    requires idx < |v| <= MAX_SIZE && v[idx] == 0x7f
    ensures Decode(v, idx) ==
      var s := DecodeChunks(v, idx + 1, []);
      if s.Ok? then Ok(Read(Str(s.value.value), s.value.next)) else Err(s.error)
  {
    hide DecodeChunks;
  }

  lemma AtArray(v: Bytes, idx: nat, low: nat)
    requires idx < |v| <= MAX_SIZE && low < 0x1c && v[idx] == 0x80 + low
    ensures Decode(v, idx) ==
      var n := ReadArgument(v, idx, low);
      if n.Err? then Err(n.error)
      else
        var es := DecodeElems(v, n.value.next, n.value.value, []);
        if es.Ok? then Ok(Read(Arr(es.value.value), es.value.next)) else Err(es.error)
  {
    hide ReadArgument, DecodeElems;
  }

  lemma AtOpenArray(v: Bytes, idx: nat)
    requires idx < |v| <= MAX_SIZE && v[idx] == 0x9f
    ensures Decode(v, idx) ==
      var es := DecodeElemsToBreak(v, idx + 1, []);
      if es.Ok? then Ok(Read(Arr(es.value.value), es.value.next)) else Err(es.error)
  {
    hide DecodeElemsToBreak;
  }

  lemma AtMap(v: Bytes, idx: nat, low: nat)
    requires idx < |v| <= MAX_SIZE && low < 0x1c && v[idx] == 0xa0 + low
    ensures Decode(v, idx) ==
      var n := ReadArgument(v, idx, low);
      if n.Err? then Err(n.error)
      else
        var ms := DecodeMembers(v, n.value.next, n.value.value, []);
        if ms.Ok? then Ok(Read(Obj(ms.value.value), ms.value.next)) else Err(ms.error)
  {
    hide ReadArgument, DecodeMembers;
  }

  lemma AtOpenMap(v: Bytes, idx: nat)
    requires idx < |v| <= MAX_SIZE && v[idx] == 0xbf
    ensures Decode(v, idx) ==
      var ms := DecodeMembersToBreak(v, idx + 1, []);
      if ms.Ok? then Ok(Read(Obj(ms.value.value), ms.value.next)) else Err(ms.error)
  {
    hide DecodeMembersToBreak;
  }

  /** Simple values, and everything that is not supported. */
  predicate SimpleByte(b: int)
  {
    && !(0 <= b < 0x1c) && !(0x20 <= b < 0x3c)
    && !(0x60 <= b < 0x7c) && b != 0x7f
    && !(0x80 <= b < 0x9c) && b != 0x9f
    && !(0xa0 <= b < 0xbc) && b != 0xbf
  }

  lemma AtSimple(v: Bytes, idx: nat)
    requires idx < |v| <= MAX_SIZE && SimpleByte(v[idx])
    ensures Decode(v, idx) == DecodeSimple(v, idx, v[idx])
  {
    hide DecodeSimple;
  }

  /** First bytes that start none of the items make the decoder throw. */
  lemma NoItem(v: Bytes, idx: nat)
    requires idx < |v| <= MAX_SIZE
    requires var b := v[idx];
      || 0x1c <= b < 0x20 || 0x3c <= b < 0x60 || 0x7c <= b < 0x7f || 0x9c <= b < 0x9f || 0xbc <= b < 0xbf
      || 0xc0 <= b < 0xf4 || b == 0xf7 || b == 0xf8 || 0xfc <= b
    ensures Decode(v, idx) == Err(InvalidArgument)
  {
    AtSimple(v, idx);
  }

  // ---------- every item is read ----------

  function Outcome<T>(x: Option<T>, next: nat): Result<Read<T>>
  {
    if x.Some? then Ok(Read(x.value, next)) else Err(DomainError)
  }

  lemma SameText(j: Json)
    ensures AsString(j) == if TextOf(j).Some? then Ok(TextOf(j).value) else Err(DomainError)
  {}

  /** Wherever an item stands, the decoder gives its value and stops behind it; without a value, it throws. */
  lemma {:induction false} ItemReads(v: Bytes, idx: nat, i: Item)
    requires |v| <= MAX_SIZE && ItemOk(i) && Holds(v, idx, Written(i))
    ensures Decode(v, idx) == Outcome(Value(i), idx + |Written(i)|)
    decreases i, 2
  {
    hide Decode, Holds, Written, Value, ItemOk;
    match i
    case Unsigned(_, _) => IntegerReads(v, idx, i);
    case Negative(_, _) => IntegerReads(v, idx, i);
    case TextString(_, _) => TextReads(v, idx, i);
    case Chunks(_) => OpenItemReads(v, idx, i);
    case Array(_, _) => CountedItemReads(v, idx, i);
    case OpenArray(_) => OpenItemReads(v, idx, i);
    case Map(_, _) => CountedItemReads(v, idx, i);
    case OpenMap(_) => OpenItemReads(v, idx, i);
    case _ => SimpleReads(v, idx, i);
  }

  lemma IntegerReads(v: Bytes, idx: nat, i: Item)
    requires |v| <= MAX_SIZE && ItemOk(i) && (i.Unsigned? || i.Negative?) && Holds(v, idx, Written(i))
    ensures Decode(v, idx) == Outcome(Value(i), idx + |Written(i)|)
  {
    hide Decode, Holds, Initial, Info, ReadArgument;
    if i.Unsigned? {
      ArgumentReads(v, idx, 0, i.size, i.n);
      AtUnsigned(v, idx, Info(i.size, i.n));
    } else {
      ArgumentReads(v, idx, 1, i.size, i.n);
      AtNegative(v, idx, Info(i.size, i.n));
    }
  }

  lemma {:induction false} CountedItemReads(v: Bytes, idx: nat, i: Item)
    requires |v| <= MAX_SIZE && ItemOk(i) && (i.Array? || i.Map?) && Holds(v, idx, Written(i))
    ensures Decode(v, idx) == Outcome(Value(i), idx + |Written(i)|)
    decreases i, 1
  {
    hide Decode, Holds, Initial, Info, ReadArgument, WrittenAll, WrittenPairs, Values, Filled, ItemOk;
    if i.Array? {
      var items := i.items;
      ItemsOk(i);
      HeadReads(v, idx, 4, i.size, |items|, WrittenAll(items));
      AtArray(v, idx, Info(i.size, |items|));
      ElemsRead(v, idx + 1 + i.size, items, []);
      if Values(items).Some? {
        LeftUnit(Values(items).value);
      }
    } else {
      var pairs := i.pairs;
      ItemsOk(i);
      HeadReads(v, idx, 5, i.size, |pairs|, WrittenPairs(pairs));
      AtMap(v, idx, Info(i.size, |pairs|));
      PairsRead(v, idx + 1 + i.size, pairs, []);
    }
  }

  lemma ItemsOk(i: Item)
    requires ItemOk(i)
    ensures i.Array? ==> ArgumentOk(i.size, |i.items|)
    ensures i.Map? ==> ArgumentOk(i.size, |i.pairs|) && PairsOk(i.pairs)
    ensures i.Array? || i.OpenArray? || i.Chunks? ==> AllOk(i.items)
    ensures i.OpenMap? ==> PairsOk(i.pairs)
  {}

  lemma {:induction false} OpenItemReads(v: Bytes, idx: nat, i: Item)
    requires |v| <= MAX_SIZE && ItemOk(i) && (i.Chunks? || i.OpenArray? || i.OpenMap?) && Holds(v, idx, Written(i))
    ensures Decode(v, idx) == Outcome(Value(i), idx + |Written(i)|)
    decreases i, 1
  {
    hide Decode, Holds, WrittenAll, WrittenPairs, Values, Filled, Joined, ItemOk;
    ItemsOk(i);
    if i.Chunks? {
      var next := OpenReads(v, idx, 0x7f, WrittenAll(i.items));
      AtChunks(v, idx);
      ChunksRead(v, next, i.items, []);
      if Joined(i.items).Some? {
        LeftUnit(Joined(i.items).value);
      }
    } else if i.OpenArray? {
      var next := OpenReads(v, idx, 0x9f, WrittenAll(i.items));
      AtOpenArray(v, idx);
      ElemsReadToBreak(v, next, i.items, []);
      if Values(i.items).Some? {
        LeftUnit(Values(i.items).value);
      }
    } else {
      var next := OpenReads(v, idx, 0xbf, WrittenPairs(i.pairs));
      AtOpenMap(v, idx);
      PairsReadToBreak(v, next, i.pairs, []);
    }
  }

  lemma TextReads(v: Bytes, idx: nat, i: Item)
    requires |v| <= MAX_SIZE && ItemOk(i) && i.TextString? && Holds(v, idx, Written(i))
    ensures Decode(v, idx) == Outcome(Value(i), idx + |Written(i)|)
  {
    hide Decode, Initial, Info, ReadArgument;
    HeadReads(v, idx, 3, i.size, |i.s|, i.s);
    AtText(v, idx, Info(i.size, |i.s|));
  }

  /** A head in front of the rest of an item. */
  lemma HeadReads(v: Bytes, idx: nat, major: nat, size: nat, n: nat, rest: Bytes)
    requires major < 8 && ArgumentOk(size, n) && Holds(v, idx, Initial(major, size, n) + rest)
    ensures idx < |v| && v[idx] == 32 * major + Info(size, n) && Info(size, n) < 0x1c
    ensures ReadArgument(v, idx, Info(size, n)) == Ok(Read(n, idx + 1 + size))
    ensures Holds(v, idx + 1 + size, rest) && idx + 1 + size + |rest| <= |v|
    ensures |Initial(major, size, n) + rest| == 1 + size + |rest|
  {
    hide Initial, Info, ReadArgument;
    HoldsParts(v, idx, Initial(major, size, n), rest);
    ArgumentReads(v, idx, major, size, n);
    HoldsLength(v, idx + 1 + size, rest);
  }

  /** A first byte of indefinite length, with its rest up to the break byte. */
  lemma OpenReads(v: Bytes, idx: nat, first: Byte, rest: Bytes) returns (next: nat)
    requires Holds(v, idx, [first] + (rest + [0xff]))
    ensures idx < |v| && v[idx] == first && next == idx + 1 <= |v| && Holds(v, next, rest + [0xff])
    ensures |[first] + (rest + [0xff])| == 1 + |rest| + 1
  {
    next := idx + 1;
    HoldsFirst(v, idx, [first] + (rest + [0xff]));
    HoldsParts(v, idx, [first], rest + [0xff]);
  }

  lemma SimpleReads(v: Bytes, idx: nat, i: Item)
    requires |v| <= MAX_SIZE && ItemOk(i) && Holds(v, idx, Written(i))
    requires i.False? || i.True? || i.Nil? || i.Half? || i.Single? || i.Double?
    ensures Decode(v, idx) == Outcome(Value(i), idx + |Written(i)|)
  {
    hide Decode, FromHalf, FromSingle, FromDouble;
    HoldsFirst(v, idx, Written(i));
    AtSimple(v, idx);
    if i.Half? {
      HoldsParts(v, idx, [0xf9], i.bits);
    } else if i.Single? {
      HoldsParts(v, idx, [0xfa], i.bits);
    } else if i.Double? {
      HoldsParts(v, idx, [0xfb], i.bits);
    }
  }

  lemma FirstByte(i: Item)
    requires ItemOk(i)
    ensures Written(i)[0] != 0xff
  {
    hide ToBigEndian, WrittenAll, WrittenPairs;
  }

  lemma BreakReads(v: Bytes, idx: nat)
    requires Holds(v, idx, [0xff])
    ensures idx < |v| && v[idx] == 0xff
  {
    HoldsFirst(v, idx, [0xff]);
  }

  /** The next item of several, with a break byte or nothing behind them. */
  lemma NextReads(v: Bytes, idx: nat, items: seq<Item>, end: Bytes)
    requires AllOk(items) && items != [] && Holds(v, idx, WrittenAll(items) + end)
    ensures ItemOk(items[0]) && AllOk(items[1..]) && Holds(v, idx, Written(items[0]))
    ensures Holds(v, idx + |Written(items[0])|, WrittenAll(items[1..]) + end)
    ensures |WrittenAll(items)| == |Written(items[0])| + |WrittenAll(items[1..])|
    ensures idx < |v| && v[idx] != 0xff
  {
    hide Written, ItemOk, Holds;
    Assoc(Written(items[0]), WrittenAll(items[1..]), end);
    HoldsParts(v, idx, Written(items[0]), WrittenAll(items[1..]) + end);
    FirstByte(items[0]);
    HoldsFirst(v, idx, Written(items[0]));
  }

  function Appended<T>(done: seq<T>, x: Option<seq<T>>): Option<seq<T>>
  {
    if x.Some? then Some(done + x.value) else None
  }

  lemma {:induction false} ElemsRead(v: Bytes, idx: nat, items: seq<Item>, done: seq<Json>)
    requires |v| <= MAX_SIZE && AllOk(items) && idx <= |v| && Holds(v, idx, WrittenAll(items))
    ensures DecodeElems(v, idx, |items|, done) == Outcome(Appended(done, Values(items)), idx + |WrittenAll(items)|)
    decreases items, 1
  {
    hide Decode, Written, Value, Holds, ItemOk;
    if items == [] {
      RightUnit(done);
    } else {
      RightUnit(WrittenAll(items));
      RightUnit(WrittenAll(items[1..]));
      NextReads(v, idx, items, []);
      ItemReads(v, idx, items[0]);
      if Value(items[0]).Some? {
        var j := Value(items[0]).value;
        var next := idx + |Written(items[0])|;
        HoldsLength(v, next, WrittenAll(items[1..]));
        ElemsRead(v, next, items[1..], done + [j]);
        if Values(items[1..]).Some? {
          Assoc(done, [j], Values(items[1..]).value);
        }
      }
    }
  }

  lemma {:induction false} ElemsReadToBreak(v: Bytes, idx: nat, items: seq<Item>, done: seq<Json>)
    requires |v| <= MAX_SIZE && AllOk(items) && idx <= |v| && Holds(v, idx, WrittenAll(items) + [0xff])
    ensures DecodeElemsToBreak(v, idx, done) ==
      Outcome(Appended(done, Values(items)), idx + |WrittenAll(items)| + 1)
    decreases items, 1
  {
    hide Decode, Written, Value, Holds, ItemOk;
    if items == [] {
      RightUnit(done);
      LeftUnit([0xff]);
      BreakReads(v, idx);
    } else {
      NextReads(v, idx, items, [0xff]);
      ItemReads(v, idx, items[0]);
      if Value(items[0]).Some? {
        var j := Value(items[0]).value;
        var next := idx + |Written(items[0])|;
        HoldsLength(v, next, WrittenAll(items[1..]) + [0xff]);
        ElemsReadToBreak(v, next, items[1..], done + [j]);
        if Values(items[1..]).Some? {
          Assoc(done, [j], Values(items[1..]).value);
        }
      }
    }
  }

  lemma {:induction false} ChunksRead(v: Bytes, idx: nat, items: seq<Item>, done: Bytes)
    requires |v| <= MAX_SIZE && AllOk(items) && idx <= |v| && Holds(v, idx, WrittenAll(items) + [0xff])
    ensures DecodeChunks(v, idx, done) == Outcome(Appended(done, Joined(items)), idx + |WrittenAll(items)| + 1)
    decreases items, 1
  {
    hide Decode, Written, Value, Holds, ItemOk, TextOf, AsString;
    if items == [] {
      RightUnit(done);
      LeftUnit([0xff]);
      BreakReads(v, idx);
    } else {
      NextReads(v, idx, items, [0xff]);
      ItemReads(v, idx, items[0]);
      if Value(items[0]).Some? {
        var j := Value(items[0]).value;
        SameText(j);
        if TextOf(j).Some? {
          var s, next := TextOf(j).value, idx + |Written(items[0])|;
          HoldsLength(v, next, WrittenAll(items[1..]) + [0xff]);
          ChunksRead(v, next, items[1..], done + s);
          if Joined(items[1..]).Some? {
            Assoc(done, s, Joined(items[1..]).value);
          }
        }
      }
    }
  }

  lemma {:induction false} PairReads(v: Bytes, idx: nat, p: Pair, done: Members<Json>)
    requires |v| <= MAX_SIZE && PairOk(p) && idx <= |v| && Holds(v, idx, WrittenPair(p))
    ensures DecodeMember(v, idx, done) ==
      var m := MemberOf(p);
      if m.Some? then Ok(Read(Insert(done, m.value.key, m.value.value), idx + |WrittenPair(p)|)) else Err(DomainError)
    decreases p, 3
  {
    hide Decode, Written, Value, Holds, ItemOk, TextOf, AsString, Insert;
    HoldsParts(v, idx, Written(p.key), Written(p.value));
    ItemReads(v, idx, p.key);
    HoldsLength(v, idx + |Written(p.key)|, Written(p.value));
    if Value(p.key).Some? {
      SameText(Value(p.key).value);
      ItemReads(v, idx + |Written(p.key)|, p.value);
    }
  }

  lemma NextPairReads(v: Bytes, idx: nat, pairs: seq<Pair>, end: Bytes)
    requires PairsOk(pairs) && pairs != [] && Holds(v, idx, WrittenPairs(pairs) + end)
    ensures PairOk(pairs[0]) && PairsOk(pairs[1..]) && Holds(v, idx, WrittenPair(pairs[0]))
    ensures Holds(v, idx + |WrittenPair(pairs[0])|, WrittenPairs(pairs[1..]) + end)
    ensures |WrittenPairs(pairs)| == |WrittenPair(pairs[0])| + |WrittenPairs(pairs[1..])|
    ensures idx < |v| && v[idx] != 0xff
  {
    hide Written, ItemOk, Holds;
    var p := pairs[0];
    assert PairOk(p);
    Assoc(WrittenPair(p), WrittenPairs(pairs[1..]), end);
    HoldsParts(v, idx, WrittenPair(p), WrittenPairs(pairs[1..]) + end);
    HoldsParts(v, idx, Written(p.key), Written(p.value));
    FirstByte(p.key);
    HoldsFirst(v, idx, Written(p.key));
  }

  lemma {:induction false} PairsRead(v: Bytes, idx: nat, pairs: seq<Pair>, done: Members<Json>)
    requires |v| <= MAX_SIZE && PairsOk(pairs) && idx <= |v| && Holds(v, idx, WrittenPairs(pairs))
    ensures DecodeMembers(v, idx, |pairs|, done) == Outcome(Filled(pairs, done), idx + |WrittenPairs(pairs)|)
    decreases pairs, 1
  {
    hide DecodeMember, WrittenPair, MemberOf, Holds, PairOk, Insert;
    if pairs != [] {
      RightUnit(WrittenPairs(pairs));
      RightUnit(WrittenPairs(pairs[1..]));
      NextPairReads(v, idx, pairs, []);
      PairReads(v, idx, pairs[0], done);
      if MemberOf(pairs[0]).Some? {
        var m, next := MemberOf(pairs[0]).value, idx + |WrittenPair(pairs[0])|;
        HoldsLength(v, next, WrittenPairs(pairs[1..]));
        PairsRead(v, next, pairs[1..], Insert(done, m.key, m.value));
      }
    }
  }

  lemma {:induction false} PairsReadToBreak(v: Bytes, idx: nat, pairs: seq<Pair>, done: Members<Json>)
    requires |v| <= MAX_SIZE && PairsOk(pairs) && idx <= |v| && Holds(v, idx, WrittenPairs(pairs) + [0xff])
    ensures DecodeMembersToBreak(v, idx, done) == Outcome(Filled(pairs, done), idx + |WrittenPairs(pairs)| + 1)
    decreases pairs, 1
  {
    hide DecodeMember, WrittenPair, MemberOf, Holds, PairOk, Insert;
    if pairs == [] {
      LeftUnit([0xff]);
      BreakReads(v, idx);
    } else {
      NextPairReads(v, idx, pairs, [0xff]);
      PairReads(v, idx, pairs[0], done);
      if MemberOf(pairs[0]).Some? {
        var m, next := MemberOf(pairs[0]).value, idx + |WrittenPair(pairs[0])|;
        HoldsLength(v, next, WrittenPairs(pairs[1..]) + [0xff]);
        PairsReadToBreak(v, next, pairs[1..], Insert(done, m.key, m.value));
      }
    }
  }

  // ---------- everything that is read is an item ----------

  /** The bytes from `idx` to `next` are those of an item with this value. */
  predicate IsItem(v: Bytes, idx: nat, i: Item, r: Read<Json>)
  {
    idx <= r.next <= |v| && ItemOk(i) && v[idx..r.next] == Written(i) && Value(i) == Some(r.value)
  }

  lemma {:induction false} ItemOf(v: Bytes, idx: nat) returns (i: Item)
    requires idx <= |v| <= MAX_SIZE && Decode(v, idx).Ok?
    ensures IsItem(v, idx, i, Decode(v, idx).value)
    decreases |v| - idx, 2
  {
    hide IsItem, ReadArgument, ReadString, DecodeElems, DecodeMembers, DecodeSimple;
    hide DecodeChunks, DecodeElemsToBreak, DecodeMembersToBreak;
    var b: int := v[idx];
    if b < 0x1c {
      i := UnsignedOf(v, idx, b);
    } else if 0x20 <= b < 0x3c {
      i := NegativeOf(v, idx, b - 0x20);
    } else if 0x60 <= b < 0x7c {
      i := TextStringOf(v, idx, b - 0x60);
    } else if 0x80 <= b < 0x9c {
      i := ArrayOf(v, idx, b - 0x80);
    } else if 0xa0 <= b < 0xbc {
      i := MapOf(v, idx, b - 0xa0);
    } else if b == 0x7f || b == 0x9f || b == 0xbf {
      i := OpenItemOf(v, idx);
    } else {
      AtSimple(v, idx);
      i := SimpleOf(v, idx);
    }
  }

  lemma UnsignedOf(v: Bytes, idx: nat, low: nat) returns (i: Item)
    requires idx < |v| <= MAX_SIZE && low < 0x1c && v[idx] == low && Decode(v, idx).Ok?
    ensures IsItem(v, idx, i, Decode(v, idx).value)
  {
    hide Decode, ReadArgument, Initial;
    AtUnsigned(v, idx, low);
    var size := ArgumentOf(v, idx, 0, low);
    i := Unsigned(size, ReadArgument(v, idx, low).value.value);
  }

  lemma NegativeOf(v: Bytes, idx: nat, low: nat) returns (i: Item)
    requires idx < |v| <= MAX_SIZE && low < 0x1c && v[idx] == 0x20 + low && Decode(v, idx).Ok?
    ensures IsItem(v, idx, i, Decode(v, idx).value)
  {
    hide Decode, ReadArgument, Initial;
    AtNegative(v, idx, low);
    var size := ArgumentOf(v, idx, 1, low);
    i := Negative(size, ReadArgument(v, idx, low).value.value);
  }

  lemma TextStringOf(v: Bytes, idx: nat, low: nat) returns (i: Item)
    requires idx < |v| <= MAX_SIZE && low < 0x1c && v[idx] == 0x60 + low && Decode(v, idx).Ok?
    ensures IsItem(v, idx, i, Decode(v, idx).value)
  {
    hide Decode, ReadArgument, Initial, Advance;
    AtText(v, idx, low);
    var size := ArgumentOf(v, idx, 3, low);
    var n := ReadArgument(v, idx, low).value;
    var s := v[n.next..n.next + n.value];
    i := TextString(size, s);
    Cut(v, idx, n.next, n.next + n.value);
  }

  lemma {:induction false} ArrayOf(v: Bytes, idx: nat, low: nat) returns (i: Item)
    requires idx < |v| <= MAX_SIZE && low < 0x1c && v[idx] == 0x80 + low && Decode(v, idx).Ok?
    ensures IsItem(v, idx, i, Decode(v, idx).value)
    decreases |v| - idx, 1
  {
    hide Decode, ReadArgument, Initial, DecodeElems, Values, WrittenAll, AllOk;
    AtArray(v, idx, low);
    var size := ArgumentOf(v, idx, 4, low);
    var n := ReadArgument(v, idx, low).value;
    var items := ElemsOf(v, n.next, n.value, []);
    i := Array(size, items);
    AreOk(items);
    LeftUnit(Values(items).value);
    Cut(v, idx, n.next, Decode(v, idx).value.next);
  }

  lemma AreOk(items: seq<Item>)
    requires AllOk(items)
    ensures forall k :: 0 <= k < |items| ==> ItemOk(items[k])
  {}

  lemma PairsAreOk(pairs: seq<Pair>)
    requires PairsOk(pairs)
    ensures forall k :: 0 <= k < |pairs| ==> ItemOk(pairs[k].key) && ItemOk(pairs[k].value)
  {
    forall k | 0 <= k < |pairs|
      ensures ItemOk(pairs[k].key) && ItemOk(pairs[k].value)
    {
      assert PairOk(pairs[k]);
    }
  }

  lemma {:induction false} MapOf(v: Bytes, idx: nat, low: nat) returns (i: Item)
    requires idx < |v| <= MAX_SIZE && low < 0x1c && v[idx] == 0xa0 + low && Decode(v, idx).Ok?
    ensures IsItem(v, idx, i, Decode(v, idx).value)
    decreases |v| - idx, 1
  {
    hide Decode, ReadArgument, Initial, DecodeMembers, Filled, WrittenPairs, PairsOk;
    AtMap(v, idx, low);
    var size := ArgumentOf(v, idx, 5, low);
    var n := ReadArgument(v, idx, low).value;
    var pairs := PairsOf(v, n.next, n.value, []);
    i := Map(size, pairs);
    PairsAreOk(pairs);
    Cut(v, idx, n.next, Decode(v, idx).value.next);
  }

  lemma {:induction false} OpenItemOf(v: Bytes, idx: nat) returns (i: Item)
    requires idx < |v| <= MAX_SIZE && (v[idx] == 0x7f || v[idx] == 0x9f || v[idx] == 0xbf) && Decode(v, idx).Ok?
    ensures IsItem(v, idx, i, Decode(v, idx).value)
    decreases |v| - idx, 1
  {
    hide Decode, DecodeChunks, DecodeElemsToBreak, DecodeMembersToBreak, AllOk, PairsOk;
    hide Values, Joined, Filled, WrittenAll, WrittenPairs;
    if v[idx] == 0x7f {
      AtChunks(v, idx);
      var items := ChunksOf(v, idx + 1, []);
      i := Chunks(items);
      AreOk(items);
      LeftUnit(Joined(items).value);
    } else if v[idx] == 0x9f {
      AtOpenArray(v, idx);
      var items := ElemsToBreakOf(v, idx + 1, []);
      i := OpenArray(items);
      AreOk(items);
      LeftUnit(Values(items).value);
    } else {
      AtOpenMap(v, idx);
      var pairs := PairsToBreakOf(v, idx + 1, []);
      i := OpenMap(pairs);
      PairsAreOk(pairs);
    }
    var next := Decode(v, idx).value.next;
    Cut(v, idx, idx + 1, next);
    assert v[idx..idx + 1] == [v[idx]];
  }

  lemma SimpleOf(v: Bytes, idx: nat) returns (i: Item)
    requires idx < |v| <= MAX_SIZE && DecodeSimple(v, idx, v[idx]).Ok?
    ensures IsItem(v, idx, i, DecodeSimple(v, idx, v[idx]).value)
  {
    hide FromHalf, FromSingle, FromDouble;
    var next := DecodeSimple(v, idx, v[idx]).value.next;
    var bits := v[idx + 1..next];
    i := match v[idx]
      case 0xf4 => False
      case 0xf5 => True
      case 0xf6 => Nil
      case 0xf9 => Half(bits)
      case 0xfa => Single(bits)
      case _ => Double(bits);
    assert v[idx..next] == [v[idx]] + bits;
  }

  lemma {:induction false} ElemsOf(v: Bytes, idx: nat, n: nat, done: seq<Json>) returns (items: seq<Item>)
    requires idx <= |v| <= MAX_SIZE && DecodeElems(v, idx, n, done).Ok?
    ensures |items| == n && AllOk(items) && Values(items).Some?
    ensures var r := DecodeElems(v, idx, n, done).value;
      idx <= r.next <= |v| && r.value == done + Values(items).value && v[idx..r.next] == WrittenAll(items)
    decreases |v| - idx, 3
  {
    hide Decode, Written, Value, ItemOk;
    if n == 0 {
      items := [];
      RightUnit(done);
    } else {
      var i := ItemOf(v, idx);
      var x := Decode(v, idx).value;
      var more := ElemsOf(v, x.next, n - 1, done + [x.value]);
      items := [i] + more;
      ConsTail(i, more);
      Assoc(done, [x.value], Values(more).value);
      Cut(v, idx, x.next, DecodeElems(v, idx, n, done).value.next);
    }
  }

  lemma {:induction false} ElemsToBreakOf(v: Bytes, idx: nat, done: seq<Json>) returns (items: seq<Item>)
    requires idx <= |v| <= MAX_SIZE && DecodeElemsToBreak(v, idx, done).Ok?
    ensures AllOk(items) && Values(items).Some?
    ensures var r := DecodeElemsToBreak(v, idx, done).value;
      && idx <= r.next <= |v| && r.value == done + Values(items).value
      && v[idx..r.next] == WrittenAll(items) + [0xff]
    decreases |v| - idx, 3
  {
    hide Decode, Written, Value, ItemOk;
    if v[idx] == 0xff {
      items := [];
      RightUnit(done);
      LeftUnit([0xff]);
    } else {
      var i := ItemOf(v, idx);
      var x := Decode(v, idx).value;
      var more := ElemsToBreakOf(v, x.next, done + [x.value]);
      items := [i] + more;
      ConsTail(i, more);
      Assoc(done, [x.value], Values(more).value);
      Cut(v, idx, x.next, DecodeElemsToBreak(v, idx, done).value.next);
      Assoc(Written(i), WrittenAll(more), [0xff]);
    }
  }

  lemma {:induction false} ChunksOf(v: Bytes, idx: nat, done: Bytes) returns (items: seq<Item>)
    requires idx <= |v| <= MAX_SIZE && DecodeChunks(v, idx, done).Ok?
    ensures AllOk(items) && Joined(items).Some?
    ensures var r := DecodeChunks(v, idx, done).value;
      && idx <= r.next <= |v| && r.value == done + Joined(items).value
      && v[idx..r.next] == WrittenAll(items) + [0xff]
    decreases |v| - idx, 3
  {
    hide Decode, Written, Value, ItemOk, TextOf, AsString;
    if v[idx] == 0xff {
      items := [];
      RightUnit(done);
      LeftUnit([0xff]);
    } else {
      var i := ItemOf(v, idx);
      var x := Decode(v, idx).value;
      SameText(x.value);
      var s := TextOf(x.value).value;
      var more := ChunksOf(v, x.next, done + s);
      items := [i] + more;
      ConsTail(i, more);
      Assoc(done, s, Joined(more).value);
      Cut(v, idx, x.next, DecodeChunks(v, idx, done).value.next);
      Assoc(Written(i), WrittenAll(more), [0xff]);
    }
  }

  lemma {:induction false} PairOf(v: Bytes, idx: nat, done: Members<Json>) returns (p: Pair)
    requires idx <= |v| <= MAX_SIZE && DecodeMember(v, idx, done).Ok?
    ensures PairOk(p) && MemberOf(p).Some?
    ensures var r, m := DecodeMember(v, idx, done).value, MemberOf(p).value;
      idx <= r.next <= |v| && r.value == Insert(done, m.key, m.value) && v[idx..r.next] == WrittenPair(p)
    decreases |v| - idx, 3
  {
    hide Decode, Written, Value, ItemOk, TextOf, AsString, Insert;
    var key := ItemOf(v, idx);
    var k := Decode(v, idx).value;
    SameText(k.value);
    var value := ItemOf(v, k.next);
    p := Pair(key, value);
    Cut(v, idx, k.next, Decode(v, k.next).value.next);
  }

  lemma {:induction false} PairsOf(v: Bytes, idx: nat, n: nat, done: Members<Json>) returns (pairs: seq<Pair>)
    requires idx <= |v| <= MAX_SIZE && DecodeMembers(v, idx, n, done).Ok?
    ensures |pairs| == n && PairsOk(pairs)
    ensures var r := DecodeMembers(v, idx, n, done).value;
      idx <= r.next <= |v| && Filled(pairs, done) == Some(r.value) && v[idx..r.next] == WrittenPairs(pairs)
    decreases |v| - idx, 4
  {
    hide DecodeMember, WrittenPair, MemberOf, PairOk, Insert;
    if n == 0 {
      pairs := [];
    } else {
      var p := PairOf(v, idx, done);
      var m := DecodeMember(v, idx, done).value;
      var more := PairsOf(v, m.next, n - 1, m.value);
      pairs := [p] + more;
      ConsTail(p, more);
      Cut(v, idx, m.next, DecodeMembers(v, idx, n, done).value.next);
    }
  }

  lemma {:induction false} PairsToBreakOf(v: Bytes, idx: nat, done: Members<Json>) returns (pairs: seq<Pair>)
    requires idx <= |v| <= MAX_SIZE && DecodeMembersToBreak(v, idx, done).Ok?
    ensures PairsOk(pairs)
    ensures var r := DecodeMembersToBreak(v, idx, done).value;
      && idx <= r.next <= |v| && Filled(pairs, done) == Some(r.value)
      && v[idx..r.next] == WrittenPairs(pairs) + [0xff]
    decreases |v| - idx, 4
  {
    hide DecodeMember, WrittenPair, MemberOf, PairOk, Insert;
    if v[idx] == 0xff {
      pairs := [];
      LeftUnit([0xff]);
    } else {
      var p := PairOf(v, idx, done);
      var m := DecodeMember(v, idx, done).value;
      var more := PairsToBreakOf(v, m.next, m.value);
      pairs := [p] + more;
      ConsTail(p, more);
      Cut(v, idx, m.next, DecodeMembersToBreak(v, idx, done).value.next);
      Assoc(WrittenPair(p), WrittenPairs(more), [0xff]);
    }
  }

  /** For every vector and place: the decoder returns a value and an index exactly when such an item ends there. */
  lemma DecodesItems(v: Bytes, idx: nat, r: Read<Json>)
    requires idx <= |v| <= MAX_SIZE
    ensures Decode(v, idx) == Ok(r) <==> exists i :: IsItem(v, idx, i, r)
  {
    hide Decode, Value, Written, ItemOk;
    if Decode(v, idx) == Ok(r) {
      var i := ItemOf(v, idx);
    }
    forall i | IsItem(v, idx, i, r)
      ensures Decode(v, idx) == Ok(r)
    {
      ItemReads(v, idx, i);
    }
  }

  // ---------- negative numbers ----------

  /** A negative number is read right exactly down to -2^63; below, it wraps and is not negative. */
  lemma NegativeIsExact(size: nat, n: nat)
    requires ArgumentOk(size, n)
    ensures Value(Negative(size, n)).Some? && Value(Negative(size, n)).value.Int?
    ensures var i := Value(Negative(size, n)).value.i;
      && (i == -1 - n <==> n < 0x8000_0000_0000_0000)
      && (i < 0 <==> n < 0x8000_0000_0000_0000)
      && (i - (-1 - n)) % 0x1_0000_0000_0000_0000 == 0
  {}

  // ---------- repeated keys ----------

  /** The value of the last pair with a key. */
  function LastOf(pairs: seq<Pair>, k: Bytes): Option<Json>
    requires PairsOk(pairs)
  {
    if pairs == [] then None
    else
      var later := LastOf(pairs[1..], k);
      var m := MemberOf(pairs[0]);
      if later.Some? then later else if m.Some? && m.value.key == k then Some(m.value.value) else None
  }

  /** In the object that is read, the last pair with a key decides. */
  lemma {:induction false} LastPairDecides(pairs: seq<Pair>, done: Members<Json>, k: Bytes)
    requires PairsOk(pairs) && Filled(pairs, done).Some?
    ensures Find(Filled(pairs, done).value, k) ==
      if LastOf(pairs, k).Some? then LastOf(pairs, k) else Find(done, k)
    decreases |pairs|
  {
    hide MemberOf, PairOk, Find, Insert;
    if pairs != [] {
      var m := MemberOf(pairs[0]).value;
      FindAfterInsert(done, m.key, m.value, k);
      LastPairDecides(pairs[1..], Insert(done, m.key, m.value), k);
    }
  }

  // ---------- what is written ----------

  function SizeOf(n: nat): nat
  {
    if n < 24 then 0 else if n < 0x100 then 1 else if n < 0x1_0000 then 2 else if n < 0x1_0000_0000 then 4 else 8
  }

  /** No argument can be written in fewer bytes. */
  lemma SizeIsLeast(size: nat, n: nat)
    requires ArgumentOk(size, n)
    ensures ArgumentOk(SizeOf(n), n) && SizeOf(n) <= size
  {}

  /** The item of a value: the shortest arguments, counted containers, and doubles with all their bytes. */
  function Canonical(j: Json): Item
    decreases j, 0
  {
    match j
    case Null => Nil
    case Bool(b) => if b then True else False
    case Int(i) => if i >= 0 then Unsigned(SizeOf(i), i) else Negative(SizeOf(-1 - i), -1 - i)
    case UInt(u) => Unsigned(SizeOf(u), u)
    case Float(bits) => Item.Double(bits)
    case Str(s) => TextString(SizeOf(|s|), s)
    case Arr(es) => Array(SizeOf(|es|), Canonicals(es))
    case Obj(ms) => Map(SizeOf(|ms|), CanonicalPairs(ms))
  }

  function Canonicals(es: seq<Json>): (r: seq<Item>)
    ensures |r| == |es|
    decreases es, 1
  {
    if es == [] then [] else [Canonical(es[0])] + Canonicals(es[1..])
  }

  function CanonicalPair(m: Member<Json>): Pair
    decreases m, 1
  {
    Pair(TextString(SizeOf(|m.key|), m.key), Canonical(m.value))
  }

  function CanonicalPairs(ms: seq<Member<Json>>): (r: seq<Pair>)
    ensures |r| == |ms|
    decreases ms, 1
  {
    if ms == [] then [] else [CanonicalPair(ms[0])] + CanonicalPairs(ms[1..])
  }

  lemma HeadIsInitial(major: nat, n: nat)
    requires major < 8 && n < 0x1_0000_0000_0000_0000
    ensures ArgumentOk(SizeOf(n), n) && Initial(major, SizeOf(n), n) == Head(32 * major, n)
  {
    hide ToBigEndian;
    if n < 24 {
      NoBytes(n);
    }
  }

  /** For every value: the encoder writes exactly the bytes of its item. */
  lemma {:induction false} EncodeIsCanonical(j: Json)
    requires |Encode(j)| <= MAX_SIZE
    ensures ItemOk(Canonical(j)) && Written(Canonical(j)) == Encode(j)
    decreases j, 0
  {
    hide Initial, Head, SizeOf, EncodeElems, EncodeMembers, WrittenAll, WrittenPairs, AllOk, PairsOk;
    match j
    case Int(i) => HeadIsInitial(if i >= 0 then 0 else 1, if i >= 0 then i else -1 - i);
    case UInt(u) => HeadIsInitial(0, u);
    case Str(s) => HeadIsInitial(3, |s|);
    case Arr(es) =>
      HeadIsInitial(4, |es|);
      ElemsAreCanonical(es);
      AreOk(Canonicals(es));
    case Obj(ms) =>
      HeadIsInitial(5, |ms|);
      MembersAreCanonical(ms);
      PairsAreOk(CanonicalPairs(ms));
    case _ =>
  }

  lemma {:induction false} ElemsAreCanonical(es: seq<Json>)
    requires |EncodeElems(es)| <= MAX_SIZE
    ensures AllOk(Canonicals(es)) && WrittenAll(Canonicals(es)) == EncodeElems(es)
    decreases es, 1
  {
    hide Canonical, Written, Encode, ItemOk;
    if es != [] {
      EncodeIsCanonical(es[0]);
      ElemsAreCanonical(es[1..]);
      ConsTail(Canonical(es[0]), Canonicals(es[1..]));
    }
  }

  lemma {:induction false} MemberIsCanonical(m: Member<Json>)
    requires |EncodeMember(m)| <= MAX_SIZE
    ensures PairOk(CanonicalPair(m)) && WrittenPair(CanonicalPair(m)) == EncodeMember(m)
    decreases m, 1
  {
    hide Canonical, Encode, Initial, Head, SizeOf;
    HeadIsInitial(3, |m.key|);
    EncodeIsCanonical(m.value);
  }

  lemma {:induction false} MembersAreCanonical(ms: seq<Member<Json>>)
    requires |EncodeMembers(ms)| <= MAX_SIZE
    ensures PairsOk(CanonicalPairs(ms)) && WrittenPairs(CanonicalPairs(ms)) == EncodeMembers(ms)
    decreases ms, 1
  {
    hide CanonicalPair, WrittenPair, EncodeMember, PairOk;
    if ms != [] {
      MemberIsCanonical(ms[0]);
      MembersAreCanonical(ms[1..]);
      ConsTail(CanonicalPair(ms[0]), CanonicalPairs(ms[1..]));
    }
  }

  /** Every proper prefix of an item that has a value is rejected as out of range. */
  lemma CutItemIsOutOfRange(i: Item, k: nat)
    requires ItemOk(i) && Value(i).Some? && k < |Written(i)| <= MAX_SIZE
    ensures Decode(Written(i)[..k], 0) == Err(OutOfRange)
  {
    hide Decode, Written, Value, ItemOk;
    var all, v := Written(i), Written(i)[..k];
    Parts(all, k);
    assert Holds(all, 0, all);
    ItemReads(all, 0, i);
    DecodeExtends(v, all[k..], 0);
  }

  // ---------- counted and indefinite forms ----------

  /** The item of a value has that value, with its integers in normal form. */
  lemma CanonicalValue(j: Json)
    requires |Encode(j)| <= MAX_SIZE
    ensures ItemOk(Canonical(j)) && Value(Canonical(j)) == Some(Normal(j))
  {
    hide Decode, Written, Value, ItemOk, Canonical, Encode, Normal;
    EncodeIsCanonical(j);
    assert Holds(Encode(j), 0, Encode(j));
    ItemReads(Encode(j), 0, Canonical(j));
    DecodeOfEncode(Encode(j), 0, j);
  }

  lemma {:induction false} CanonicalValues(es: seq<Json>)
    requires |EncodeElems(es)| <= MAX_SIZE
    ensures AllOk(Canonicals(es)) && Values(Canonicals(es)) == Some(Normals(es))
    ensures WrittenAll(Canonicals(es)) == EncodeElems(es)
  {
    hide Canonical, Written, Encode, ItemOk, Value, Normal;
    ElemsAreCanonical(es);
    if es == [] {
      NoNormals();
    } else {
      CanonicalValue(es[0]);
      CanonicalValues(es[1..]);
      ConsTail(Canonical(es[0]), Canonicals(es[1..]));
      NormalsFirst(es);
    }
  }

  /** Encoded values between 0x9f and the break byte are read as the array of these values. */
  lemma OpenArrayOfValues(v: Bytes, idx: nat, es: seq<Json>)
    requires |v| <= MAX_SIZE && Holds(v, idx, [0x9f] + (EncodeElems(es) + [0xff]))
    ensures Decode(v, idx) == Ok(Read(Arr(Normals(es)), idx + |EncodeElems(es)| + 2))
  {
    hide Decode, EncodeElems, WrittenAll, Values, AllOk, Normals;
    HoldsLength(v, idx, [0x9f] + (EncodeElems(es) + [0xff]));
    CanonicalValues(es);
    AreOk(Canonicals(es));
    ItemReads(v, idx, OpenArray(Canonicals(es)));
  }

  /** Counted and indefinite forms of the same parts have the same value; chunks are joined in order. */
  lemma FormsAgree(size: nat, items: seq<Item>, pairs: seq<Pair>, s: Bytes)
    ensures ItemOk(Array(size, items)) ==> Value(OpenArray(items)) == Value(Array(size, items))
    ensures ItemOk(Map(size, pairs)) ==> Value(OpenMap(pairs)) == Value(Map(size, pairs))
    ensures ArgumentOk(size, |s|) && AllOk(items) && Joined(items).Some? ==>
      AllOk([TextString(size, s)] + items) && Joined([TextString(size, s)] + items) == Some(s + Joined(items).value)
  {
    hide Values, Filled;
    ConsTail(TextString(size, s), items);
  }
}

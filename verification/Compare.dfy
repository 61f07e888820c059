/** `operator==` and `operator<` of JSON values. */
module Compare {
  import opened ByteStrings
  import opened JsonValues
  import opened Sequences
  import opened Floats

  /** `static_cast<int64_t>` of an unsigned number: reduction modulo 2^64. */
  function ToSigned(u: UInt64): Int64
  {
    if u <= INT64_MAX then u else u - 0x1_0000_0000_0000_0000
  }

  predicate Eq(a: Json, b: Json)
  {
    match (a, b)
    case (Null, Null) => true
    case (Bool(x), Bool(y)) => x == y
    case (Int(x), Int(y)) => x == y
    case (UInt(x), UInt(y)) => x == y
    case (Float(x), Float(y)) => DoubleValue(x) == DoubleValue(y)
    case (Int(x), Float(y)) => CastToDouble(x) == DoubleValue(y)
    case (Float(x), Int(y)) => DoubleValue(x) == CastToDouble(y)
    case (UInt(x), Float(y)) => CastToDouble(x) == DoubleValue(y)
    case (Float(x), UInt(y)) => DoubleValue(x) == CastToDouble(y)
    case (UInt(x), Int(y)) => ToSigned(x) == y
    case (Int(x), UInt(y)) => x == ToSigned(y)
    case (Str(x), Str(y)) => x == y
    case (Arr(x), Arr(y)) => |x| == |y| && forall i | 0 <= i < |x| :: Eq(x[i], y[i])
    case (Obj(x), Obj(y)) =>
      |x| == |y| && forall i | 0 <= i < |x| :: x[i].key == y[i].key && Eq(x[i].value, y[i].value)
    case _ => false
  }

  /** The order of the types: null < boolean < number < object < array < string. */
  function TypeRank(j: Json): nat
  {
    match j
    case Null => 0
    case Bool(_) => 1
    case Int(_) => 2
    case UInt(_) => 2
    case Float(_) => 2
    case Obj(_) => 3
    case Arr(_) => 4
    case Str(_) => 5
  }

  function Size(j: Json): (n: nat)
    ensures n > 0
    decreases j, 1
  {
    match j
    case Arr(es) => 1 + SizeElems(es)
    case Obj(ms) => 1 + SizeMembers(ms)
    case _ => 1
  }

  function SizeElems(es: seq<Json>): nat
    decreases es, 0
  {
    if es == [] then 0 else Size(es[0]) + SizeElems(es[1..])
  }

  function SizeMembers(ms: seq<Member<Json>>): nat
    decreases ms, 0
  {
    if ms == [] then 0 else Size(ms[0].value) + SizeMembers(ms[1..])
  }

  predicate LessThan(a: Json, b: Json)
    decreases Size(a) + Size(b), 0
  {
    match (a, b)
    case (Bool(x), Bool(y)) => !x && y
    case (Int(x), Int(y)) => x < y
    case (UInt(x), UInt(y)) => x < y
    case (Float(x), Float(y)) => DoubleValue(x) < DoubleValue(y)
    case (Int(x), Float(y)) => CastToDouble(x) < DoubleValue(y)
    case (Float(x), Int(y)) => DoubleValue(x) < CastToDouble(y)
    case (UInt(x), Float(y)) => CastToDouble(x) < DoubleValue(y)
    case (Float(x), UInt(y)) => DoubleValue(x) < CastToDouble(y)
    case (Int(x), UInt(y)) => x < ToSigned(y)
    case (UInt(x), Int(y)) => ToSigned(x) < y
    case (Str(x), Str(y)) => Less(x, y)
    case (Arr(x), Arr(y)) => LessElems(x, y)
    case (Obj(x), Obj(y)) => LessMembers(x, y)
    case _ => TypeRank(a) < TypeRank(b)
  }

  /** `operator<` of two vectors: lexicographical, by `<` alone. */
  predicate LessElems(x: seq<Json>, y: seq<Json>)
    decreases SizeElems(x) + SizeElems(y), 1
  {
    if y == [] then false
    else if x == [] then true
    else LessThan(x[0], y[0]) || (!LessThan(y[0], x[0]) && LessElems(x[1..], y[1..]))
  }

  /** `operator<` of two maps: lexicographical over their pairs, first the key and then the value. */
  predicate LessMembers(x: seq<Member<Json>>, y: seq<Member<Json>>)
    decreases SizeMembers(x) + SizeMembers(y), 2
  {
    if y == [] then false
    else if x == [] then true
    else
      LessMember(x[0], y[0]) || (!LessMember(y[0], x[0]) && LessMembers(x[1..], y[1..]))
  }

  predicate LessMember(x: Member<Json>, y: Member<Json>)
    decreases Size(x.value) + Size(y.value), 1
  {
    Less(x.key, y.key) || (!Less(y.key, x.key) && LessThan(x.value, y.value))
  }

  lemma {:induction false} EqReflexive(j: Json)
    ensures Eq(j, j)
  {
    match j
    case Arr(es) =>
      forall i | 0 <= i < |es|
        ensures Eq(es[i], es[i])
      {
        EqReflexive(es[i]);
      }
    case Obj(ms) =>
      forall i | 0 <= i < |ms|
        ensures Eq(ms[i].value, ms[i].value)
      {
        EqReflexive(ms[i].value);
      }
    case _ =>
  }

  // ---------- signed and unsigned ----------

  /**
   The same value with every integer that is not negative stored as unsigned: what the decoders and the parser
   produce.
   */
  function Normal(j: Json): Json
  {
    match j
    case Int(i) => if i >= 0 then UInt(i) else j
    case Arr(es) => Arr(seq(|es|, i requires 0 <= i < |es| => Normal(es[i])))
    case Obj(ms) =>
      var r := seq(|ms|, i requires 0 <= i < |ms| => Member(ms[i].key, Normal(ms[i].value)));
      assert forall i :: 0 <= i < |r| ==> r[i].key == ms[i].key;
      Obj(r)
    case _ => j
  }

  lemma {:induction false} NormalIsEqual(j: Json)
    ensures Eq(Normal(j), j)
  {
    match j
    case Arr(es) =>
      var ns := Normal(j).elems;
      forall i | 0 <= i < |es|
        ensures Eq(ns[i], es[i])
      {
        NormalIsEqual(es[i]);
      }
    case Obj(ms) =>
      var ns := Normal(j).members;
      forall i | 0 <= i < |ms|
        ensures ns[i].key == ms[i].key && Eq(ns[i].value, ms[i].value)
      {
        NormalIsEqual(ms[i].value);
      }
    case _ =>
  }

  /** Values that differ only in signed or unsigned storage are equal. */
  lemma {:induction false} SameNormalIsEqual(a: Json, b: Json)
    requires Normal(a) == Normal(b)
    ensures Eq(a, b)
  {
    match a
    case Arr(es) =>
      var ns, ms := Normal(a).elems, Normal(b).elems;
      forall i | 0 <= i < |es|
        ensures Eq(es[i], b.elems[i])
      {
        assert ns[i] == ms[i];
        SameNormalIsEqual(es[i], b.elems[i]);
      }
    case Obj(ps) =>
      var ns, ms := Normal(a).members, Normal(b).members;
      forall i | 0 <= i < |ps|
        ensures ps[i].key == b.members[i].key && Eq(ps[i].value, b.members[i].value)
      {
        assert ns[i] == ms[i];
        SameNormalIsEqual(ps[i].value, b.members[i].value);
      }
    case _ =>
  }

  /** The values of an array as the decoder returns them. */
  function Normals(es: seq<Json>): seq<Json>
  {
    Normal(Arr(es)).elems
  }

  lemma NoNormals()
    ensures Normals([]) == []
  {}

  lemma NormalsFirst(es: seq<Json>)
    requires es != []
    ensures Normals(es) == [Normal(es[0])] + Normals(es[1..])
  {}

  function NormalMembers(ms: Members<Json>): (r: Members<Json>)
    ensures |r| == |ms| && forall i :: 0 <= i < |ms| ==> r[i].key == ms[i].key
  {
    Normal(Obj(ms)).members
  }

  lemma NormalMembersStep(ms: Members<Json>, i: nat)
    requires i < |ms|
    ensures var ns := NormalMembers(ms);
      |ns| == |ms| && Insert(ns[..i], ms[i].key, Normal(ms[i].value)) == ns[..i + 1]
  {
    var ns := NormalMembers(ms);
    InsertLast(ns[..i], ms[i].key, Normal(ms[i].value));
    TakeStep(ns, i);
  }
}

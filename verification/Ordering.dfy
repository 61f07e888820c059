/** When `operator<` is an order whose incomparability is `operator==`. */
module Ordering {
  import opened ByteStrings
  import opened JsonValues
  import opened Floats
  import opened Compare
  import opened Rounding

  predicate IsNumber(j: Json)
  {
    j.Int? || j.UInt? || j.Float?
  }

  /** An integer that a double can hold. */
  predicate Exact(n: int)
  {
    CastToDouble(n) == n as real
  }

  /**
   Numbers on which the comparisons are exact: no unsigned number above INT64_MAX and, when there are floats,
   only integers that a double can hold.
   */
  predicate Tame(j: Json, floats: bool)
    decreases j
  {
    match j
    case Int(i) => floats ==> Exact(i)
    case UInt(u) => u <= INT64_MAX && (floats ==> Exact(u))
    case Float(_) => floats
    case Arr(es) => forall i | 0 <= i < |es| :: Tame(es[i], floats)
    case Obj(ms) => forall i | 0 <= i < |ms| :: Tame(ms[i].value, floats)
    case _ => true
  }

  function NumberValue(j: Json): real
    requires IsNumber(j)
  {
    match j
    case Int(i) => i as real
    case UInt(u) => u as real
    case Float(d) => DoubleValue(d)
  }

  /** On tame numbers both operators compare the values the numbers stand for. */
  lemma NumbersByValue(a: Json, b: Json, floats: bool)
    requires IsNumber(a) && IsNumber(b) && Tame(a, floats) && Tame(b, floats)
    ensures LessThan(a, b) <==> NumberValue(a) < NumberValue(b)
    ensures Eq(a, b) <==> NumberValue(a) == NumberValue(b)
  {
    hide DoubleValue, CastToDouble;
  }

  /** Values of different types are ordered by type alone. */
  lemma ByRank(a: Json, b: Json)
    requires TypeRank(a) != TypeRank(b)
    ensures LessThan(a, b) <==> TypeRank(a) < TypeRank(b)
    ensures !Eq(a, b)
  {}

  predicate OneOf(p: bool, q: bool, r: bool)
  {
    (p && !q && !r) || (!p && q && !r) || (!p && !q && r)
  }

  /** Of tame values, exactly one is smaller, or they are equal. */
  lemma {:induction false} Trichotomy(a: Json, b: Json, floats: bool)
    requires Tame(a, floats) && Tame(b, floats)
    ensures OneOf(LessThan(a, b), Eq(a, b), LessThan(b, a))
    decreases Size(a) + Size(b), 0
  {
    if TypeRank(a) != TypeRank(b) {
      ByRank(a, b);
      ByRank(b, a);
    } else if IsNumber(a) {
      NumbersByValue(a, b, floats);
      NumbersByValue(b, a, floats);
    } else if a.Str? {
      KeysTrichotomy(a.s, b.s);
    } else if a.Arr? {
      ElemsTrichotomy(a.elems, b.elems, floats);
    } else if a.Obj? {
      MembersTrichotomy(a.members, b.members, floats);
    }
  }

  lemma KeysTrichotomy(x: Bytes, y: Bytes)
    ensures OneOf(Less(x, y), x == y, Less(y, x))
  {
    hide Less;
    LessIrreflexive(x);
    LessTotal(x, y);
    if Less(x, y) {
      LessAsymmetric(x, y);
    }
    if Less(y, x) {
      LessAsymmetric(y, x);
    }
  }

  predicate TameElems(es: seq<Json>, floats: bool)
  {
    forall i | 0 <= i < |es| :: Tame(es[i], floats)
  }

  predicate TameMembers(ms: seq<Member<Json>>, floats: bool)
  {
    forall i | 0 <= i < |ms| :: Tame(ms[i].value, floats)
  }

  predicate EqElems(x: seq<Json>, y: seq<Json>)
  {
    Eq(Arr(x), Arr(y))
  }

  predicate EqMembers(x: Members<Json>, y: Members<Json>)
  {
    Eq(Obj(x), Obj(y))
  }

  lemma EqElemsStep(x: seq<Json>, y: seq<Json>)
    ensures EqElems(x, y) <==>
      if x == [] || y == [] then x == y else Eq(x[0], y[0]) && EqElems(x[1..], y[1..])
  {
    if x != [] && y != [] {
      assert forall i :: 1 <= i < |x| ==> x[i] == x[1..][i - 1];
      assert forall i :: 1 <= i < |y| ==> y[i] == y[1..][i - 1];
    }
  }

  lemma EqMembersStep(x: Members<Json>, y: Members<Json>)
    ensures EqMembers(x, y) <==>
      if x == [] || y == [] then x == y
      else x[0].key == y[0].key && Eq(x[0].value, y[0].value) && EqMembers(x[1..], y[1..])
  {
    if x != [] && y != [] {
      assert forall i :: 1 <= i < |x| ==> x[i] == x[1..][i - 1];
      assert forall i :: 1 <= i < |y| ==> y[i] == y[1..][i - 1];
    }
  }

  lemma {:induction false} ElemsTrichotomy(x: seq<Json>, y: seq<Json>, floats: bool)
    requires TameElems(x, floats) && TameElems(y, floats)
    ensures OneOf(LessElems(x, y), EqElems(x, y), LessElems(y, x))
    decreases SizeElems(x) + SizeElems(y), 1
  {
    hide LessThan, Eq, EqElems, Tame;
    EqElemsStep(x, y);
    if x != [] && y != [] {
      Trichotomy(x[0], y[0], floats);
      ElemsTrichotomy(x[1..], y[1..], floats);
    }
  }

  lemma {:induction false} MembersTrichotomy(x: Members<Json>, y: Members<Json>, floats: bool)
    requires TameMembers(x, floats) && TameMembers(y, floats)
    ensures OneOf(LessMembers(x, y), EqMembers(x, y), LessMembers(y, x))
    decreases SizeMembers(x) + SizeMembers(y), 1
  {
    hide LessThan, Eq, EqMembers, Tame, Less;
    EqMembersStep(x, y);
    if x != [] && y != [] {
      Trichotomy(x[0].value, y[0].value, floats);
      KeysTrichotomy(x[0].key, y[0].key);
      MembersTrichotomy(x[1..], y[1..], floats);
    }
  }

  // ---------- transitivity ----------

  predicate LessOrEqual(a: Json, b: Json)
  {
    LessThan(a, b) || Eq(a, b)
  }

  /** `<` and `==` compose: a <= b <= c gives a <= c, and strictly so when one of the two is strict. */
  lemma {:induction false} Transitive(a: Json, b: Json, c: Json, floats: bool)
    requires Tame(a, floats) && Tame(b, floats) && Tame(c, floats)
    requires LessOrEqual(a, b) && LessOrEqual(b, c)
    ensures LessOrEqual(a, c)
    ensures LessThan(a, b) || LessThan(b, c) ==> LessThan(a, c)
    decreases Size(a) + Size(b) + Size(c), 0
  {
    hide DoubleValue, CastToDouble, LessElems, LessMembers, Less, NumberValue, ToSigned;
    if TypeRank(a) != TypeRank(b) || TypeRank(b) != TypeRank(c) {
      TransitiveRanks(a, b, c);
    } else if IsNumber(a) {
      NumbersByValue(a, b, floats);
      NumbersByValue(b, c, floats);
      NumbersByValue(a, c, floats);
    } else if a.Str? {
      if Less(a.s, b.s) && Less(b.s, c.s) {
        LessTransitive(a.s, b.s, c.s);
      }
    } else if a.Arr? {
      ElemsTransitive(a.elems, b.elems, c.elems, floats);
    } else if a.Obj? {
      MembersTransitive(a.members, b.members, c.members, floats);
    }
  }

  lemma TransitiveRanks(a: Json, b: Json, c: Json)
    requires LessOrEqual(a, b) && LessOrEqual(b, c) && (TypeRank(a) != TypeRank(b) || TypeRank(b) != TypeRank(c))
    ensures LessThan(a, c)
  {
    hide LessThan, Eq, TypeRank;
    if TypeRank(a) != TypeRank(b) {
      ByRank(a, b);
    }
    if TypeRank(b) != TypeRank(c) {
      ByRank(b, c);
    }
    ByRank(a, c);
  }

  lemma {:induction false} ElemsTransitive(x: seq<Json>, y: seq<Json>, z: seq<Json>, floats: bool)
    requires TameElems(x, floats) && TameElems(y, floats) && TameElems(z, floats)
    requires LessElems(x, y) || EqElems(x, y)
    requires LessElems(y, z) || EqElems(y, z)
    ensures LessElems(x, z) || EqElems(x, z)
    ensures LessElems(x, y) || LessElems(y, z) ==> LessElems(x, z)
    decreases SizeElems(x) + SizeElems(y) + SizeElems(z), 2
  {
    hide LessThan, Eq, EqElems, Tame;
    EqElemsStep(x, y);
    EqElemsStep(y, z);
    EqElemsStep(x, z);
    if x != [] && y != [] && z != [] {
      Trichotomy(x[0], y[0], floats);
      Trichotomy(y[0], z[0], floats);
      Trichotomy(x[0], z[0], floats);
      Transitive(x[0], y[0], z[0], floats);
      if Eq(x[0], y[0]) && Eq(y[0], z[0]) {
        EqTransitive(x[0], y[0], z[0], floats);
        ElemsTransitive(x[1..], y[1..], z[1..], floats);
      }
    }
  }

  lemma {:induction false} MembersTransitive(x: Members<Json>, y: Members<Json>, z: Members<Json>, floats: bool)
    requires TameMembers(x, floats) && TameMembers(y, floats) && TameMembers(z, floats)
    requires LessMembers(x, y) || EqMembers(x, y)
    requires LessMembers(y, z) || EqMembers(y, z)
    ensures LessMembers(x, z) || EqMembers(x, z)
    ensures LessMembers(x, y) || LessMembers(y, z) ==> LessMembers(x, z)
    decreases SizeMembers(x) + SizeMembers(y) + SizeMembers(z), 3
  {
    hide LessThan, Eq, EqMembers, Tame, Less, LessMember;
    EqMembersStep(x, y);
    EqMembersStep(y, z);
    EqMembersStep(x, z);
    if x != [] && y != [] && z != [] {
      MemberTrichotomy(x[0], y[0], floats);
      MemberTrichotomy(y[0], z[0], floats);
      MemberTrichotomy(x[0], z[0], floats);
      MemberTransitive(x[0], y[0], z[0], floats);
      if EqMember(x[0], y[0]) && EqMember(y[0], z[0]) {
        MembersTransitive(x[1..], y[1..], z[1..], floats);
      }
    }
  }

  predicate EqMember(x: Member<Json>, y: Member<Json>)
  {
    x.key == y.key && Eq(x.value, y.value)
  }

  lemma MemberTrichotomy(x: Member<Json>, y: Member<Json>, floats: bool)
    requires Tame(x.value, floats) && Tame(y.value, floats)
    ensures OneOf(LessMember(x, y), EqMember(x, y), LessMember(y, x))
  {
    hide LessThan, Eq, Tame, Less;
    KeysTrichotomy(x.key, y.key);
    Trichotomy(x.value, y.value, floats);
  }

  lemma {:induction false} MemberTransitive(x: Member<Json>, y: Member<Json>, z: Member<Json>, floats: bool)
    requires Tame(x.value, floats) && Tame(y.value, floats) && Tame(z.value, floats)
    requires LessMember(x, y) || EqMember(x, y)
    requires LessMember(y, z) || EqMember(y, z)
    ensures LessMember(x, y) || LessMember(y, z) ==> LessMember(x, z)
    ensures EqMember(x, y) && EqMember(y, z) ==> EqMember(x, z)
    decreases Size(x.value) + Size(y.value) + Size(z.value), 2
  {
    hide LessThan, Eq, Tame, Less;
    KeysTrichotomy(x.key, y.key);
    KeysTrichotomy(y.key, z.key);
    KeysTrichotomy(x.key, z.key);
    if Less(x.key, y.key) && Less(y.key, z.key) {
      LessTransitive(x.key, y.key, z.key);
    } else if x.key == y.key && y.key == z.key {
      Transitive(x.value, y.value, z.value, floats);
      if Eq(x.value, y.value) && Eq(y.value, z.value) {
        EqTransitive(x.value, y.value, z.value, floats);
      }
    }
  }

  lemma {:induction false} EqSymmetric(a: Json, b: Json)
    requires Eq(a, b)
    ensures Eq(b, a)
  {
    match a
    case Arr(es) =>
      forall i | 0 <= i < |es|
        ensures Eq(b.elems[i], es[i])
      {
        EqSymmetric(es[i], b.elems[i]);
      }
    case Obj(ms) =>
      forall i | 0 <= i < |ms|
        ensures b.members[i].key == ms[i].key && Eq(b.members[i].value, ms[i].value)
      {
        assert ms[i].key == b.members[i].key;
        EqSymmetric(ms[i].value, b.members[i].value);
      }
    case _ =>
  }

  /** On tame values `==` is transitive. */
  lemma {:induction false} EqTransitive(a: Json, b: Json, c: Json, floats: bool)
    requires Tame(a, floats) && Tame(b, floats) && Tame(c, floats)
    requires Eq(a, b) && Eq(b, c)
    ensures Eq(a, c)
    decreases Size(a) + Size(b) + Size(c), 1
  {
    hide LessThan, Eq, Tame;
    EqSymmetric(a, b);
    EqSymmetric(b, c);
    Transitive(a, b, c, floats);
    Transitive(c, b, a, floats);
    Trichotomy(a, c, floats);
    Trichotomy(c, a, floats);
  }

  // ---------- where the operators go wrong ----------

  /** Equality and order between two numbers agree with the numbers they stand for. */
  predicate ComparedRight(a: Json, b: Json)
    requires IsNumber(a) && IsNumber(b)
  {
    && (Eq(a, b) <==> NumberValue(a) == NumberValue(b))
    && (LessThan(a, b) <==> NumberValue(a) < NumberValue(b))
    && (LessThan(b, a) <==> NumberValue(b) < NumberValue(a))
  }

  /** Comparing an unsigned number with the signed ones is right exactly up to INT64_MAX, for `==` and for `<`. */
  lemma UnsignedIsExact(u: UInt64)
    ensures (forall i: Int64 :: ComparedRight(UInt(u), Int(i))) <==> u <= INT64_MAX
    ensures (forall i: Int64 :: Eq(UInt(u), Int(i)) <==> u == i) <==> u <= INT64_MAX
    ensures (forall i: Int64 :: LessThan(UInt(u), Int(i)) <==> u < i) <==> u <= INT64_MAX
    ensures (forall i: Int64 :: LessThan(Int(i), UInt(u)) <==> i < u) <==> u <= INT64_MAX
  {
    if u > INT64_MAX {
      var i: Int64 := u - 0x1_0000_0000_0000_0000;
      assert Eq(UInt(u), Int(i)) && u != i;
      assert !ComparedRight(UInt(u), Int(i));
      assert LessThan(UInt(u), Int(0));
      assert !LessThan(Int(0), UInt(u));
    }
  }

  /** Every unsigned number above INT64_MAX equals a negative integer and closes a cycle of `<`. */
  lemma LargeUnsignedCycles(u: UInt64)
    requires u > INT64_MAX
    ensures Eq(UInt(u), Int(u - 0x1_0000_0000_0000_0000))
    ensures LessThan(UInt(u), Int(0)) && LessThan(Int(0), UInt(INT64_MAX)) && LessThan(UInt(INT64_MAX), UInt(u))
  {}

  /**
   Comparing an integer with the doubles is right exactly when a double can hold the integer, for `==` and for `<`:
   otherwise the double it is rounded to is compared wrongly.
   */
  lemma IntegerIsExact(j: Json)
    requires j.Int? || j.UInt?
    ensures var n: int := if j.Int? then j.i else j.u;
      && ((forall d: Double :: ComparedRight(Float(d), j)) <==> Exact(n))
      && ((forall d: Double :: Eq(Float(d), j) <==> DoubleValue(d) == n as real) <==> Exact(n))
      && ((forall d: Double :: (LessThan(Float(d), j) <==> DoubleValue(d) < n as real)
                          && (LessThan(j, Float(d)) <==> n as real < DoubleValue(d))) <==> Exact(n))
  {
    hide DoubleValue, CastToDouble;
    var n: int := if j.Int? then j.i else j.u;
    var d := CastIsADouble(n);
    assert Eq(Float(d), j) && !LessThan(Float(d), j) && !LessThan(j, Float(d));
    assert NumberValue(Float(d)) == DoubleValue(d);
    if Exact(n) {
      forall d: Double
        ensures ComparedRight(Float(d), j)
      {}
    } else {
      assert !ComparedRight(Float(d), j);
    }
  }

  /** A double holds an integer of 64 bits exactly when the conversion keeps it. */
  lemma ExactIsADouble(n: int)
    requires -0x1_0000_0000_0000_0000 < n < 0x1_0000_0000_0000_0000
    ensures Exact(n) <==> exists d: Double :: DoubleValue(d) == n as real
  {
    hide DoubleValue, CastToDouble;
    var cast := CastIsADouble(n);
    forall d: Double | DoubleValue(d) == n as real
      ensures Exact(n)
    {
      IntegerDoubleIsExact(d, n);
    }
  }

  /**
   For every signed integer that no double can hold, `==` is not transitive: the double it is rounded to equals it
   and another integer, which differs from it.
   */
  lemma InexactEqualsAnother(n: Int64) returns (d: Double, other: Json)
    requires !Exact(n)
    ensures Eq(Int(n), Float(d)) && Eq(Float(d), other) && !Eq(Int(n), other) && (other.Int? || other.UInt?)
    ensures DoubleValue(d) == CastToDouble(n) == NumberValue(other)
  {
    hide DoubleValue, CastToDouble;
    d := CastIsADouble(n);
    var c := CastIsExactInteger(n);
    CastStaysInRange(n, c);
    other := if c > INT64_MAX then UInt(c) else Int(c);
  }

  /** The conversion of a signed integer is rounded to at most 2^63. */
  lemma CastStaysInRange(n: Int64, c: int)
    requires CastToDouble(n) == c as real
    ensures INT64_MIN <= c <= INT64_MAX + 1 && (n < 0 ==> c <= 0)
  {
    hide DroppedBits, Pow2, RoundedBits;
    RoundedMagnitude(Abs(n));
  }

  const EXACT := 0x20_0000_0000_0000

  /** The first such integer: a double equals both 2^53 and 2^53 + 1. */
  lemma FloatEqualsTwo()
    ensures exists d: Double ::
      Eq(Float(d), Int(EXACT)) && Eq(Float(d), Int(EXACT + 1)) && !Eq(Int(EXACT), Int(EXACT + 1))
  {
    hide DoubleValue;
    RoundedToEven();
    CastIsExact(EXACT);
    var d, other := InexactEqualsAnother(EXACT + 1);
    EqSymmetric(Int(EXACT + 1), Float(d));
    assert Eq(Float(d), Int(EXACT)) && Eq(Float(d), Int(EXACT + 1));
  }

  lemma RoundedToEven()
    ensures CastToDouble(EXACT + 1) == EXACT as real
  {
    var m: nat := EXACT + 1;
    OneMoreDropped(m);
    assert m / 2 == 0x10_0000_0000_0000 && m % 2 == 1;
    assert DroppedBits(m / 2) == 0;
    assert DroppedBits(m) == 1 && Pow2(DroppedBits(m)) == 2;
    assert Rounded(0x10_0000_0000_0000, 1, 2) == 0x10_0000_0000_0000;
    assert RoundedBits(m) == 0x10_0000_0000_0000;
  }

  /**
   Every integer is compared with doubles as the double next to it: no other is nearer, and of two that are equally near
   it is the one whose last bit is zero.
   */
  lemma MixedByNearest(j: Json) returns (c: Double)
    requires j.Int? || j.UInt?
    ensures var n: int := if j.Int? then j.i else j.u;
      && (forall d: Double :: Distance(DoubleValue(c), n as real) <= Distance(DoubleValue(d), n as real))
      && DoubleValue(c) == CastToDouble(n)
    ensures forall d: Double ::
      && (Eq(Float(d), j) <==> DoubleValue(d) == DoubleValue(c))
      && (Eq(j, Float(d)) <==> DoubleValue(c) == DoubleValue(d))
      && (LessThan(Float(d), j) <==> DoubleValue(d) < DoubleValue(c))
      && (LessThan(j, Float(d)) <==> DoubleValue(c) < DoubleValue(d))
  {
    hide DoubleValue, CastToDouble, Distance;
    var n: int := if j.Int? then j.i else j.u;
    c := CastIsADouble(n);
    forall d: Double
      ensures Distance(DoubleValue(c), n as real) <= Distance(DoubleValue(d), n as real)
    {
      CastIsNearest(n, d);
    }
  }

  /** Unsigned numbers, and signed ones, are compared by value; mixed ones as signed numbers modulo 2^64. */
  lemma IntegersByValue(u: UInt64, w: UInt64, i: Int64, k: Int64)
    ensures (Eq(UInt(u), UInt(w)) <==> u == w) && (LessThan(UInt(u), UInt(w)) <==> u < w)
    ensures (Eq(Int(i), Int(k)) <==> i == k) && (LessThan(Int(i), Int(k)) <==> i < k)
    ensures var s: int := if u < 0x8000_0000_0000_0000 then u else u - 0x1_0000_0000_0000_0000;
      && (Eq(UInt(u), Int(i)) <==> s == i) && (Eq(Int(i), UInt(u)) <==> s == i)
      && (LessThan(UInt(u), Int(i)) <==> s < i) && (LessThan(Int(i), UInt(u)) <==> i < s)
  {}
}

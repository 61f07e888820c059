/** The order of values, spelled out: between types, between booleans, and by the first difference. */
module OrderLaws {
  import opened ByteStrings
  import opened JsonValues
  import opened Compare
  import opened Ordering

  predicate Below(a: Json, b: Json)
  {
    LessThan(a, b) && !LessThan(b, a) && !Eq(a, b) && !Eq(b, a)
  }

  /** null < boolean < number < object < array < string */
  lemma TypesInOrder(b: bool, n: Json, ms: Members<Json>, es: seq<Json>, s: Bytes)
    requires n.Int? || n.UInt? || n.Float?
    ensures Below(Null, Bool(b)) && Below(Null, n) && Below(Null, Obj(ms))
    ensures Below(Null, Arr(es)) && Below(Null, Str(s))
    ensures Below(Bool(b), n) && Below(Bool(b), Obj(ms)) && Below(Bool(b), Arr(es)) && Below(Bool(b), Str(s))
    ensures Below(n, Obj(ms)) && Below(n, Arr(es)) && Below(n, Str(s))
    ensures Below(Obj(ms), Arr(es)) && Below(Obj(ms), Str(s)) && Below(Arr(es), Str(s))
  {
    hide LessThan, Eq, Below;
    var all := [Null, Bool(b), n, Obj(ms), Arr(es), Str(s)];
    forall i, k | 0 <= i < k < 6
      ensures Below(all[i], all[k])
    {
      RankedBelow(all[i], all[k]);
    }
    assert Below(all[0], all[1]) && Below(all[0], all[2]) && Below(all[0], all[3]) && Below(all[0], all[4]);
    assert Below(all[0], all[5]) && Below(all[1], all[2]) && Below(all[1], all[3]) && Below(all[1], all[4]);
    assert Below(all[1], all[5]) && Below(all[2], all[3]) && Below(all[2], all[4]) && Below(all[2], all[5]);
    assert Below(all[3], all[4]) && Below(all[3], all[5]) && Below(all[4], all[5]);
  }

  lemma RankedBelow(a: Json, b: Json)
    requires TypeRank(a) < TypeRank(b)
    ensures Below(a, b)
  {
    ByRank(a, b);
    ByRank(b, a);
  }

  /** null is equal to itself only, and false is below true. */
  lemma NullAndBooleans()
    ensures Eq(Null, Null) && !LessThan(Null, Null)
    ensures Below(Bool(false), Bool(true))
    ensures forall b: bool :: Eq(Bool(b), Bool(b)) && !LessThan(Bool(b), Bool(b))
  {}

  // ---------- the first difference ----------

  /** Two sequences agree in front of `k`, and there the first one ends or has the smaller entry. */
  ghost predicate DiffersAt<T(!new)>(x: seq<T>, y: seq<T>, k: nat, less: (T, T) -> bool)
  {
    && k <= |x| && k < |y|
    && (forall i | 0 <= i < k :: !less(x[i], y[i]) && !less(y[i], x[i]))
    && (k == |x| || less(x[k], y[k]))
  }

  ghost predicate Lexicographic<T(!new)>(x: seq<T>, y: seq<T>, less: (T, T) -> bool)
  {
    exists k :: DiffersAt(x, y, k, less)
  }

  lemma LexicographicStep<T(!new)>(x: seq<T>, y: seq<T>, less: (T, T) -> bool)
    ensures Lexicographic(x, y, less) <==>
      && y != []
      && (x == [] || less(x[0], y[0]) ||
          (!less(y[0], x[0]) && Lexicographic(x[1..], y[1..], less)))
  {
    if x != [] && y != [] {
      if !less(x[0], y[0]) && !less(y[0], x[0]) {
        forall k: nat
          ensures DiffersAt(x[1..], y[1..], k, less) <==> DiffersAt(x, y, k + 1, less)
        {
          ShiftedDifference(x, y, k, less);
        }
        if Lexicographic(x, y, less) {
          var k: nat :| DiffersAt(x, y, k, less);
          assert k > 0;
          assert DiffersAt(x[1..], y[1..], k - 1, less);
        }
      } else if less(x[0], y[0]) {
        assert DiffersAt(x, y, 0, less);
      }
    } else if y != [] {
      assert DiffersAt(x, y, 0, less);
    }
  }

  lemma ShiftedDifference<T(!new)>(x: seq<T>, y: seq<T>, k: nat, less: (T, T) -> bool)
    requires x != [] && y != [] && !less(x[0], y[0]) && !less(y[0], x[0])
    ensures DiffersAt(x[1..], y[1..], k, less) <==> DiffersAt(x, y, k + 1, less)
  {
    if DiffersAt(x[1..], y[1..], k, less) {
      forall i | 0 <= i < k + 1
        ensures !less(x[i], y[i]) && !less(y[i], x[i])
      {
        if i > 0 {
          assert x[i] == x[1..][i - 1] && y[i] == y[1..][i - 1];
        }
      }
    }
    if DiffersAt(x, y, k + 1, less) {
      forall i | 0 <= i < k
        ensures !less(x[1..][i], y[1..][i]) && !less(y[1..][i], x[1..][i])
      {
        assert x[1..][i] == x[i + 1] && y[1..][i] == y[i + 1];
      }
    }
  }

  /** Strings are compared by their first different byte, as unsigned numbers. */
  lemma {:induction false} StringsByFirstDifference(a: Bytes, b: Bytes)
    ensures LessThan(Str(a), Str(b)) <==> Lexicographic(a, b, (x: Byte, y: Byte) => x < y)
    decreases |a|
  {
    LexicographicStep(a, b, (x: Byte, y: Byte) => x < y);
    if a != [] && b != [] {
      StringsByFirstDifference(a[1..], b[1..]);
    }
  }

  /** Arrays are compared by their first elements of which one is smaller; a proper prefix is smaller. */
  lemma {:induction false} ArraysByFirstDifference(x: seq<Json>, y: seq<Json>)
    ensures LessThan(Arr(x), Arr(y)) <==> Lexicographic(x, y, LessThan)
    decreases |x|
  {
    LexicographicStep(x, y, LessThan);
    if x != [] && y != [] {
      ArraysByFirstDifference(x[1..], y[1..]);
    }
  }

  /** Members are compared by their names, and then by their values. */
  predicate MemberLess(x: Member<Json>, y: Member<Json>)
  {
    LessThan(Str(x.key), Str(y.key)) || (x.key == y.key && LessThan(x.value, y.value))
  }

  lemma MemberLessIs(x: Member<Json>, y: Member<Json>)
    ensures LessMember(x, y) <==> MemberLess(x, y)
  {
    hide Less, LessThan;
    StringsAreLess(x.key, y.key);
    LessTotal(x.key, y.key);
    LessIrreflexive(x.key);
    if Less(x.key, y.key) {
      LessAsymmetric(x.key, y.key);
    }
  }

  lemma StringsAreLess(a: Bytes, b: Bytes)
    ensures LessThan(Str(a), Str(b)) <==> Less(a, b)
  {}

  /** Objects are compared by their first members of which one is smaller, in the order of the names. */
  lemma {:induction false} ObjectsByFirstDifference(x: Members<Json>, y: Members<Json>)
    ensures LessThan(Obj(x), Obj(y)) <==> Lexicographic(x, y, MemberLess)
    decreases |x|
  {
    hide MemberLess;
    LexicographicStep(x, y, MemberLess);
    if x != [] && y != [] {
      MemberLessIs(x[0], y[0]);
      MemberLessIs(y[0], x[0]);
      ObjectsByFirstDifference(x[1..], y[1..]);
    }
  }
}

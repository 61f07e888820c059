/**
 The JSON value, `basic_json`, without discarded values. An object is the sequence of members that
 iterating its `std::map` visits: strictly sorted by key.
 */
module JsonValues {
  import opened ByteStrings
  import opened Wrappers

  const INT64_MIN := -0x8000_0000_0000_0000
  const INT64_MAX := 0x7fff_ffff_ffff_ffff
  const UINT64_MAX := 0xffff_ffff_ffff_ffff

  type Int64 = i: int | INT64_MIN <= i <= INT64_MAX

  type UInt64 = u: int | 0 <= u <= UINT64_MAX

  /** The big-endian bytes of a finite IEEE 754 double: the eleven exponent bits are not all ones. */
  type Double = bits: Bytes | |bits| == 8 && FiniteBits(bits) witness [0, 0, 0, 0, 0, 0, 0, 0]

  predicate FiniteBits(bits: Bytes)
    requires |bits| == 8
  {
    !(bits[0] % 128 == 127 && bits[1] >= 240)
  }

  const TRUE_WORD: Bytes := [0x74, 0x72, 0x75, 0x65]
  const FALSE_WORD: Bytes := [0x66, 0x61, 0x6c, 0x73, 0x65]
  const NULL_WORD: Bytes := [0x6e, 0x75, 0x6c, 0x6c]

  datatype Member<+V> = Member(key: Bytes, value: V)

  predicate Sorted<V>(ms: seq<Member<V>>)
  {
    forall i, j :: 0 <= i < j < |ms| ==> Less(ms[i].key, ms[j].key)
  }

  type Members<+V> = ms: seq<Member<V>> | Sorted(ms)

  datatype Json =
    | Null
    | Bool(b: bool)
    | Int(i: Int64)
    | UInt(u: UInt64)
    | Float(bits: Double)
    | Str(s: Bytes)
    | Arr(elems: seq<Json>)
    | Obj(members: Members<Json>)

  /** The position of the first member whose key is not below `k`: `std::map::lower_bound`. */
  function LowerBound<V>(ms: seq<Member<V>>, k: Bytes, from: nat := 0): (p: nat)
    requires from <= |ms|
    ensures from <= p <= |ms|
    ensures forall i :: from <= i < p ==> Less(ms[i].key, k)
    ensures p < |ms| ==> !Less(ms[p].key, k)
    decreases |ms| - from
  {
    if from < |ms| && Less(ms[from].key, k) then LowerBound(ms, k, from + 1) else from
  }

  predicate HasKey<V>(ms: seq<Member<V>>, k: Bytes)
  {
    var p := LowerBound(ms, k);
    p < |ms| && ms[p].key == k
  }

  function Find<V>(ms: seq<Member<V>>, k: Bytes): Option<V>
  {
    var p := LowerBound(ms, k);
    if p < |ms| && ms[p].key == k then Some(ms[p].value) else None
  }

  /** `object[k] = v` */
  function Insert<V>(ms: Members<V>, k: Bytes, v: V): (r: Members<V>)
  {
    var p := LowerBound(ms, k);
    if p < |ms| && ms[p].key == k then
      var r := ms[p := Member(k, v)];
      assert forall i :: 0 <= i < |r| ==> r[i].key == ms[i].key;
      r
    else
      InsertKeepsSorted(ms, k, v);
      ms[..p] + [Member(k, v)] + ms[p..]
  }

  /** `object.erase(k)` for a key that is present. */
  function Erase<V>(ms: Members<V>, k: Bytes): (r: Members<V>)
    requires HasKey(ms, k)
  {
    var p := LowerBound(ms, k);
    ms[..p] + ms[p + 1..]
  }

  /** Replaces the value at a position; the keys stay as they are. */
  function SetValue<V>(ms: Members<V>, p: nat, v: V): (r: Members<V>)
    requires p < |ms|
  {
    var r := ms[p := Member(ms[p].key, v)];
    assert forall i :: 0 <= i < |r| ==> r[i].key == ms[i].key;
    r
  }

  lemma InsertKeepsSorted<V>(ms: Members<V>, k: Bytes, v: V)
    requires !HasKey(ms, k)
    ensures var p := LowerBound(ms, k); Sorted(ms[..p] + [Member(k, v)] + ms[p..])
  {
    var p := LowerBound(ms, k);
    var r := ms[..p] + [Member(k, v)] + ms[p..];
    forall i, j | 0 <= i < j < |r|
      ensures Less(r[i].key, r[j].key)
    {
      if i == p {
        LessTotal(k, ms[p].key);
        if j > p + 1 {
          LessTransitive(k, ms[p].key, ms[j - 1].key);
        }
      } else if i > p {
        assert r[i] == ms[i - 1] && r[j] == ms[j - 1];
      } else if j > p {
        assert r[j] == ms[j - 1];
      }
    }
  }

  lemma LowerBoundUnique<V>(ms: Members<V>, k: Bytes, p: nat)
    requires p <= |ms|
    requires p > 0 ==> Less(ms[p - 1].key, k)
    requires p < |ms| ==> !Less(ms[p].key, k)
    ensures LowerBound(ms, k) == p
  {
    var q := LowerBound(ms, k);
    if q < p {
      if q < p - 1 {
        LessTransitive(ms[q].key, ms[p - 1].key, k);
      }
    }
  }

  /** A member is found under its own key. */
  lemma LowerBoundAt<V>(ms: Members<V>, p: nat)
    requires p < |ms|
    ensures LowerBound(ms, ms[p].key) == p
    ensures HasKey(ms, ms[p].key) && Find(ms, ms[p].key) == Some(ms[p].value)
  {
    LessIrreflexive(ms[p].key);
    LowerBoundUnique(ms, ms[p].key, p);
  }

  lemma KeyIn<V>(ms: Members<V>, k: Bytes)
    ensures HasKey(ms, k) <==> exists i :: 0 <= i < |ms| && ms[i].key == k
  {
    if i :| 0 <= i < |ms| && ms[i].key == k {
      LowerBoundAt(ms, i);
    }
  }

  lemma FindIn<V>(ms: Members<V>, k: Bytes, i: nat)
    requires i < |ms| && ms[i].key == k
    ensures HasKey(ms, k) && LowerBound(ms, k) == i && Find(ms, k) == Some(ms[i].value)
  {
    LowerBoundAt(ms, i);
  }

  lemma FindAfterInsert<V>(ms: Members<V>, k: Bytes, v: V, x: Bytes)
    ensures Find(Insert(ms, k, v), x) == if x == k then Some(v) else Find(ms, x)
  {
    var r := Insert(ms, k, v);
    var p := LowerBound(ms, k);
    assert r[p] == Member(k, v);
    if x == k {
      FindIn(r, k, p);
    } else {
      KeyIn(ms, x);
      KeyIn(r, x);
      if HasKey(ms, x) {
        var i := LowerBound(ms, x);
        FindIn(r, x, if HasKey(ms, k) || i < p then i else i + 1);
      }
    }
  }

  /** A key above all others goes to the end. */
  lemma InsertLast<V>(ms: Members<V>, k: Bytes, v: V)
    requires forall i :: 0 <= i < |ms| ==> Less(ms[i].key, k)
    ensures Insert(ms, k, v) == ms + [Member(k, v)]
  {
    LowerBoundUnique(ms, k, |ms|);
  }

  lemma FindAfterErase<V>(ms: Members<V>, k: Bytes, x: Bytes)
    requires HasKey(ms, k)
    ensures Find(Erase(ms, k), x) == if x == k then None else Find(ms, x)
  {
    var r := Erase(ms, k);
    var p := LowerBound(ms, k);
    KeyIn(ms, x);
    KeyIn(r, x);
    if i :| 0 <= i < |r| && r[i].key == x {
      var o := if i < p then i else i + 1;
      assert r[i] == ms[o];
      FindIn(r, x, i);
      FindIn(ms, x, o);
      LowerBoundAt(ms, p);
    } else {
      assert forall o :: 0 <= o < |ms| && o != p ==> ms[o] == r[if o < p then o else o - 1];
    }
  }

  lemma FindAfterSetValue<V>(ms: Members<V>, p: nat, v: V, x: Bytes)
    requires p < |ms|
    ensures Find(SetValue(ms, p, v), x) == if x == ms[p].key then Some(v) else Find(ms, x)
  {
    var r := SetValue(ms, p, v);
    assert forall i :: 0 <= i < |r| ==> r[i].key == ms[i].key;
    LowerBoundUnique(r, x, LowerBound(ms, x));
    LowerBoundAt(ms, p);
  }

  /** A sorted sequence of keys is determined by the set of its keys. */
  lemma {:induction false} SameKeysSameOrder<V, W>(a: Members<V>, b: Members<W>)
    requires forall k: Bytes :: HasKey(a, k) == HasKey(b, k)
    ensures |a| == |b| && forall i :: 0 <= i < |a| ==> a[i].key == b[i].key
  {
    if a == [] {
      if b != [] {
        LowerBoundAt(b, 0);
      }
    } else {
      LowerBoundAt(a, 0);
      assert HasKey(b, a[0].key);
      LowerBoundAt(b, 0);
      assert HasKey(a, b[0].key);
      FirstKeysAgree(a, b);
      forall k: Bytes
        ensures HasKey(a[1..], k) == HasKey(b[1..], k)
      {
        HasKeyInTail(a, k);
        HasKeyInTail(b, k);
      }
      SameKeysSameOrder(a[1..], b[1..]);
    }
  }

  lemma FirstKeysAgree<V, W>(a: Members<V>, b: Members<W>)
    requires a != [] && b != [] && HasKey(b, a[0].key) && HasKey(a, b[0].key)
    ensures a[0].key == b[0].key
  {
    var i, j := LowerBound(b, a[0].key), LowerBound(a, b[0].key);
    if i > 0 && j > 0 {
      LessAsymmetric(a[0].key, b[0].key);
    }
  }

  lemma HasKeyInTail<V>(ms: Members<V>, k: Bytes)
    requires ms != []
    ensures HasKey(ms[1..], k) <==> HasKey(ms, k) && k != ms[0].key
  {
    KeyIn(ms, k);
    KeyIn(ms[1..], k);
    if HasKey(ms, k) && k != ms[0].key {
      var p := LowerBound(ms, k);
      assert ms[1..][p - 1].key == k;
    }
    if HasKey(ms[1..], k) {
      var p := LowerBound(ms[1..], k);
      assert ms[p + 1].key == k;
      LessIrreflexive(k);
    }
  }

  /** Two objects are the same when every lookup gives the same answer. */
  lemma SameLookups<V>(a: Members<V>, b: Members<V>)
    requires forall k: Bytes :: Find(a, k) == Find(b, k)
    ensures a == b
  {
    forall k: Bytes
      ensures HasKey(a, k) == HasKey(b, k)
    {
      assert Find(a, k) == Find(b, k);
    }
    SameKeysSameOrder(a, b);
    forall i | 0 <= i < |a|
      ensures a[i] == b[i]
    {
      LowerBoundAt(a, i);
      LowerBoundAt(b, i);
      assert Find(a, a[i].key) == Find(b, a[i].key);
    }
  }
}

/** `flatten` lists a value as pointer texts with primitive values; `unflatten` rebuilds it. */
module Flatten {
  import opened ByteStrings
  import opened Wrappers
  import opened Sequences
  import opened JsonValues
  import opened Decimals
  import opened JsonPointer
  import opened Access
  import opened Diff

  const INDEX0: Bytes := [ZERO]

  // ---------- flatten ----------

  /** Primitive values and empty containers become one entry. */
  predicate LeafLike(j: Json)
  {
    match j
    case Arr(es) => es == []
    case Obj(ms) => ms == []
    case _ => true
  }

  function ChildPath(path: Bytes, j: Json, p: nat): Bytes
    requires HasChild(j, p)
  {
    if j.Arr? then ElemPath(path, p) else MemberPath(path, j.members[p].key)
  }

  function FlattenInto(path: Bytes, j: Json, result: Members<Json>): Members<Json>
    decreases j, 1, 0
  {
    match j
    case Arr(es) => if es == [] then Insert(result, path, Null) else FlattenChildren(path, j, 0, result)
    case Obj(ms) => if ms == [] then Insert(result, path, Null) else FlattenChildren(path, j, 0, result)
    case _ => Insert(result, path, j)
  }

  function FlattenChildren(path: Bytes, j: Json, p: nat, result: Members<Json>): Members<Json>
    decreases j, 0, ChildCount(j) - p
  {
    if !HasChild(j, p) then result
    else FlattenChildren(path, j, p + 1, FlattenInto(ChildPath(path, j, p), Child(j, p), result))
  }

  function ChildCount(j: Json): nat
  {
    match j
    case Arr(es) => |es|
    case Obj(ms) => |ms|
    case _ => 0
  }

  function FlattenedMembers(j: Json): Members<Json>
  {
    FlattenInto([], j, [])
  }

  /** `flatten` */
  function Flattened(j: Json): Json
  {
    Obj(FlattenedMembers(j))
  }

  // ---------- unflatten ----------

  /** One step of `get_and_create`. */
  function StepCreate(j: Json, token: Bytes): (r: Result<(Json, nat)>)
    ensures r.Ok? ==> HasChild(r.value.0, r.value.1)
  {
    match j
    case Null => if token == INDEX0 then ArraySlot([], 0) else Ok(ObjectSlot([], token))
    case Obj(ms) => Ok(ObjectSlot(ms, token))
    case Arr(es) =>
      var i :- Stoi(token);
      ArraySlot(es, i)
    case _ => Err(DomainError)
  }

  /** The document after `pointer.get_and_create(j) = v`. */
  function CreateAt(j: Json, tokens: seq<Bytes>, v: Json): Result<Json>
    decreases |tokens|
  {
    if tokens == [] then Ok(v)
    else
      var slot :- StepCreate(j, tokens[0]);
      var c :- CreateAt(Child(slot.0, slot.1), tokens[1..], v);
      Ok(WithChild(slot.0, slot.1, c))
  }

  predicate Primitive(j: Json)
  {
    !j.Arr? && !j.Obj?
  }

  function UnflattenOne(doc: Json, m: Member<Json>): Result<Json>
  {
    if !Primitive(m.value) then Err(DomainError)
    else
      var tokens :- Split(m.key);
      CreateAt(doc, tokens, m.value)
  }

  function UnflattenAll(doc: Json, ms: seq<Member<Json>>): Result<Json>
    decreases |ms|
  {
    if ms == [] then Ok(doc)
    else
      var next :- UnflattenOne(doc, ms[0]);
      UnflattenAll(next, ms[1..])
  }

  function Unflattened(j: Json): Result<Json>
  {
    if j.Obj? then UnflattenAll(Null, j.members) else Err(DomainError)
  }

  /** `unflatten` as written: one result changed by one entry after the other. */
  method UnflattenLoop(j: Json) returns (r: Result<Json>)
    ensures r == Unflattened(j)
  {
    if !j.Obj? {
      return Err(DomainError);
    }
    var result: Json := Null;
    var ms: seq<Member<Json>> := j.members;
    assert ms[0..] == ms;
    for k := 0 to |ms|
      invariant UnflattenAll(result, ms[k..]) == UnflattenAll(Null, ms)
    {
      DropStep(ms, k);
      if !Primitive(ms[k].value) {
        return Err(DomainError);
      }
      var tokens :- Split(ms[k].key);
      result :- CreateAt(result, tokens, ms[k].value);
    }
    return Ok(result);
  }

  /** The entries in front of the k-th can be created, and the k-th is an array or an object. */
  predicate RejectedAt(j: Json, k: nat)
  {
    && j.Obj? && k < |j.members|
    && UnflattenAll(Null, j.members[..k]).Ok?
    && (j.members[k].value.Arr? || j.members[k].value.Obj?)
  }

  /** A value that is no object, and one with an array or an object in it, make `unflatten` throw. */
  lemma UnflattenRejects(j: Json, k: nat)
    ensures !j.Obj? || RejectedAt(j, k) ==> Unflattened(j) == Err(DomainError)
  {
    if RejectedAt(j, k) {
      UnflattenInTurn(Null, j.members, k);
      DropStep(j.members, k);
    }
  }

  lemma {:induction false} UnflattenInTurn(doc: Json, ms: seq<Member<Json>>, k: nat)
    requires k <= |ms| && UnflattenAll(doc, ms[..k]).Ok?
    ensures UnflattenAll(doc, ms) == UnflattenAll(UnflattenAll(doc, ms[..k]).value, ms[k..])
    decreases k
  {
    hide UnflattenOne;
    if k == 0 {
      assert ms[0..] == ms;
    } else {
      assert ms[..k][0] == ms[0] && ms[..k][1..] == ms[1..][..k - 1];
      UnflattenInTurn(UnflattenOne(doc, ms[0]).value, ms[1..], k - 1);
      DropDrop(ms, 1, k - 1);
    }
  }

  /** What flattening cannot keep: empty arrays and objects become null. */
  function Nullify(j: Json): Json
  {
    match j
    case Arr(es) => if es == [] then Null else Arr(seq(|es|, i requires 0 <= i < |es| => Nullify(es[i])))
    case Obj(ms) =>
      if ms == [] then Null
      else
        var r := seq(|ms|, i requires 0 <= i < |ms| => Member(ms[i].key, Nullify(ms[i].value)));
        assert forall i :: 0 <= i < |r| ==> r[i].key == ms[i].key;
        Obj(r)
    case _ => j
  }

  // ---------- the entries of a flattened value ----------

  function ChildToken(j: Json, p: nat): Bytes
    requires HasChild(j, p)
  {
    if j.Arr? then ToDecimal(p) else j.members[p].key
  }

  function IndexPosition(token: Bytes, n: nat): (r: Option<nat>)
    ensures r.Some? ==> r.value < n && ToDecimal(r.value) == token
    ensures r.None? ==> forall i :: 0 <= i < n ==> ToDecimal(i) != token
  {
    if n == 0 then None
    else if ToDecimal(n - 1) == token then Some(n - 1)
    else IndexPosition(token, n - 1)
  }

  /** The child that a token names. */
  function TokenPosition(j: Json, token: Bytes): (r: Option<nat>)
    ensures r.Some? ==> HasChild(j, r.value) && ChildToken(j, r.value) == token
  {
    match j
    case Arr(es) => IndexPosition(token, |es|)
    case Obj(ms) => if HasKey(ms, token) then Some(LowerBound(ms, token)) else None
    case _ => None
  }

  lemma PositionOfToken(j: Json, p: nat)
    requires HasChild(j, p)
    ensures TokenPosition(j, ChildToken(j, p)) == Some(p)
  {
    if j.Arr? {
      var r := IndexPosition(ToDecimal(p), |j.elems|);
      DecimalValue(p);
      DecimalValue(r.value);
    } else {
      LowerBoundAt(j.members, p);
    }
  }

  /** The value that the entry with these tokens holds. */
  function LeafAt(j: Json, tokens: seq<Bytes>): Option<Json>
    decreases |tokens|
  {
    if LeafLike(j) then (if tokens == [] then Some(Nullify(j)) else None)
    else if tokens == [] || TokenPosition(j, tokens[0]).None? then None
    else LeafAt(Child(j, TokenPosition(j, tokens[0]).value), tokens[1..])
  }

  /** The same for an entry below a pointer. */
  function LeafBelow(j: Json, pre: seq<Bytes>, q: seq<Bytes>): Option<Json>
  {
    if pre <= q then LeafAt(j, q[|pre|..]) else None
  }

  /** The same for the children from position `p` on. */
  function LeafBelowChild(j: Json, p: nat, pre: seq<Bytes>, q: seq<Bytes>): Option<Json>
  {
    if pre < q && TokenPosition(j, q[|pre|]).Some? && p <= TokenPosition(j, q[|pre|]).value
    then LeafAt(Child(j, TokenPosition(j, q[|pre|]).value), q[|pre| + 1..])
    else None
  }

  function OrElse(a: Option<Json>, b: Option<Json>): Option<Json>
  {
    if a.Some? then a else b
  }

  lemma ChildPathText(pre: seq<Bytes>, j: Json, p: nat)
    requires HasChild(j, p)
    ensures ChildPath(ToString(pre), j, p) == ToString(pre + [ChildToken(j, p)])
  {
    if j.Arr? {
      ElemPathText(pre, p);
    } else {
      MemberPathText(pre, j.members[p].key);
    }
  }

  /** Looking up a pointer text in a flattened value gives the leaf at that path. */
  lemma {:induction false} FlattenFind(pre: seq<Bytes>, j: Json, result: Members<Json>, q: seq<Bytes>)
    ensures Find(FlattenInto(ToString(pre), j, result), ToString(q)) ==
      OrElse(LeafBelow(j, pre, q), Find(result, ToString(q)))
    decreases j, 1, 0
  {
    if LeafLike(j) {
      FindAfterInsert(result, ToString(pre), Nullify(j), ToString(q));
      SplitOfToString(pre);
      SplitOfToString(q);
      if pre <= q && q[|pre|..] == [] {
        assert q == pre;
      }
    } else {
      FlattenChildrenFind(pre, j, 0, result, q);
      if pre <= q && pre != q {
        DropStep(q, |pre|);
      }
    }
  }

  lemma PrefixOrNot(pre: seq<Bytes>, token: Bytes, q: seq<Bytes>)
    ensures pre + [token] <= q <==> pre < q && q[|pre|] == token
    ensures pre + [token] <= q ==> q[|pre + [token]|..] == q[|pre| + 1..]
  {
    if pre < q && q[|pre|] == token {
      Parts(q, |pre|);
      DropStep(q, |pre|);
      Assoc(pre, [token], q[|pre| + 1..]);
    }
  }

  lemma LeafBelowChildren(j: Json, p: nat, pre: seq<Bytes>, q: seq<Bytes>)
    requires HasChild(j, p)
    ensures LeafBelowChild(j, p, pre, q) ==
      OrElse(LeafBelowChild(j, p + 1, pre, q), LeafBelow(Child(j, p), pre + [ChildToken(j, p)], q))
  {
    PrefixOrNot(pre, ChildToken(j, p), q);
    PositionOfToken(j, p);
  }

  lemma {:induction false} FlattenChildrenFind(pre: seq<Bytes>, j: Json, p: nat, result: Members<Json>, q: seq<Bytes>)
    ensures Find(FlattenChildren(ToString(pre), j, p, result), ToString(q)) ==
      OrElse(LeafBelowChild(j, p, pre, q), Find(result, ToString(q)))
    decreases j, 0, ChildCount(j) - p
  {
    if HasChild(j, p) {
      var child := pre + [ChildToken(j, p)];
      var next := FlattenInto(ChildPath(ToString(pre), j, p), Child(j, p), result);
      ChildPathText(pre, j, p);
      FlattenFind(child, Child(j, p), result, q);
      FlattenChildrenFind(pre, j, p + 1, next, q);
      LeafBelowChildren(j, p, pre, q);
    }
  }

  predicate PointerKeys(ms: Members<Json>)
  {
    forall i | 0 <= i < |ms| :: Split(ms[i].key).Ok?
  }

  lemma InsertPointerKey(ms: Members<Json>, pre: seq<Bytes>, v: Json)
    requires PointerKeys(ms)
    ensures PointerKeys(Insert(ms, ToString(pre), v))
  {
    hide Split, ToString, Less;
    SplitOfToString(pre);
  }

  lemma {:induction false} FlattenWritesPointers(pre: seq<Bytes>, j: Json, result: Members<Json>)
    requires PointerKeys(result)
    ensures PointerKeys(FlattenInto(ToString(pre), j, result))
    decreases j, 1, 0
  {
    if LeafLike(j) {
      InsertPointerKey(result, pre, Nullify(j));
    } else {
      FlattenChildrenWritePointers(pre, j, 0, result);
    }
  }

  lemma {:induction false} FlattenChildrenWritePointers(pre: seq<Bytes>, j: Json, p: nat, result: Members<Json>)
    requires PointerKeys(result)
    ensures PointerKeys(FlattenChildren(ToString(pre), j, p, result))
    decreases j, 0, ChildCount(j) - p
  {
    if HasChild(j, p) {
      ChildPathText(pre, j, p);
      FlattenWritesPointers(pre + [ChildToken(j, p)], Child(j, p), result);
      FlattenChildrenWritePointers(pre, j, p + 1, FlattenInto(ChildPath(ToString(pre), j, p), Child(j, p), result));
    }
  }

  /** The entries of a flattened value, from both sides: each is a leaf, and each leaf has its entry. */
  lemma FlattenedEntry(j: Json, i: nat)
    requires i < |FlattenedMembers(j)|
    ensures var m := FlattenedMembers(j)[i];
      Split(m.key).Ok? && LeafAt(j, Split(m.key).value) == Some(m.value)
  {
    var ms := FlattenedMembers(j);
    FlattenWritesPointers([], j, []);
    var q := Split(ms[i].key).value;
    ToStringOfSplit(ms[i].key);
    LowerBoundAt(ms, i);
    FlattenFind([], j, [], q);
    assert q[0..] == q;
  }

  lemma LeafHasEntry(j: Json, q: seq<Bytes>) returns (i: nat)
    requires LeafAt(j, q).Some?
    ensures i < |FlattenedMembers(j)| && FlattenedMembers(j)[i] == Member(ToString(q), LeafAt(j, q).value)
  {
    var ms := FlattenedMembers(j);
    FlattenFind([], j, [], q);
    assert q[0..] == q;
    i := LowerBound(ms, ToString(q));
  }

  // ---------- what has been rebuilt ----------

  /** Has an entry below this pointer been visited? */
  ghost predicate Started(pre: seq<Bytes>, visited: set<seq<Bytes>>)
  {
    exists q :: q in visited && pre <= q
  }

  ghost predicate ElemStarted(pre: seq<Bytes>, k: nat, visited: set<seq<Bytes>>)
  {
    Started(pre + [ToDecimal(k)], visited)
  }

  /** One more than the highest element of an array below which something has been visited. */
  ghost function Extent(n: nat, pre: seq<Bytes>, visited: set<seq<Bytes>>): (e: nat)
    ensures e <= n
    ensures e > 0 ==> ElemStarted(pre, e - 1, visited)
    ensures forall k :: e <= k < n ==> !ElemStarted(pre, k, visited)
  {
    if n == 0 then 0
    else if ElemStarted(pre, n - 1, visited) then n
    else Extent(n - 1, pre, visited)
  }

  /** `doc` is what `unflatten` has rebuilt of `j` when it has visited these entries. */
  ghost predicate Matches(doc: Json, j: Json, pre: seq<Bytes>, visited: set<seq<Bytes>>)
    decreases j, 0
  {
    if !Started(pre, visited) then doc.Null?
    else if LeafLike(j) then doc == Nullify(j)
    else if j.Arr? then
      && doc.Arr?
      && |doc.elems| == Extent(|j.elems|, pre, visited)
      && forall k | 0 <= k < |doc.elems| :: ElemMatches(doc.elems[k], j.elems[k], pre, k, visited)
    else
      && doc.Obj?
      && (forall key: Bytes :: HasKey(doc.members, key) <==> HasKey(j.members, key) && Started(pre + [key], visited))
      && forall p | 0 <= p < |j.members| && HasKey(doc.members, j.members[p].key) ::
           Matches(Find(doc.members, j.members[p].key).value, j.members[p].value, pre + [j.members[p].key], visited)
  }

  ghost predicate ElemMatches(doc: Json, j: Json, pre: seq<Bytes>, k: nat, visited: set<seq<Bytes>>)
    decreases j, 1
  {
    Matches(doc, j, pre + [ToDecimal(k)], visited)
  }

  lemma StartedAfter(pre: seq<Bytes>, visited: set<seq<Bytes>>, q: seq<Bytes>)
    ensures Started(pre, visited + {q}) <==> Started(pre, visited) || pre <= q
  {
    if Started(pre, visited) {
      var x :| x in visited && pre <= x;
      assert x in visited + {q};
    }
    if pre <= q {
      assert q in visited + {q};
    }
  }

  lemma ExtentIs(n: nat, pre: seq<Bytes>, visited: set<seq<Bytes>>, e: nat)
    requires e <= n
    requires e > 0 ==> ElemStarted(pre, e - 1, visited)
    requires forall k :: e <= k < n ==> !ElemStarted(pre, k, visited)
    ensures Extent(n, pre, visited) == e
  {}

  lemma ChildNotPrefix(pre: seq<Bytes>, token: Bytes, q: seq<Bytes>)
    requires !(pre <= q) || (pre < q && q[|pre|] != token)
    ensures !(pre + [token] <= q)
  {
    PrefixOrNot(pre, token, q);
  }

  lemma ExtentElsewhere(n: nat, pre: seq<Bytes>, visited: set<seq<Bytes>>, q: seq<Bytes>)
    requires !(pre <= q)
    ensures Extent(n, pre, visited + {q}) == Extent(n, pre, visited)
  {
    forall k: nat
      ensures ElemStarted(pre, k, visited + {q}) == ElemStarted(pre, k, visited)
    {
      ChildNotPrefix(pre, ToDecimal(k), q);
      StartedAfter(pre + [ToDecimal(k)], visited, q);
    }
    ExtentIs(n, pre, visited + {q}, Extent(n, pre, visited));
  }

  /** Visiting an entry elsewhere does not matter here. */
  lemma {:induction false} MatchesElsewhere(doc: Json, j: Json, pre: seq<Bytes>, visited: set<seq<Bytes>>,
      q: seq<Bytes>)
    requires Matches(doc, j, pre, visited) && !(pre <= q)
    ensures Matches(doc, j, pre, visited + {q})
    decreases j
  {
    StartedAfter(pre, visited, q);
    if Started(pre, visited) && !LeafLike(j) {
      if j.Arr? {
        ExtentElsewhere(|j.elems|, pre, visited, q);
        forall k | 0 <= k < |doc.elems|
          ensures ElemMatches(doc.elems[k], j.elems[k], pre, k, visited + {q})
        {
          assert ElemMatches(doc.elems[k], j.elems[k], pre, k, visited);
          ChildNotPrefix(pre, ToDecimal(k), q);
          MatchesElsewhere(doc.elems[k], j.elems[k], pre + [ToDecimal(k)], visited, q);
        }
      } else {
        forall key: Bytes
          ensures Started(pre + [key], visited + {q}) == Started(pre + [key], visited)
        {
          ChildNotPrefix(pre, key, q);
          StartedAfter(pre + [key], visited, q);
        }
        forall p | 0 <= p < |j.members| && HasKey(doc.members, j.members[p].key)
          ensures Matches(Find(doc.members, j.members[p].key).value, j.members[p].value,
                    pre + [j.members[p].key], visited + {q})
        {
          var key := j.members[p].key;
          ChildNotPrefix(pre, key, q);
          MatchesElsewhere(Find(doc.members, key).value, j.members[p].value, pre + [key], visited, q);
        }
      }
    }
  }

  // ---------- one entry ----------

  /**
   The way down to an entry on which `get_and_create` makes the right containers: an array index fits into
   an int, and of the entries below an array or object that is still null the first has token "0" or
   another token, respectively.
   */
  ghost predicate Admissible(j: Json, pre: seq<Bytes>, visited: set<seq<Bytes>>, rest: seq<Bytes>)
    requires LeafAt(j, rest).Some?
    decreases |rest|
  {
    rest != [] ==>
      var p := TokenPosition(j, rest[0]).value;
      && (j.Arr? ==> p <= INT32_MAX && (Started(pre, visited) || p == 0))
      && (j.Obj? ==> Started(pre, visited) || rest[0] != INDEX0)
      && Admissible(Child(j, p), pre + [rest[0]], visited, rest[1..])
  }

  /** The slot that an array index gets, as a list. */
  lemma CreateArraySlot(doc: Json, p: nat, started: bool)
    requires p <= INT32_MAX && (if started then doc.Arr? else doc.Null? && p == 0)
    ensures var es := if started then doc.elems else [];
      StepCreate(doc, ToDecimal(p)) == Ok((Arr(if p < |es| then es else es + Nulls(p - |es| + 1)), p))
  {
    hide Stoi;
    StoiOfDecimal(p);
    if !started {
      assert ToDecimal(0) == INDEX0;
      assert [] + Nulls(1) == Nulls(1);
    }
  }

  lemma CreateObjectSlot(doc: Json, key: Bytes, c: Json) returns (ms: Members<Json>)
    requires doc.Obj? || (doc.Null? && key != INDEX0)
    ensures var old' := if doc.Obj? then doc.members else [];
      var slot := StepCreate(doc, key);
      && slot.Ok?
      && Child(slot.value.0, slot.value.1) == (if HasKey(old', key) then Find(old', key).value else Null)
      && WithChild(slot.value.0, slot.value.1, c) == Obj(ms)
      && forall x: Bytes :: Find(ms, x) == if x == key then Some(c) else Find(old', x)
  {
    var old': Members<Json> := if doc.Obj? then doc.members else [];
    var slot := ObjectSlot(old', key);
    ms := SetValue(slot.0.members, slot.1, c);
    FindAfterInsert(old', key, Null, key);
    forall x: Bytes
      ensures Find(ms, x) == if x == key then Some(c) else Find(old', x)
    {
      FindAfterInsert(old', key, Null, x);
      FindAfterSetValue(slot.0.members, slot.1, c, x);
    }
  }

  /** Creating the next entry, on an admissible way, keeps the match. */
  lemma {:induction false} CreateKeepsMatch(
    doc: Json, j: Json, pre: seq<Bytes>, visited: set<seq<Bytes>>, rest: seq<Bytes>)
    requires Matches(doc, j, pre, visited)
    requires LeafAt(j, rest).Some? && Admissible(j, pre, visited, rest)
    ensures var r := CreateAt(doc, rest, LeafAt(j, rest).value);
      r.Ok? && Matches(r.value, j, pre, visited + {pre + rest})
    decreases |rest|
  {
    var q := pre + rest;
    StartedAfter(pre, visited, q);
    if rest != [] {
      if j.Arr? {
        CreateInArray(doc, j, pre, visited, rest);
      } else {
        CreateInObject(doc, j, pre, visited, rest);
      }
    }
  }

  lemma PathThroughChild(pre: seq<Bytes>, rest: seq<Bytes>)
    requires rest != []
    ensures pre + rest == pre + [rest[0]] + rest[1..]
    ensures pre < pre + rest && (pre + rest)[|pre|] == rest[0] && pre + [rest[0]] <= pre + rest
  {
    HeadTail(rest);
    Assoc(pre, [rest[0]], rest[1..]);
  }

  lemma AdmissibleStep(j: Json, pre: seq<Bytes>, visited: set<seq<Bytes>>, rest: seq<Bytes>) returns (p: nat)
    requires rest != [] && LeafAt(j, rest).Some? && Admissible(j, pre, visited, rest)
    ensures !LeafLike(j) && HasChild(j, p) && ChildToken(j, p) == rest[0]
    ensures LeafAt(Child(j, p), rest[1..]) == LeafAt(j, rest)
    ensures Admissible(Child(j, p), pre + [rest[0]], visited, rest[1..])
    ensures j.Arr? ==> p <= INT32_MAX && (Started(pre, visited) || p == 0)
    ensures j.Obj? ==> Started(pre, visited) || rest[0] != INDEX0
  {
    p := TokenPosition(j, rest[0]).value;
  }

  lemma {:induction false} CreateInArray(
    doc: Json, j: Json, pre: seq<Bytes>, visited: set<seq<Bytes>>, rest: seq<Bytes>)
    requires j.Arr? && rest != [] && Matches(doc, j, pre, visited)
    requires LeafAt(j, rest).Some? && Admissible(j, pre, visited, rest)
    ensures var r := CreateAt(doc, rest, LeafAt(j, rest).value);
      r.Ok? && Matches(r.value, j, pre, visited + {pre + rest})
    decreases |rest|, 0
  {
    hide Extent, LeafAt, Admissible, Matches, ToDecimal, StepCreate;
    var q, v := pre + rest, LeafAt(j, rest).value;
    var p := AdmissibleStep(j, pre, visited, rest);
    PathThroughChild(pre, rest);
    ArrayBefore(doc, j, pre, visited);
    var es := if Started(pre, visited) then doc.elems else [];
    var xs := if p < |es| then es else es + Nulls(p - |es| + 1);
    CreateArraySlot(doc, p, Started(pre, visited));
    SlotMatches(xs, |es|, j.elems, p, pre, visited);
    CreateKeepsMatch(xs[p], j.elems[p], pre + [rest[0]], visited, rest[1..]);
    var c := CreateAt(xs[p], rest[1..], v).value;
    ArrayMatches(xs[p := c], xs, |es|, j.elems, p, pre, visited, q);
  }

  /** The slot of the next element: what has been rebuilt of it, or null. */
  lemma SlotMatches(xs: seq<Json>, e: nat, es: seq<Json>, p: nat, pre: seq<Bytes>, visited: set<seq<Bytes>>)
    requires p < |xs| && p < |es| && e == Extent(|es|, pre, visited)
    requires p < e ==> ElemMatches(xs[p], es[p], pre, p, visited)
    requires p >= e ==> xs[p].Null?
    ensures ElemMatches(xs[p], es[p], pre, p, visited)
  {
    assert p >= e ==> !ElemStarted(pre, p, visited);
  }

  lemma ArrayBefore(doc: Json, j: Json, pre: seq<Bytes>, visited: set<seq<Bytes>>)
    requires Matches(doc, j, pre, visited) && j.Arr? && !LeafLike(j)
    ensures if Started(pre, visited) then doc.Arr? else doc.Null?
    ensures var es := if Started(pre, visited) then doc.elems else [];
      && |es| == Extent(|j.elems|, pre, visited)
      && forall k :: 0 <= k < |es| ==> ElemMatches(es[k], j.elems[k], pre, k, visited)
  {
    NotStartedBelow(|j.elems|, pre, visited);
  }

  /** The array with one rebuilt element and nulls before it. */
  lemma ArrayMatches(ys: seq<Json>, xs: seq<Json>, e: nat, es: seq<Json>, p: nat,
                     pre: seq<Bytes>, visited: set<seq<Bytes>>, q: seq<Bytes>)
    requires p < |es| && pre < q && q[|pre|] == ToDecimal(p)
    requires e == Extent(|es|, pre, visited)
    requires |ys| == |xs| == (if p < e then e else p + 1) && ys == xs[p := ys[p]]
    requires forall k :: 0 <= k < e ==> ElemMatches(xs[k], es[k], pre, k, visited)
    requires forall k :: e <= k < |xs| ==> xs[k].Null?
    requires ElemMatches(ys[p], es[p], pre, p, visited + {q})
    ensures Matches(Arr(ys), Arr(es), pre, visited + {q})
  {
    hide ElemMatches, Extent, ElemStarted, Started, ToDecimal, Nullify;
    StartedAfter(pre, visited, q);
    ArrayExtent(es, e, p, pre, visited, q);
    ElemsMatch(ys, xs, e, es, p, pre, visited, q);
  }

  lemma ElemsMatch(ys: seq<Json>, xs: seq<Json>, e: nat, es: seq<Json>, p: nat,
                   pre: seq<Bytes>, visited: set<seq<Bytes>>, q: seq<Bytes>)
    requires p < |es| && pre < q && q[|pre|] == ToDecimal(p)
    requires e == Extent(|es|, pre, visited)
    requires |ys| == |xs| == (if p < e then e else p + 1) && ys == xs[p := ys[p]]
    requires forall k :: 0 <= k < e ==> ElemMatches(xs[k], es[k], pre, k, visited)
    requires forall k :: e <= k < |xs| ==> xs[k].Null?
    requires ElemMatches(ys[p], es[p], pre, p, visited + {q})
    ensures forall k :: 0 <= k < |ys| ==> ElemMatches(ys[k], es[k], pre, k, visited + {q})
  {
    hide ElemMatches, ElemStarted, Started, ToDecimal;
    forall k | 0 <= k < |ys|
      ensures ElemMatches(ys[k], es[k], pre, k, visited + {q})
    {
      if k != p {
        OtherElemMatches(xs[k], k < e, es[k], p, k, pre, visited, q);
      }
    }
  }

  lemma OtherElemMatches(x: Json, known: bool, j: Json, p: nat, k: nat,
                         pre: seq<Bytes>, visited: set<seq<Bytes>>, q: seq<Bytes>)
    requires pre < q && q[|pre|] == ToDecimal(p) && k != p
    requires if known then ElemMatches(x, j, pre, k, visited) else x.Null? && !ElemStarted(pre, k, visited)
    ensures ElemMatches(x, j, pre, k, visited + {q})
  {
    StartedElems(pre, visited, q, p);
    MatchesElsewhere(x, j, pre + [ToDecimal(k)], visited, q);
  }

  lemma ArrayExtent(es: seq<Json>, e: nat, p: nat, pre: seq<Bytes>, visited: set<seq<Bytes>>, q: seq<Bytes>)
    requires p < |es| && pre < q && q[|pre|] == ToDecimal(p)
    requires e == Extent(|es|, pre, visited)
    ensures Extent(|es|, pre, visited + {q}) == if p < e then e else p + 1
    ensures forall k :: e <= k < |es| ==> !ElemStarted(pre, k, visited)
  {
    hide ToDecimal, Started, ElemStarted;
    StartedElems(pre, visited, q, p);
    ExtentIs(|es|, pre, visited + {q}, if p < e then e else p + 1);
  }

  /** Among the elements of an array, visiting `q` starts the one that it goes through. */
  lemma StartedElems(pre: seq<Bytes>, visited: set<seq<Bytes>>, q: seq<Bytes>, p: nat)
    requires pre < q && q[|pre|] == ToDecimal(p)
    ensures forall k: nat :: ElemStarted(pre, k, visited + {q}) <==> ElemStarted(pre, k, visited) || k == p
    ensures forall k: nat :: k != p ==> !(pre + [ToDecimal(k)] <= q)
  {
    forall k: nat
      ensures ElemStarted(pre, k, visited + {q}) <==> ElemStarted(pre, k, visited) || k == p
      ensures k != p ==> !(pre + [ToDecimal(k)] <= q)
    {
      PrefixOrNot(pre, ToDecimal(k), q);
      DecimalValue(k);
      DecimalValue(p);
      StartedAfter(pre + [ToDecimal(k)], visited, q);
    }
  }

  lemma StartedAbove(pre: seq<Bytes>, token: Bytes, visited: set<seq<Bytes>>)
    requires Started(pre + [token], visited)
    ensures Started(pre, visited)
  {
    var x :| x in visited && pre + [token] <= x;
    PrefixOrNot(pre, token, x);
  }

  lemma NotStartedBelow(n: nat, pre: seq<Bytes>, visited: set<seq<Bytes>>)
    ensures !Started(pre, visited) ==> Extent(n, pre, visited) == 0
    ensures forall token: Bytes :: Started(pre + [token], visited) ==> Started(pre, visited)
    ensures forall k: nat :: ElemStarted(pre, k, visited) ==> Started(pre, visited)
  {
    forall token: Bytes | Started(pre + [token], visited)
      ensures Started(pre, visited)
    {
      StartedAbove(pre, token, visited);
    }
  }

  lemma {:induction false} CreateInObject(
    doc: Json, j: Json, pre: seq<Bytes>, visited: set<seq<Bytes>>, rest: seq<Bytes>)
    requires j.Obj? && rest != [] && Matches(doc, j, pre, visited)
    requires LeafAt(j, rest).Some? && Admissible(j, pre, visited, rest)
    ensures var r := CreateAt(doc, rest, LeafAt(j, rest).value);
      r.Ok? && Matches(r.value, j, pre, visited + {pre + rest})
    decreases |rest|, 0
  {
    var q, key, v := pre + rest, rest[0], LeafAt(j, rest).value;
    var p := TokenPosition(j, key).value;
    PathThroughChild(pre, rest);
    NotStartedBelow(0, pre, visited);
    var olds: Members<Json> := if doc.Obj? then doc.members else [];
    var known := if HasKey(olds, key) then Find(olds, key).value else Null;
    CreateKeepsMatch(known, j.members[p].value, pre + [key], visited, rest[1..]);
    var c := CreateAt(known, rest[1..], v).value;
    var ms := CreateObjectSlot(doc, key, c);
    ObjectMatches(ms, olds, j.members, p, c, pre, visited, q);
  }

  lemma ObjectMatches(ms: Members<Json>, olds: Members<Json>, js: Members<Json>, p: nat, c: Json,
                      pre: seq<Bytes>, visited: set<seq<Bytes>>, q: seq<Bytes>)
    requires p < |js| && pre < q && q[|pre|] == js[p].key
    requires forall x: Bytes :: Find(ms, x) == if x == js[p].key then Some(c) else Find(olds, x)
    requires forall x: Bytes :: HasKey(olds, x) <==> HasKey(js, x) && Started(pre + [x], visited)
    requires forall i | 0 <= i < |js| && HasKey(olds, js[i].key) ::
      Matches(Find(olds, js[i].key).value, js[i].value, pre + [js[i].key], visited)
    requires Matches(c, js[p].value, pre + [js[p].key], visited + {q})
    ensures Matches(Obj(ms), Obj(js), pre, visited + {q})
  {
    LowerBoundAt(js, p);
    StartedAfter(pre, visited, q);
    forall x: Bytes
      ensures HasKey(ms, x) <==> HasKey(js, x) && Started(pre + [x], visited + {q})
      ensures x != js[p].key ==> !(pre + [x] <= q)
    {
      assert Find(ms, x) == if x == js[p].key then Some(c) else Find(olds, x);
      PrefixOrNot(pre, x, q);
      StartedAfter(pre + [x], visited, q);
    }
    forall i | 0 <= i < |js| && HasKey(ms, js[i].key)
      ensures Matches(Find(ms, js[i].key).value, js[i].value, pre + [js[i].key], visited + {q})
    {
      LowerBoundAt(js, i);
      assert Find(ms, js[i].key) == if js[i].key == js[p].key then Some(c) else Find(olds, js[i].key);
      if i != p {
        MatchesElsewhere(Find(olds, js[i].key).value, js[i].value, pre + [js[i].key], visited, q);
      }
    }
  }
}

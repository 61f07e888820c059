/**
 `unflatten(flatten(j))`: the entries come in byte order of their pointer texts, and that order decides
 whether the rebuilt containers are the right ones.
 */
module FlattenOrder {
  import opened ByteStrings
  import opened Wrappers
  import opened Sequences
  import opened JsonValues
  import opened Decimals
  import opened JsonPointer
  import opened Access
  import opened Compare
  import opened Diff
  import opened Flatten

  // ---------- the condition ----------

  /** How the texts of the entries below a member begin, after the slash of their parent. */
  function Head(m: Member<Json>): Bytes
  {
    Escape(m.key) + (if LeafLike(m.value) then [] else [SLASH])
  }

  /** The member "0" is there and its entries come before those of every other member. */
  predicate ZeroComesFirst(ms: Members<Json>)
  {
    HasKey(ms, INDEX0) &&
    forall i | 0 <= i < |ms| && ms[i].key != INDEX0 :: Less(Head(ms[LowerBound(ms, INDEX0)]), Head(ms[i]))
  }

  /** No object visits the key "0" first, and every array index fits into an int. */
  predicate Restorable(j: Json)
  {
    match j
    case Arr(es) => |es| <= INT32_MAX + 1 && forall i | 0 <= i < |es| :: Restorable(es[i])
    case Obj(ms) => !ZeroComesFirst(ms) && forall i | 0 <= i < |ms| :: Restorable(ms[i].value)
    case _ => true
  }

  // ---------- the order of the entries ----------

  lemma {:induction false} ToStringConcat(a: seq<Bytes>, b: seq<Bytes>)
    ensures TextOf(a + b) == TextOf(a) + TextOf(b)
  {
    if a == [] {
      LeftUnit(b);
      LeftUnit(TextOf(b));
    } else {
      ConcatHead(a, b);
      ToStringConcat(a[1..], b);
      Assoc([SLASH] + Escape(a[0]), TextOf(a[1..]), TextOf(b));
    }
  }

  /** Below a pointer, entries are ordered by the texts that follow it. */
  lemma OrderBelow(pre: seq<Bytes>, a: seq<Bytes>, b: seq<Bytes>)
    ensures Less(ToString(pre + a), ToString(pre + b)) == Less(TextOf(a), TextOf(b))
  {
    ToStringIsText(pre + a);
    ToStringIsText(pre + b);
    ToStringConcat(pre, a);
    ToStringConcat(pre, b);
    LessAfterPrefix(TextOf(pre), TextOf(a), TextOf(b));
  }

  /** A string that is smaller without being a prefix stays smaller, whatever follows. */
  lemma {:induction false} LessWithTails(a: Bytes, x: Bytes, b: Bytes, y: Bytes)
    requires Less(a, b) && (a <= b ==> x == [])
    ensures Less(a + x, b + y)
  {
    ConcatHead(b, y);
    if a == [] {
      LeftUnit(x);
    } else {
      ConcatHead(a, x);
      if a[0] == b[0] {
        HeadTail(a);
        HeadTail(b);
        assert a[1..] <= b[1..] ==> a <= b;
        LessWithTails(a[1..], x, b[1..], y);
      }
    }
  }

  lemma SlashEndsKey(a: Bytes, b: Bytes, tail: Bytes)
    requires SLASH !in a && SLASH !in b && (tail == [] || tail == [SLASH])
    requires a + [SLASH] <= b + tail
    ensures a == b
  {
    var k := |a|;
    assert (b + tail)[k] == (a + [SLASH])[k] == SLASH;
    assert k == |b|;
    assert b == (b + tail)[..k] == (a + [SLASH])[..k] == a;
  }

  /** The head of a container member is no prefix of the head of another member. */
  lemma ContainerHeadNoPrefix(m: Member<Json>, n: Member<Json>)
    requires m.key != n.key && !LeafLike(m.value)
    ensures !(Head(m) <= Head(n))
  {
    UnescapeOfEscape(m.key);
    UnescapeOfEscape(n.key);
    if Head(m) <= Head(n) {
      SlashEndsKey(Escape(m.key), Escape(n.key), if LeafLike(n.value) then [] else [SLASH]);
    }
  }

  /** A leaf path starts with the token of a child. */
  lemma LeafThroughChild(j: Json, r: seq<Bytes>) returns (p: nat)
    requires LeafAt(j, r).Some? && !LeafLike(j)
    ensures r != [] && HasChild(j, p) && ChildToken(j, p) == r[0] && LeafAt(Child(j, p), r[1..]) == LeafAt(j, r)
  {
    p := TokenPosition(j, r[0]).value;
  }

  lemma ChildLeaf(j: Json, p: nat, r: seq<Bytes>)
    requires HasChild(j, p)
    ensures LeafAt(j, [ChildToken(j, p)] + r) == LeafAt(Child(j, p), r)
  {
    PositionOfToken(j, p);
    ConsTail(ChildToken(j, p), r);
  }

  /** Every value has an entry. */
  lemma {:induction false} SomeLeaf(j: Json) returns (r: seq<Bytes>)
    ensures LeafAt(j, r).Some?
  {
    if LeafLike(j) {
      r := [];
    } else {
      var below := SomeLeaf(Child(j, 0));
      ChildLeaf(j, 0, below);
      r := [ChildToken(j, 0)] + below;
    }
  }

  /** What follows the head of a member in the text of an entry below it. */
  lemma TextAfterHead(m: Member<Json>, r: seq<Bytes>) returns (tail: Bytes)
    requires LeafAt(m.value, r).Some?
    ensures TextOf([m.key] + r) == [SLASH] + (Head(m) + tail)
    ensures LeafLike(m.value) ==> tail == []
  {
    TextOfFirst(m.key, r);
    if LeafLike(m.value) {
      tail := [];
      RightUnit(Escape(m.key));
      RightUnit([SLASH] + Escape(m.key));
    } else {
      var p := LeafThroughChild(m.value, r);
      HeadTail(r);
      TextOfFirst(r[0], r[1..]);
      tail := Escape(r[0]) + TextOf(r[1..]);
      Assoc([SLASH], Escape(r[0]), TextOf(r[1..]));
      Assoc(Escape(m.key), [SLASH], tail);
      Assoc([SLASH], Escape(m.key), [SLASH] + tail);
    }
  }

  /** The heads of two members decide the order of all entries below them. */
  lemma HeadsDecide(m: Member<Json>, a: seq<Bytes>, n: Member<Json>, b: seq<Bytes>)
    requires m.key != n.key && Less(Head(m), Head(n))
    requires LeafAt(m.value, a).Some? && LeafAt(n.value, b).Some?
    ensures Less(TextOf([m.key] + a), TextOf([n.key] + b))
  {
    var x := TextAfterHead(m, a);
    var y := TextAfterHead(n, b);
    if !LeafLike(m.value) {
      ContainerHeadNoPrefix(m, n);
    }
    LessWithTails(Head(m), x, Head(n), y);
    LessAfterPrefix([SLASH], Head(m) + x, Head(n) + y);
  }

  /** Entries below index 0 of an array come before the others. */
  lemma ZeroIndexFirst(i: nat, a: seq<Bytes>, b: seq<Bytes>)
    requires i > 0
    ensures Less(TextOf([ToDecimal(0)] + a), TextOf([ToDecimal(i)] + b))
  {
    var z, d := ToDecimal(0), ToDecimal(i);
    EscapeDigits(z);
    EscapeDigits(d);
    TextOfFirst(z, a);
    TextOfFirst(d, b);
    Assoc([SLASH], z, TextOf(a));
    Assoc([SLASH], d, TextOf(b));
    LessAfterPrefix([SLASH], z + TextOf(a), d + TextOf(b));
  }

  // ---------- visiting in order ----------

  ghost function TokensOf(text: Bytes): seq<Bytes>
  {
    if Split(text).Ok? then Split(text).value else []
  }

  /** The entries of a flattened value, as token lists, in the order in which `unflatten` visits them. */
  ghost function Entries(j: Json): (es: seq<seq<Bytes>>)
    ensures |es| == |FlattenedMembers(j)|
  {
    var ms := FlattenedMembers(j);
    seq(|ms|, i requires 0 <= i < |ms| => TokensOf(ms[i].key))
  }

  ghost function Visited(es: seq<seq<Bytes>>, n: nat): set<seq<Bytes>>
    requires n <= |es|
  {
    set i | 0 <= i < n :: es[i]
  }

  lemma EntryFacts(j: Json, i: nat)
    requires i < |Entries(j)|
    ensures var m := FlattenedMembers(j)[i];
      && Split(m.key) == Ok(Entries(j)[i]) && m.key == ToString(Entries(j)[i])
      && LeafAt(j, Entries(j)[i]) == Some(m.value)
  {
    FlattenedEntry(j, i);
    ToStringOfSplit(FlattenedMembers(j)[i].key);
  }

  /** The entries are exactly the leaves, in strictly increasing byte order of their texts. */
  lemma EntriesInOrder(j: Json)
    ensures forall i, k :: 0 <= i < k < |Entries(j)| ==> Less(ToString(Entries(j)[i]), ToString(Entries(j)[k]))
    ensures forall q: seq<Bytes> :: LeafAt(j, q).Some? <==> q in Entries(j)
  {
    var es, ms := Entries(j), FlattenedMembers(j);
    forall i, k | 0 <= i < k < |es|
      ensures Less(ToString(es[i]), ToString(es[k]))
    {
      EntryFacts(j, i);
      EntryFacts(j, k);
    }
    forall q: seq<Bytes>
      ensures LeafAt(j, q).Some? <==> q in es
    {
      if LeafAt(j, q).Some? {
        var i := LeafHasEntry(j, q);
        SplitOfToString(q);
        assert es[i] == q;
      }
      if i :| 0 <= i < |es| && es[i] == q {
        EntryFacts(j, i);
      }
    }
  }

  /** Every entry below a node that comes before this one has been visited. */
  ghost predicate SmallerVisited(j: Json, pre: seq<Bytes>, visited: set<seq<Bytes>>, rest: seq<Bytes>)
  {
    forall r: seq<Bytes> :: LeafAt(j, r).Some? && Less(ToString(pre + r), ToString(pre + rest)) ==> pre + r in visited
  }

  lemma SmallerBelow(j: Json, pre: seq<Bytes>, visited: set<seq<Bytes>>, rest: seq<Bytes>, p: nat)
    requires SmallerVisited(j, pre, visited, rest)
    requires rest != [] && HasChild(j, p) && ChildToken(j, p) == rest[0]
    ensures SmallerVisited(Child(j, p), pre + [rest[0]], visited, rest[1..])
  {
    PathThroughChild(pre, rest);
    forall r: seq<Bytes> | LeafAt(Child(j, p), r).Some? &&
      Less(ToString(pre + [rest[0]] + r), ToString(pre + [rest[0]] + rest[1..]))
      ensures pre + [rest[0]] + r in visited
    {
      ChildLeaf(j, p, r);
      Assoc(pre, [rest[0]], r);
      assert LeafAt(j, [rest[0]] + r).Some?;
    }
  }

  /** A smaller entry below a node has started that node. */
  lemma SmallerStarts(j: Json, pre: seq<Bytes>, visited: set<seq<Bytes>>, rest: seq<Bytes>, r: seq<Bytes>)
    requires SmallerVisited(j, pre, visited, rest)
    requires LeafAt(j, r).Some? && Less(TextOf(r), TextOf(rest))
    ensures Started(pre, visited)
  {
    OrderBelow(pre, r, rest);
    assert pre <= pre + r;
  }

  /** On a restorable value the byte order is admissible. */
  lemma {:induction false} OrderIsAdmissible(j: Json, pre: seq<Bytes>, visited: set<seq<Bytes>>, rest: seq<Bytes>)
    requires Restorable(j) && LeafAt(j, rest).Some? && SmallerVisited(j, pre, visited, rest)
    ensures Admissible(j, pre, visited, rest)
    decreases |rest|
  {
    if rest != [] {
      var p := LeafThroughChild(j, rest);
      PositionOfToken(j, p);
      SmallerBelow(j, pre, visited, rest, p);
      OrderIsAdmissible(Child(j, p), pre + [rest[0]], visited, rest[1..]);
      HeadTail(rest);
      if j.Arr? && p > 0 {
        var r := SomeLeaf(j.elems[0]);
        ChildLeaf(j, 0, r);
        ZeroIndexFirst(p, r, rest[1..]);
        SmallerStarts(j, pre, visited, rest, [ToDecimal(0)] + r);
      } else if j.Obj? && rest[0] == INDEX0 {
        var i := BeforeZero(j.members);
        var r := SomeLeaf(j.members[i].value);
        ChildLeaf(j, i, r);
        HeadsDecide(j.members[i], r, j.members[p], rest[1..]);
        SmallerStarts(j, pre, visited, rest, [j.members[i].key] + r);
      }
    }
  }

  /** A member whose entries come before those of the member "0". */
  lemma BeforeZero(ms: Members<Json>) returns (i: nat)
    requires HasKey(ms, INDEX0) && !ZeroComesFirst(ms)
    ensures i < |ms| && ms[i].key != INDEX0 && Less(Head(ms[i]), Head(ms[LowerBound(ms, INDEX0)]))
  {
    var z := LowerBound(ms, INDEX0);
    i :| 0 <= i < |ms| && ms[i].key != INDEX0 && !Less(Head(ms[z]), Head(ms[i]));
    DifferentHeads(ms[z], ms[i]);
    LessTotal(Head(ms[z]), Head(ms[i]));
  }

  lemma DifferentHeads(m: Member<Json>, n: Member<Json>)
    requires m.key != n.key
    ensures Head(m) != Head(n)
  {
    if LeafLike(m.value) && LeafLike(n.value) {
      RightUnit(Escape(m.key));
      RightUnit(Escape(n.key));
      UnescapeOfEscape(m.key);
      UnescapeOfEscape(n.key);
    } else if !LeafLike(m.value) {
      ContainerHeadNoPrefix(m, n);
    } else {
      ContainerHeadNoPrefix(n, m);
    }
  }

  // ---------- rebuilding ----------

  lemma {:induction false} LeafIsPrimitive(j: Json, q: seq<Bytes>)
    requires LeafAt(j, q).Some?
    ensures Primitive(LeafAt(j, q).value)
    decreases |q|
  {
    if !LeafLike(j) {
      var p := LeafThroughChild(j, q);
      LeafIsPrimitive(Child(j, p), q[1..]);
    }
  }

  /** Visiting entry `i` creates it. */
  lemma EntryCreates(j: Json, i: nat, doc: Json)
    requires i < |Entries(j)|
    ensures LeafAt(j, Entries(j)[i]).Some?
    ensures UnflattenOne(doc, FlattenedMembers(j)[i]) ==
      CreateAt(doc, Entries(j)[i], LeafAt(j, Entries(j)[i]).value)
  {
    EntryFacts(j, i);
    LeafIsPrimitive(j, Entries(j)[i]);
  }

  lemma VisitedStep(es: seq<seq<Bytes>>, i: nat)
    requires i < |es|
    ensures Visited(es, i + 1) == Visited(es, i) + {es[i]}
  {}

  /** At its turn, everything smaller than an entry has been visited. */
  lemma TurnOf(j: Json, i: nat)
    requires i < |Entries(j)|
    ensures SmallerVisited(j, [], Visited(Entries(j), i), Entries(j)[i])
  {
    hide LeafAt, ToString, Less, Entries;
    var es := Entries(j);
    EntriesInOrder(j);
    LeftUnit(es[i]);
    forall r: seq<Bytes> | LeafAt(j, r).Some? && Less(ToString([] + r), ToString([] + es[i]))
      ensures [] + r in Visited(es, i)
    {
      LeftUnit(r);
      var k :| 0 <= k < |es| && es[k] == r;
      LessAsymmetric(ToString(r), ToString(es[i]));
      assert k < i;
    }
  }

  /** When every entry has been visited, the match is complete. */
  lemma {:induction false} CompleteMatch(doc: Json, j: Json, pre: seq<Bytes>, visited: set<seq<Bytes>>)
    requires Matches(doc, j, pre, visited)
    requires forall r: seq<Bytes> :: LeafAt(j, r).Some? ==> pre + r in visited
    ensures doc == Nullify(j)
    decreases j
  {
    var r := SomeLeaf(j);
    assert pre <= pre + r;
    if !LeafLike(j) {
      forall p | HasChild(j, p)
        ensures Started(pre + [ChildToken(j, p)], visited)
        ensures forall r: seq<Bytes> :: LeafAt(Child(j, p), r).Some? ==> pre + [ChildToken(j, p)] + r in visited
      {
        ChildComplete(j, p, pre, visited);
      }
      if j.Arr? {
        assert ElemStarted(pre, |j.elems| - 1, visited) by {
          assert HasChild(j, |j.elems| - 1);
        }
        forall k | 0 <= k < |doc.elems|
          ensures doc.elems[k] == Nullify(j.elems[k])
        {
          assert HasChild(j, k) && ElemMatches(doc.elems[k], j.elems[k], pre, k, visited);
          CompleteMatch(doc.elems[k], j.elems[k], pre + [ToDecimal(k)], visited);
        }
      } else {
        CompleteObject(doc, j, pre, visited);
      }
    }
  }

  lemma ChildComplete(j: Json, p: nat, pre: seq<Bytes>, visited: set<seq<Bytes>>)
    requires HasChild(j, p)
    requires forall r: seq<Bytes> :: LeafAt(j, r).Some? ==> pre + r in visited
    ensures Started(pre + [ChildToken(j, p)], visited)
    ensures forall r: seq<Bytes> :: LeafAt(Child(j, p), r).Some? ==> pre + [ChildToken(j, p)] + r in visited
  {
    var token := ChildToken(j, p);
    forall r: seq<Bytes> | LeafAt(Child(j, p), r).Some?
      ensures pre + [token] + r in visited
    {
      ChildLeaf(j, p, r);
      Assoc(pre, [token], r);
    }
    var below := SomeLeaf(Child(j, p));
    assert pre + [token] <= pre + [token] + below;
  }

  lemma {:induction false} CompleteObject(doc: Json, j: Json, pre: seq<Bytes>, visited: set<seq<Bytes>>)
    requires j.Obj? && !LeafLike(j) && Started(pre, visited) && Matches(doc, j, pre, visited)
    requires forall r: seq<Bytes> :: LeafAt(j, r).Some? ==> pre + r in visited
    ensures doc == Nullify(j)
    decreases j, 0
  {
    var ms, js, ns := doc.members, j.members, Nullify(j).members;
    forall key: Bytes
      ensures HasKey(ms, key) == HasKey(js, key)
    {
      if HasKey(js, key) {
        ChildComplete(j, LowerBound(js, key), pre, visited);
      }
    }
    SameKeysSameOrder(ms, js);
    forall i | 0 <= i < |ms|
      ensures ms[i] == ns[i]
    {
      LowerBoundAt(ms, i);
      ChildComplete(j, i, pre, visited);
      CompleteMatch(ms[i].value, js[i].value, pre + [js[i].key], visited);
    }
  }

  /** Visiting the remaining entries, while each is admissible, completes the value. */
  lemma {:induction false} Rebuild(j: Json, doc: Json, i: nat)
    requires i <= |Entries(j)| && Matches(doc, j, [], Visited(Entries(j), i))
    requires forall k | i <= k < |Entries(j)| ::
      LeafAt(j, Entries(j)[k]).Some? && Admissible(j, [], Visited(Entries(j), k), Entries(j)[k])
    ensures UnflattenAll(doc, FlattenedMembers(j)[i..]) == Ok(Nullify(j))
    decreases |Entries(j)| - i
  {
    var es: seq<seq<Bytes>>, ms: seq<Member<Json>> := Entries(j), FlattenedMembers(j);
    if i == |es| {
      EntriesInOrder(j);
      forall r: seq<Bytes> | LeafAt(j, r).Some?
        ensures [] + r in Visited(es, i)
      {
        LeftUnit(r);
        var k :| 0 <= k < |es| && es[k] == r;
      }
      CompleteMatch(doc, j, [], Visited(es, i));
    } else {
      DropStep(ms, i);
      EntryCreates(j, i, doc);
      CreateKeepsMatch(doc, j, [], Visited(es, i), es[i]);
      LeftUnit(es[i]);
      VisitedStep(es, i);
      Rebuild(j, UnflattenOne(doc, ms[i]).value, i + 1);
    }
  }

  lemma RestorableIsRestored(j: Json)
    requires Restorable(j)
    ensures Unflattened(Flattened(j)) == Ok(Nullify(j))
  {
    var es: seq<seq<Bytes>>, ms: seq<Member<Json>> := Entries(j), FlattenedMembers(j);
    assert Visited(es, 0) == {};
    forall k | 0 <= k < |es|
      ensures LeafAt(j, es[k]).Some? && Admissible(j, [], Visited(es, k), es[k])
    {
      EntryCreates(j, k, Null);
      TurnOf(j, k);
      OrderIsAdmissible(j, [], Visited(es, k), es[k]);
    }
    Rebuild(j, Null, 0);
    assert ms[0..] == ms;
  }

  // ---------- values that are not restored ----------

  /** What rebuilding should give: the value with its empty containers replaced by null, up to `operator==`. */
  predicate Restores(r: Result<Json>, j: Json)
  {
    r.Ok? && Eq(r.value, Nullify(j))
  }

  /** On the way along `path`, `doc` has the containers of `j`, and at its end an array for an object. */
  ghost predicate Broken(doc: Json, j: Json, path: seq<Bytes>)
    decreases |path|
  {
    if path == [] then j.Obj? && !LeafLike(j) && doc.Arr?
    else if j.Arr? then
      var p := IndexPosition(path[0], |j.elems|);
      doc.Arr? && p.Some? && p.value < |doc.elems| && Broken(doc.elems[p.value], j.elems[p.value], path[1..])
    else
      && j.Obj? && doc.Obj? && HasKey(j.members, path[0]) && HasKey(doc.members, path[0])
      && Broken(Find(doc.members, path[0]).value, Find(j.members, path[0]).value, path[1..])
  }

  lemma {:induction false} BrokenIsWrong(doc: Json, j: Json, path: seq<Bytes>)
    requires Broken(doc, j, path)
    ensures !Eq(doc, Nullify(j))
    decreases |path|
  {
    if path != [] {
      if j.Arr? {
        var p := IndexPosition(path[0], |j.elems|).value;
        BrokenIsWrong(doc.elems[p], j.elems[p], path[1..]);
      } else {
        var key, ns := path[0], Nullify(j).members;
        var p := LowerBound(j.members, key);
        BrokenIsWrong(Find(doc.members, key).value, Find(j.members, key).value, path[1..]);
        assert ns[p] == Member(key, Nullify(j.members[p].value));
        if p < |doc.members| && doc.members[p].key == key {
          FindIn(doc.members, key, p);
        }
      }
    }
  }

  /** Creating another entry does not mend it. */
  lemma {:induction false} BrokenStays(doc: Json, j: Json, path: seq<Bytes>, q: seq<Bytes>, v: Json)
    requires Broken(doc, j, path) && LeafAt(j, q).Some?
    ensures CreateAt(doc, q, v).Ok? ==> Broken(CreateAt(doc, q, v).value, j, path)
    decreases |path|
  {
    var p := LeafThroughChild(j, q);
    if CreateAt(doc, q, v).Ok? && path != [] {
      if j.Arr? {
        BrokenArrayStays(doc, j, path, q, v, p);
      } else {
        BrokenObjectStays(doc, j, path, q, v, p);
      }
    }
  }

  lemma {:induction false} BrokenArrayStays(doc: Json, j: Json, path: seq<Bytes>, q: seq<Bytes>, v: Json, p: nat)
    requires Broken(doc, j, path) && path != [] && j.Arr?
    requires q != [] && p < |j.elems| && q[0] == ToDecimal(p) && LeafAt(j.elems[p], q[1..]).Some?
    requires CreateAt(doc, q, v).Ok?
    ensures Broken(CreateAt(doc, q, v).value, j, path)
    decreases |path|, 0
  {
    hide LeafAt, ToDecimal, Stoi;
    var k := IndexPosition(path[0], |j.elems|).value;
    StoiOfDecimal(p);
    var es := doc.elems;
    var xs := if p < |es| then es else es + Nulls(p - |es| + 1);
    assert StepCreate(doc, q[0]) == Ok((Arr(xs), p));
    assert xs[k] == es[k];
    var c := CreateAt(xs[p], q[1..], v).value;
    assert CreateAt(doc, q, v) == Ok(Arr(xs[p := c]));
    assert xs[p := c][k] == if k == p then c else es[k];
    if k == p {
      BrokenStays(es[k], j.elems[k], path[1..], q[1..], v);
    }
    BrokenElem(xs[p := c], j.elems, k, path);
  }

  lemma BrokenElem(xs: seq<Json>, es: seq<Json>, k: nat, path: seq<Bytes>)
    requires path != [] && IndexPosition(path[0], |es|) == Some(k) && k < |xs|
    requires Broken(xs[k], es[k], path[1..])
    ensures Broken(Arr(xs), Arr(es), path)
  {}

  lemma {:induction false} BrokenObjectStays(doc: Json, j: Json, path: seq<Bytes>, q: seq<Bytes>, v: Json, p: nat)
    requires Broken(doc, j, path) && path != [] && j.Obj?
    requires q != [] && p < |j.members| && q[0] == j.members[p].key && LeafAt(j.members[p].value, q[1..]).Some?
    requires CreateAt(doc, q, v).Ok?
    ensures Broken(CreateAt(doc, q, v).value, j, path)
    decreases |path|, 0
  {
    var key, x := path[0], q[0];
    var slot := StepCreate(doc, x).value;
    var c := CreateAt(Child(slot.0, slot.1), q[1..], v).value;
    var ms := CreateObjectSlot(doc, x, c);
    assert Find(ms, key) == if key == x then Some(c) else Find(doc.members, key);
    LowerBoundAt(j.members, p);
    if key == x {
      BrokenStays(Find(doc.members, key).value, Find(j.members, key).value, path[1..], q[1..], v);
    }
  }

  /** An entry that is not admissible throws or breaks the value. */
  lemma {:induction false} InadmissibleBreaks(
    doc: Json, j: Json, pre: seq<Bytes>, visited: set<seq<Bytes>>, rest: seq<Bytes>, v: Json)
    returns (path: seq<Bytes>)
    requires Matches(doc, j, pre, visited) && SmallerVisited(j, pre, visited, rest)
    requires LeafAt(j, rest).Some? && !Admissible(j, pre, visited, rest)
    ensures CreateAt(doc, rest, v).Ok? ==> Broken(CreateAt(doc, rest, v).value, j, path)
    decreases |rest|
  {
    var p := LeafThroughChild(j, rest);
    PositionOfToken(j, p);
    path := [];
    SmallerBelow(j, pre, visited, rest, p);
    HeadTail(rest);
    if j.Arr? {
      if p > 0 {
        var r := SomeLeaf(j.elems[0]);
        ChildLeaf(j, 0, r);
        ZeroIndexFirst(p, r, rest[1..]);
        SmallerStarts(j, pre, visited, rest, [ToDecimal(0)] + r);
      }
      path := InadmissibleInArray(doc, j, pre, visited, rest, v, p);
    } else if Started(pre, visited) || rest[0] != INDEX0 {
      path := InadmissibleInObject(doc, j, pre, visited, rest, v, p);
    }
  }

  lemma {:induction false} InadmissibleInArray(
    doc: Json, j: Json, pre: seq<Bytes>, visited: set<seq<Bytes>>, rest: seq<Bytes>, v: Json, p: nat)
    returns (path: seq<Bytes>)
    requires j.Arr? && rest != [] && p < |j.elems| && rest[0] == ToDecimal(p) && (Started(pre, visited) || p == 0)
    requires Matches(doc, j, pre, visited)
    requires LeafAt(j.elems[p], rest[1..]).Some?
    requires SmallerVisited(j.elems[p], pre + [rest[0]], visited, rest[1..])
    requires p <= INT32_MAX ==> !Admissible(j.elems[p], pre + [rest[0]], visited, rest[1..])
    ensures CreateAt(doc, rest, v).Ok? ==> Broken(CreateAt(doc, rest, v).value, j, path)
    decreases |rest|, 0
  {
    hide Extent, LeafAt, Admissible, Matches, ToDecimal, SmallerVisited, Broken, CreateAt, IndexPosition, Stoi,
      StepCreate, Started;
    path := [];
    if p <= INT32_MAX {
      ArrayBefore(doc, j, pre, visited);
      var es := if Started(pre, visited) then doc.elems else [];
      var xs := if p < |es| then es else es + Nulls(p - |es| + 1);
      CreateArraySlot(doc, p, Started(pre, visited));
      SlotMatches(xs, |es|, j.elems, p, pre, visited);
      var below := InadmissibleBreaks(xs[p], j.elems[p], pre + [rest[0]], visited, rest[1..], v);
      path := [rest[0]] + below;
      BreakThroughElem(doc, j, xs, p, rest, v, below);
    } else {
      LargeIndexThrows(doc, j, pre, visited, p, rest, v);
    }
  }

  lemma LargeIndexThrows(
    doc: Json, j: Json, pre: seq<Bytes>, visited: set<seq<Bytes>>, p: nat, rest: seq<Bytes>, v: Json)
    requires Matches(doc, j, pre, visited) && j.Arr? && !LeafLike(j) && Started(pre, visited)
    requires p > INT32_MAX && rest != [] && rest[0] == ToDecimal(p)
    ensures CreateAt(doc, rest, v).Err?
  {
    hide Stoi, ToDecimal;
    ArrayBefore(doc, j, pre, visited);
    StoiOfDecimal(p);
  }

  lemma BreakThroughElem(doc: Json, j: Json, xs: seq<Json>, p: nat, rest: seq<Bytes>, v: Json, below: seq<Bytes>)
    requires j.Arr? && p < |j.elems| && p < |xs| && rest != [] && rest[0] == ToDecimal(p)
    requires StepCreate(doc, rest[0]) == Ok((Arr(xs), p))
    requires var r := CreateAt(xs[p], rest[1..], v); r.Ok? ==> Broken(r.value, j.elems[p], below)
    ensures CreateAt(doc, rest, v).Ok? ==> Broken(CreateAt(doc, rest, v).value, j, [rest[0]] + below)
  {
    hide StepCreate, ToDecimal;
    PositionOfToken(j, p);
    ConsTail(rest[0], below);
    var r := CreateAt(xs[p], rest[1..], v);
    if r.Ok? {
      BrokenElem(xs[p := r.value], j.elems, p, [rest[0]] + below);
    }
  }

  lemma {:induction false} InadmissibleInObject(
    doc: Json, j: Json, pre: seq<Bytes>, visited: set<seq<Bytes>>, rest: seq<Bytes>, v: Json, p: nat)
    returns (path: seq<Bytes>)
    requires j.Obj? && rest != [] && p < |j.members| && rest[0] == j.members[p].key
    requires Started(pre, visited) || rest[0] != INDEX0
    requires Matches(doc, j, pre, visited)
    requires LeafAt(j.members[p].value, rest[1..]).Some?
    requires SmallerVisited(j.members[p].value, pre + [rest[0]], visited, rest[1..])
    requires !Admissible(j.members[p].value, pre + [rest[0]], visited, rest[1..])
    ensures CreateAt(doc, rest, v).Ok? ==> Broken(CreateAt(doc, rest, v).value, j, path)
    decreases |rest|, 0
  {
    hide LeafAt, Admissible, SmallerVisited, Stoi, IndexPosition, ToDecimal, Extent;
    var key := rest[0];
    NotStartedBelow(0, pre, visited);
    LowerBoundAt(j.members, p);
    var olds: Members<Json> := if doc.Obj? then doc.members else [];
    var known := if HasKey(olds, key) then Find(olds, key).value else Null;
    var below := InadmissibleBreaks(known, j.members[p].value, pre + [key], visited, rest[1..], v);
    path := [key] + below;
    ConsTail(key, below);
    if CreateAt(doc, rest, v).Ok? {
      var c := CreateAt(known, rest[1..], v).value;
      var ms := CreateObjectSlot(doc, key, c);
      assert Find(ms, key) == Some(c);
    }
  }

  lemma {:induction false} BrokenToTheEnd(j: Json, doc: Json, i: nat, path: seq<Bytes>)
    requires i <= |Entries(j)| && Broken(doc, j, path)
    ensures !Restores(UnflattenAll(doc, FlattenedMembers(j)[i..]), j)
    decreases |Entries(j)| - i
  {
    var es: seq<seq<Bytes>>, ms: seq<Member<Json>> := Entries(j), FlattenedMembers(j);
    if i == |es| {
      BrokenIsWrong(doc, j, path);
    } else {
      DropStep(ms, i);
      EntryCreates(j, i, doc);
      BrokenStays(doc, j, path, es[i], LeafAt(j, es[i]).value);
      if UnflattenOne(doc, ms[i]).Ok? {
        BrokenToTheEnd(j, UnflattenOne(doc, ms[i]).value, i + 1, path);
      }
    }
  }

  ghost predicate AdmissibleAt(j: Json, k: nat)
    requires k < |Entries(j)|
  {
    LeafAt(j, Entries(j)[k]).Some? && Admissible(j, [], Visited(Entries(j), k), Entries(j)[k])
  }

  /** One entry that is not admissible, and the original value is not rebuilt. */
  lemma {:induction false} InadmissibleEntryFails(j: Json, doc: Json, i: nat, bad: nat)
    requires i <= bad < |Entries(j)| && Matches(doc, j, [], Visited(Entries(j), i))
    requires !AdmissibleAt(j, bad)
    ensures !Restores(UnflattenAll(doc, FlattenedMembers(j)[i..]), j)
    decreases bad - i
  {
    hide FlattenedMembers, Visited, Matches, LeafAt, Admissible, CreateAt, Broken, UnflattenOne, SmallerVisited;
    var es: seq<seq<Bytes>>, ms: seq<Member<Json>> := Entries(j), FlattenedMembers(j);
    DropStep(ms, i);
    EntryCreates(j, i, doc);
    TurnOf(j, i);
    LeftUnit(es[i]);
    if AdmissibleAt(j, i) {
      CreateKeepsMatch(doc, j, [], Visited(es, i), es[i]);
      VisitedStep(es, i);
      InadmissibleEntryFails(j, UnflattenOne(doc, ms[i]).value, i + 1, bad);
    } else {
      var path := InadmissibleBreaks(doc, j, [], Visited(es, i), es[i], LeafAt(j, es[i]).value);
      if UnflattenOne(doc, ms[i]).Ok? {
        BrokenToTheEnd(j, UnflattenOne(doc, ms[i]).value, i + 1, path);
      }
    }
  }

  /** The entries of `root` below `pre` are those of `j`. */
  ghost predicate EntriesBelow(root: Json, j: Json, pre: seq<Bytes>)
  {
    && (forall r: seq<Bytes> :: LeafAt(j, r).Some? ==> pre + r in Entries(root))
    && (forall k | 0 <= k < |Entries(root)| && pre <= Entries(root)[k] ::
          LeafAt(j, Entries(root)[k][|pre|..]).Some?)
  }

  /** Going on from `pre`, entry `k` is admissible. */
  ghost predicate AdmissibleFrom(root: Json, j: Json, pre: seq<Bytes>, k: nat)
    requires k < |Entries(root)|
  {
    pre <= Entries(root)[k] && LeafAt(j, Entries(root)[k][|pre|..]).Some? ==>
      Admissible(j, pre, Visited(Entries(root), k), Entries(root)[k][|pre|..])
  }

  lemma EntriesBelowChild(root: Json, j: Json, pre: seq<Bytes>, p: nat)
    requires EntriesBelow(root, j, pre) && HasChild(j, p)
    ensures EntriesBelow(root, Child(j, p), pre + [ChildToken(j, p)])
  {
    var token, es := ChildToken(j, p), Entries(root);
    PositionOfToken(j, p);
    forall r: seq<Bytes> | LeafAt(Child(j, p), r).Some?
      ensures pre + [token] + r in es
    {
      ChildLeaf(j, p, r);
      Assoc(pre, [token], r);
    }
    forall k | 0 <= k < |es| && pre + [token] <= es[k]
      ensures LeafAt(Child(j, p), es[k][|pre + [token]|..]).Some?
    {
      PrefixOrNot(pre, token, es[k]);
      DropStep(es[k], |pre|);
    }
  }

  lemma AdmissibleFromChild(root: Json, j: Json, pre: seq<Bytes>, p: nat, k: nat)
    requires k < |Entries(root)| && AdmissibleFrom(root, j, pre, k) && HasChild(j, p)
    ensures AdmissibleFrom(root, Child(j, p), pre + [ChildToken(j, p)], k)
  {
    var token, q := ChildToken(j, p), Entries(root)[k];
    PrefixOrNot(pre, token, q);
    PositionOfToken(j, p);
    if pre + [token] <= q {
      DropStep(q, |pre|);
    }
  }

  /** If every entry is admissible, the value is restorable. */
  lemma {:induction false} AdmissibleIsRestorable(root: Json, j: Json, pre: seq<Bytes>)
    requires EntriesBelow(root, j, pre)
    requires forall k | 0 <= k < |Entries(root)| :: AdmissibleFrom(root, j, pre, k)
    ensures Restorable(j)
    decreases j
  {
    forall p | HasChild(j, p)
      ensures Restorable(Child(j, p))
    {
      EntriesBelowChild(root, j, pre, p);
      forall k | 0 <= k < |Entries(root)|
        ensures AdmissibleFrom(root, Child(j, p), pre + [ChildToken(j, p)], k)
      {
        AdmissibleFromChild(root, j, pre, p, k);
      }
      AdmissibleIsRestorable(root, Child(j, p), pre + [ChildToken(j, p)]);
    }
    match j
    case Arr(es) =>
      assert forall i :: 0 <= i < |es| ==> HasChild(j, i) && Child(j, i) == es[i];
      if es != [] {
        LastIndexFits(root, j, pre);
      }
    case Obj(ms) =>
      assert forall i :: 0 <= i < |ms| ==> HasChild(j, i) && Child(j, i) == ms[i].value;
      if ZeroComesFirst(ms) {
        var bad := ZeroFirstNotAdmissible(root, j, pre);
      }
    case _ =>
  }

  lemma LastIndexFits(root: Json, j: Json, pre: seq<Bytes>)
    requires j.Arr? && j.elems != [] && EntriesBelow(root, j, pre)
    requires forall k | 0 <= k < |Entries(root)| :: AdmissibleFrom(root, j, pre, k)
    ensures |j.elems| <= INT32_MAX + 1
  {
    var p := |j.elems| - 1;
    var r := SomeLeaf(j.elems[p]);
    var rest := [ToDecimal(p)] + r;
    ChildLeaf(j, p, r);
    PositionOfToken(j, p);
    var k :| 0 <= k < |Entries(root)| && Entries(root)[k] == pre + rest;
    assert AdmissibleFrom(root, j, pre, k);
    PartsOfConcat(pre, rest);
  }

  /** The first entry below an object that visits "0" first is "0" or below it, so it is not admissible. */
  lemma ZeroFirstNotAdmissible(root: Json, j: Json, pre: seq<Bytes>) returns (first: nat)
    requires j.Obj? && ZeroComesFirst(j.members) && EntriesBelow(root, j, pre)
    ensures first < |Entries(root)| && !AdmissibleFrom(root, j, pre, first)
  {
    var es, z := Entries(root), LowerBound(j.members, INDEX0);
    var r := SomeLeaf(j.members[z].value);
    ChildLeaf(j, z, r);
    var k :| 0 <= k < |es| && es[k] == pre + ([INDEX0] + r);
    first := FirstBelow(es, pre, k);
    var rest := es[first][|pre|..];
    var p := LeafThroughChild(j, rest);
    Parts(es[first], |pre|);
    FirstIsZero(root, j, pre, r, k, rest, p, first);
  }

  lemma FirstIsZero(root: Json, j: Json, pre: seq<Bytes>, r: seq<Bytes>, k: nat, rest: seq<Bytes>, p: nat, first: nat)
    requires j.Obj? && ZeroComesFirst(j.members) && LeafAt(j.members[LowerBound(j.members, INDEX0)].value, r).Some?
    requires first <= k < |Entries(root)| && Entries(root)[k] == pre + ([INDEX0] + r)
    requires rest != [] && Entries(root)[first] == pre + rest
    requires p < |j.members| && rest[0] == j.members[p].key && LeafAt(j.members[p].value, rest[1..]).Some?
    ensures rest[0] == INDEX0
  {
    var z := LowerBound(j.members, INDEX0);
    if rest[0] != INDEX0 {
      HeadsDecide(j.members[z], r, j.members[p], rest[1..]);
      HeadTail(rest);
      OrderBelow(pre, [INDEX0] + r, rest);
      EntriesInOrder(root);
      LessAsymmetric(ToString(pre + ([INDEX0] + r)), ToString(pre + rest));
    }
  }

  lemma {:induction false} FirstBelow(es: seq<seq<Bytes>>, pre: seq<Bytes>, k: nat) returns (first: nat)
    requires k < |es| && pre <= es[k]
    ensures first <= k && pre <= es[first] && !Started(pre, Visited(es, first))
    decreases k
  {
    if Started(pre, Visited(es, k)) {
      var q :| q in Visited(es, k) && pre <= q;
      var i :| 0 <= i < k && es[i] == q;
      first := FirstBelow(es, pre, i);
    } else {
      first := k;
    }
  }

  /**
   `unflatten(flatten(j))` is `j` with its empty arrays and objects replaced by null exactly when no object
   visits its key "0" first and no array has more than 2^31 elements.
   */
  lemma {:induction false} UnflattenOfFlatten(j: Json)
    ensures Restores(Unflattened(Flattened(j)), j) <==> Restorable(j)
    ensures Restorable(j) ==> Unflattened(Flattened(j)) == Ok(Nullify(j))
  {
    if Restorable(j) {
      RestorableIsRestored(j);
      EqReflexive(Nullify(j));
    } else {
      var bad := SomeInadmissible(j);
      var ms: seq<Member<Json>> := FlattenedMembers(j);
      assert Visited(Entries(j), 0) == {};
      assert ms[0..] == ms;
      InadmissibleEntryFails(j, Null, 0, bad);
    }
  }

  lemma SomeInadmissible(j: Json) returns (bad: nat)
    requires !Restorable(j)
    ensures bad < |Entries(j)| && !AdmissibleAt(j, bad)
  {
    var es := Entries(j);
    if forall k | 0 <= k < |es| :: AdmissibleFrom(j, j, [], k) {
      EntriesInOrder(j);
      forall r: seq<Bytes> | LeafAt(j, r).Some?
        ensures [] + r in es
      {
        LeftUnit(r);
      }
      forall k | 0 <= k < |es|
        ensures es[k][0..] == es[k]
      {}
      AdmissibleIsRestorable(j, j, []);
    }
    bad :| 0 <= bad < |es| && !AdmissibleFrom(j, j, [], bad);
    assert es[bad][0..] == es[bad];
  }

  /** Values without the key "0" whose arrays have at most 2^31 elements. */
  predicate NoZeroKey(j: Json)
  {
    match j
    case Arr(es) => |es| <= INT32_MAX + 1 && forall i | 0 <= i < |es| :: NoZeroKey(es[i])
    case Obj(ms) => !HasKey(ms, INDEX0) && forall i | 0 <= i < |ms| :: NoZeroKey(ms[i].value)
    case _ => true
  }

  lemma {:induction false} NoZeroKeyIsRestorable(j: Json)
    requires NoZeroKey(j)
    ensures Restorable(j)
  {
    match j
    case Arr(es) =>
      forall i | 0 <= i < |es|
        ensures Restorable(es[i])
      {
        NoZeroKeyIsRestorable(es[i]);
      }
    case Obj(ms) =>
      forall i | 0 <= i < |ms|
        ensures Restorable(ms[i].value)
      {
        NoZeroKeyIsRestorable(ms[i].value);
      }
    case _ =>
  }

  // ---------- a value that is not restored ----------

  const ZERO_KEY: Json := Obj([Member(INDEX0, Null)])

  /** {"0": null} comes back as [null]. */
  lemma ZeroKeyBecomesArray()
    ensures !Restorable(ZERO_KEY) && Unflattened(Flattened(ZERO_KEY)) == Ok(Arr([Null]))
    ensures Nullify(ZERO_KEY) == ZERO_KEY && !Eq(Arr([Null]), ZERO_KEY)
  {
    var path := ChildPath([], ZERO_KEY, 0);
    FlattensToOne(path);
    OneEntryRebuilt(path);
    var ms: seq<Member<Json>> := [Member(path, Null)];
    assert ms[1..] == [];
    assert UnflattenAll(Arr([Null]), ms[1..]) == Ok(Arr([Null]));
    assert UnflattenAll(Null, ms) == Ok(Arr([Null]));
    LowerBoundAt(ZERO_KEY.members, 0);
    assert ZeroComesFirst(ZERO_KEY.members);
    assert Nullify(ZERO_KEY).members == ZERO_KEY.members;
  }

  lemma FlattensToOne(path: Bytes)
    requires path == ChildPath([], ZERO_KEY, 0)
    ensures FlattenedMembers(ZERO_KEY) == [Member(path, Null)]
  {
    var none: Members<Json> := [];
    InsertLast(none, path, Null);
    LeftUnit([Member(path, Null)]);
    var one := FlattenInto(path, Null, none);
    assert one == [Member(path, Null)];
    assert FlattenChildren([], ZERO_KEY, 1, one) == one;
    assert FlattenChildren([], ZERO_KEY, 0, none) == FlattenChildren([], ZERO_KEY, 1, one);
  }

  lemma OneEntryRebuilt(path: Bytes)
    requires path == ChildPath([], ZERO_KEY, 0)
    ensures UnflattenOne(Null, Member(path, Null)) == Ok(Arr([Null]))
  {
    hide Split, ChildPath, ToString;
    var none: seq<Bytes>, tokens: seq<Bytes> := [], [INDEX0];
    EmptyPointerText();
    ChildPathText(none, ZERO_KEY, 0);
    LeftUnit(tokens);
    SplitOfToString(tokens);
    ZeroIntoNull(tokens);
  }

  lemma EmptyPointerText()
    ensures ToString([]) == []
  {}

  lemma ZeroIntoNull(tokens: seq<Bytes>)
    requires tokens == [INDEX0]
    ensures CreateAt(Null, tokens, Null) == Ok(Arr([Null]))
  {
    var es: seq<Json> := [];
    assert tokens[1..] == [] && (es + Nulls(1))[0 := Null] == [Null];
  }
}

/**
 RFC 6902, sections 4.1 and 4.2, want "add" to find the parent of its target and "remove" to find the target. When they
 succeed, compared with `at` of that parent and that target.
 */
module PatchTargets {
  import opened ByteStrings
  import opened Wrappers
  import opened Sequences
  import opened JsonValues
  import opened Decimals
  import opened Access
  import opened Patch
  import opened CopyLaws
  import opened PatchErrors

  // ---------- "add" and the parent of its target ----------

  /** A parent takes a new value under a token: objects and null always do. */
  predicate Takes(parent: Json, last: Bytes)
  {
    match parent
    case Null => true
    case Obj(_) => true
    case Arr(es) => last == [MINUS] || (Stoi(last).Ok? && 0 <= Stoi(last).value <= |es|)
    case _ => false
  }

  lemma AddChildExactly(parent: Json, last: Bytes, v: Json)
    ensures AddChild(parent, last, v).Ok? <==> Takes(parent, last)
  {
    hide Stoi;
  }

  /** With a parent that exists, "add" succeeds exactly when it takes the value, and otherwise throws what it throws. */
  lemma AddToParent(doc: Json, tokens: seq<Bytes>, v: Json)
    requires tokens != [] && At(doc, Init(tokens)).Ok?
    ensures var parent := At(doc, Init(tokens)).value;
      && (AddAt(doc, tokens, v).Ok? <==> Takes(parent, Last(tokens)))
      && (AddAt(doc, tokens, v).Err? ==> AddAt(doc, tokens, v) == AddChild(parent, Last(tokens), v))
  {
    hide At, Reach, AddAt, AddChild, InsideUnchecked;
    var init, last := Init(tokens), Last(tokens);
    if |tokens| > 1 {
      TopIsNeeded(doc, tokens, |tokens| - 1);
    }
    AddInParts(doc, tokens, v);
    ReachFollowsAt(doc, init);
    AddChildExactly(ParentOf(doc, init), last, v);
    InsideErrors(doc, init, AddChild(ParentOf(doc, init), last, v));
  }

  /** Unchecked access can create what is missing below a value that has no child for the first of these tokens. */
  predicate CanCreate(j: Json, rest: seq<Bytes>)
    requires rest != []
  {
    match j
    case Null => CreationError(rest) == None
    case Obj(_) => CreationError(rest[1..]) == None
    case Arr(_) =>
      && (rest[0] == [MINUS] || (!LeadingZero(rest[0]) && Stoi(rest[0]).Ok? && Stoi(rest[0]).value >= 0))
      && CreationError(rest[1..]) == None
    case _ => false
  }

  lemma ReachCreates(j: Json, rest: seq<Bytes>)
    requires rest != [] && Locate(j, rest[0]).Err?
    ensures Reach(j, rest).Ok? <==> CanCreate(j, rest)
  {
    hide Stoi;
    ReachFromNull(rest);
    ReachFromNull(rest[1..]);
    match j
    case Obj(ms) => FreshSlot(ms, rest[0]);
    case Arr(es) => ArrayFailure(es, rest[0]);
    case _ =>
  }

  /**
   With a parent that does not exist, because the pointer to it stops at token k: "add" succeeds all the same exactly
   when it is not the first token and what is missing can be created; it throws what `at` of the parent throws exactly
   when it is the first token, or creating fails in the same way.
   */
  lemma AddWithoutParent(doc: Json, tokens: seq<Bytes>, k: nat, v: Json)
    requires tokens != [] && StopsAt(doc, Init(tokens), k)
    ensures var j, missing := At(doc, Init(tokens)[..k]).value, Init(tokens)[k..];
      && At(doc, Init(tokens)).Err?
      && (AddAt(doc, tokens, v).Ok? <==> k > 0 && CanCreate(j, missing))
      && (AddAt(doc, tokens, v) == At(doc, Init(tokens)) <==> k == 0 || SameFailure(j, missing))
  {
    hide At, Reach, AddAt, AddChild, InsideUnchecked, CanCreate, SameFailure, Locate;
    var init := Init(tokens);
    StopIsError(doc, init, k);
    AddInParts(doc, tokens, v);
    if k == 0 {
      TopFails(doc, tokens);
    } else {
      TopIsNeeded(doc, init, k);
      var j := At(doc, init[..k]).value;
      ReachBelow(doc, init, k);
      DropStep(init, k);
      ReachCreates(j, init[k..]);
      ReachFailsAlike(j, init[k..]);
      if Reach(doc, init).Ok? {
        MissingParentIsNull(doc, init);
      }
      AddChildExactly(ParentOf(doc, init), Last(tokens), v);
      InsideErrors(doc, init, AddChild(ParentOf(doc, init), Last(tokens), v));
    }
  }

  lemma TopFails(doc: Json, tokens: seq<Bytes>)
    requires |tokens| > 1 && StopsAt(doc, Init(tokens), 0)
    ensures At(doc, [tokens[0]]) == Err(Locate(doc, tokens[0]).error) == At(doc, Init(tokens))
  {
    hide Locate, Child;
    assert Init(tokens)[..0] == [];
    assert Init(tokens)[0] == tokens[0];
  }

  /** The parent of the target does not exist, and "add" creates it: not at the first token, and not with an error. */
  predicate CreatesParent(doc: Json, tokens: seq<Bytes>)
    requires tokens != []
  {
    exists k | 0 < k < |tokens| - 1 ::
      StopsAt(doc, Init(tokens), k) && CanCreate(At(doc, Init(tokens)[..k]).value, Init(tokens)[k..])
  }

  /**
   For every document, pointer and value: "add" succeeds exactly for the whole document, for a parent that exists and
   takes the value, and for a parent that it can create.
   */
  lemma AddSucceedsExactly(doc: Json, tokens: seq<Bytes>, v: Json)
    ensures AddAt(doc, tokens, v).Ok? <==>
      || tokens == []
      || (At(doc, Init(tokens)).Ok? && Takes(At(doc, Init(tokens)).value, Last(tokens)))
      || (At(doc, Init(tokens)).Err? && CreatesParent(doc, tokens))
  {
    if tokens != [] {
      hide At, AddAt, Takes, CanCreate, StopsAt;
      if At(doc, Init(tokens)).Ok? {
        AddToParent(doc, tokens, v);
      } else {
        var k := FirstMissing(doc, Init(tokens));
        ParentCreated(doc, tokens, k);
        AddWithoutParent(doc, tokens, k, v);
      }
    }
  }

  lemma ParentCreated(doc: Json, tokens: seq<Bytes>, k: nat)
    requires tokens != [] && StopsAt(doc, Init(tokens), k)
    ensures k < |tokens| - 1
    ensures CreatesParent(doc, tokens) <==> k > 0 && CanCreate(At(doc, Init(tokens)[..k]).value, Init(tokens)[k..])
  {
    hide At, CanCreate, Locate;
    forall n: nat | StopsAt(doc, Init(tokens), n)
      ensures n == k
    {
      StopsOnce(doc, Init(tokens), n, k);
    }
  }

  // ---------- "remove" and its target ----------

  /** A parent lets go of a token; null and primitive values do so without having it. */
  predicate LetsGo(parent: Json, last: Bytes)
  {
    match parent
    case Obj(ms) => HasKey(ms, last)
    case Arr(es) => Stoi(last).Ok? && 0 <= Stoi(last).value < |es|
    case _ => true
  }

  /** "remove" without the parent of its target throws what `at` of the parent throws. */
  lemma {:induction false} RemoveNeedsParent(doc: Json, tokens: seq<Bytes>)
    requires tokens != [] && At(doc, Init(tokens)).Err?
    ensures RemoveAt(doc, tokens) == At(doc, Init(tokens)) == At(doc, tokens)
    decreases |tokens|
  {
    hide Locate, Child, RemoveChild;
    var init := Init(tokens);
    assert init[0] == tokens[0];
    if Locate(doc, tokens[0]).Ok? {
      assert Init(tokens[1..]) == init[1..];
      RemoveNeedsParent(Child(doc, Locate(doc, tokens[0]).value), tokens[1..]);
    }
  }

  /** For every document and pointer: "remove" succeeds exactly with a parent that exists and lets go. */
  lemma RemoveSucceedsExactly(doc: Json, tokens: seq<Bytes>)
    ensures RemoveAt(doc, tokens).Ok? <==>
      tokens != [] && At(doc, Init(tokens)).Ok? && LetsGo(At(doc, Init(tokens)).value, Last(tokens))
  {
    if tokens != [] {
      hide At, RemoveAt, ReplaceAt, Stoi;
      if At(doc, Init(tokens)).Ok? {
        RemoveInParent(doc, tokens);
      } else {
        RemoveNeedsParent(doc, tokens);
      }
    }
  }

  lemma RemoveInParent(doc: Json, tokens: seq<Bytes>)
    requires tokens != [] && At(doc, Init(tokens)).Ok?
    ensures var change := RemoveChild(At(doc, Init(tokens)).value, Last(tokens));
      && (RemoveAt(doc, tokens).Ok? <==> change.Ok?)
      && (change.Err? ==> RemoveAt(doc, tokens) == change)
      && RemoveAt(doc, tokens) == Inside(doc, Init(tokens), change)
  {
    hide At, RemoveAt, ReplaceAt, RemoveChild;
    var init, last := Init(tokens), Last(tokens);
    assert tokens == init + [last];
    RemoveIsLocal(doc, init, last);
    var change := RemoveChild(At(doc, init).value, last);
    if change.Ok? {
      ReplaceWhereFound(doc, init, change.value);
    }
  }

  /** What makes "remove" and `at` of its target differ, in the parent of the target. */
  predicate RemovesLikeAt(parent: Json, last: Bytes)
  {
    match parent
    case Obj(_) => true
    case Arr(_) => last != [MINUS] && !LeadingZero(last)
    case _ => false
  }

  lemma TargetInParent(doc: Json, tokens: seq<Bytes>)
    requires tokens != [] && At(doc, Init(tokens)).Ok?
    ensures At(doc, tokens).Ok? <==> Locate(At(doc, Init(tokens)).value, Last(tokens)).Ok?
    ensures At(doc, tokens).Err? ==> At(doc, tokens) == Err(Locate(At(doc, Init(tokens)).value, Last(tokens)).error)
  {
    hide Locate, Child;
    var init, last := Init(tokens), Last(tokens);
    var parent := At(doc, init).value;
    assert tokens == init + [last];
    AtLonger(doc, init, last);
    var top := [last];
    assert top[1..] == [];
    if Locate(parent, last).Ok? {
      assert At(Child(parent, Locate(parent, last).value), []).Ok?;
    }
  }

  /**
   For every document and pointer. With a target that exists, "remove" succeeds exactly when it is not the whole
   document. Without one, it throws what `at` throws exactly when the parent does not exist either, is an object, or is
   an array and the token neither "-" nor led by a zero; and it succeeds exactly when the parent is null or primitive,
   or an array with an element at the index that the token has behind leading zeros.
   */
  lemma RemoveAgainstAt(doc: Json, tokens: seq<Bytes>)
    ensures At(doc, tokens).Ok? ==> (RemoveAt(doc, tokens).Ok? <==> tokens != [])
    ensures At(doc, tokens).Err? ==>
      && tokens != []
      && var parent, last := At(doc, Init(tokens)), Last(tokens);
        && (RemoveAt(doc, tokens) == At(doc, tokens) <==> parent.Err? || RemovesLikeAt(parent.value, last))
        && (RemoveAt(doc, tokens).Ok? <==>
          && parent.Ok?
          && (IsLeaf(parent.value) || (parent.value.Arr? && LeadingZero(last) && LetsGo(parent.value, last))))
  {
    if tokens != [] {
      hide At, RemoveAt, ReplaceAt, Stoi, RemoveChild, Locate;
      if At(doc, Init(tokens)).Ok? {
        RemoveInParent(doc, tokens);
        TargetInParent(doc, tokens);
        RemoveChildAgainstLocate(At(doc, Init(tokens)).value, Last(tokens));
      } else {
        RemoveNeedsParent(doc, tokens);
      }
    }
  }

  predicate IsLeaf(j: Json)
  {
    !j.Arr? && !j.Obj?
  }

  lemma RemoveChildAgainstLocate(parent: Json, last: Bytes)
    ensures Locate(parent, last).Ok? ==> RemoveChild(parent, last).Ok?
    ensures Locate(parent, last).Err? ==>
      var r := RemoveChild(parent, last);
      && (r.Err? && r.error == Locate(parent, last).error <==> RemovesLikeAt(parent, last))
      && (r.Ok? <==> IsLeaf(parent) || (parent.Arr? && LeadingZero(last) && LetsGo(parent, last)))
  {
    hide Stoi;
    StoiThrows(last);
    NoDigitsBehindMinus();
  }

  /** Below null or a primitive value, "remove" succeeds and changes nothing. */
  lemma RemoveBelowLeaf(doc: Json, tokens: seq<Bytes>)
    requires tokens != [] && At(doc, Init(tokens)).Ok? && IsLeaf(At(doc, Init(tokens)).value)
    ensures RemoveAt(doc, tokens) == Ok(doc) && At(doc, tokens) == Err(OutOfRange)
  {
    hide At, RemoveAt, ReplaceAt;
    RemoveInParent(doc, tokens);
    TargetInParent(doc, tokens);
    ReplaceBySame(doc, Init(tokens));
  }

  // ---------- at single inputs ----------

  const KEY_C: Bytes := [0x63]

  /** {"a": {}}: "add" to /a/b/c creates /a/b. */
  lemma AddCreatesParent(v: Json)
    ensures var doc, tokens: seq<Bytes> := One(Obj([])), [KEY_A, KEY_B, KEY_C];
      At(doc, Init(tokens)) == Err(OutOfRange) && AddAt(doc, tokens, v).Ok?
  {
    var doc, tokens: seq<Bytes> := One(Obj([])), [KEY_A, KEY_B, KEY_C];
    OneFinds(Obj([]));
    var init := Init(tokens);
    assert init == [KEY_A] + [KEY_B] && init[..1] == [KEY_A];
    assert StopsAt(doc, init, 1);
    StopIsError(doc, init, 1);
    var missing: seq<Bytes> := [KEY_B];
    assert init[1..] == missing && missing[1..] == [];
    AddWithoutParent(doc, tokens, 1, v);
  }

  /** {"a": 5}: "remove" of /a/b succeeds and changes nothing. */
  lemma RemoveBelowNumber()
    ensures var doc, tokens: seq<Bytes> := One(UInt(5)), [KEY_A, KEY_B];
      At(doc, tokens) == Err(OutOfRange) && RemoveAt(doc, tokens) == Ok(doc)
  {
    var tokens: seq<Bytes> := [KEY_A, KEY_B];
    OneFinds(UInt(5));
    assert Init(tokens) == [KEY_A];
    RemoveBelowLeaf(One(UInt(5)), tokens);
  }
}

/**
 RFC 6902, section 4.5, defines "copy" as an "add" of the copied value. The code assigns through the pointer instead,
 with unchecked access, which creates what is missing. This module says exactly when that comes to the same.
 */
module CopyLaws {
  import opened ByteStrings
  import opened Wrappers
  import opened Sequences
  import opened JsonValues
  import opened Decimals
  import opened JsonPointer
  import opened Access
  import opened Patch

  // ---------- unchecked access is local ----------

  /** `operator[](pointer)` as a value: null where something has to be created. */
  function Reach(j: Json, tokens: seq<Bytes>): Result<Json>
    decreases |tokens|
  {
    if tokens == [] then Ok(j)
    else
      var slot :- StepUnchecked(j, tokens[0]);
      Reach(Child(slot.0, slot.1), tokens[1..])
  }

  /** What checked access finds, unchecked access finds too. */
  lemma {:induction false} ReachFollowsAt(j: Json, tokens: seq<Bytes>)
    requires At(j, tokens).Ok?
    ensures Reach(j, tokens) == At(j, tokens)
    decreases |tokens|
  {
    if tokens != [] {
      UncheckedFollowsChecked(j, tokens[0]);
      ReachFollowsAt(Child(j, Locate(j, tokens[0]).value), tokens[1..]);
    }
  }

  /** The document with the outcome of a change at `operator[](tokens)`, or what fails on the way or in the change. */
  function InsideUnchecked(doc: Json, tokens: seq<Bytes>, change: Result<Json>): Result<Json>
  {
    if Reach(doc, tokens).Err? then Reach(doc, tokens)
    else if change.Err? then change
    else AssignAt(doc, tokens, change.value)
  }

  /** The value at a pointer, or null when it cannot be reached. */
  function ParentOf(doc: Json, tokens: seq<Bytes>): Json
  {
    if Reach(doc, tokens).Ok? then Reach(doc, tokens).value else Null
  }

  /** Assigning touches nothing but the parent of its target, which may have to be created. */
  lemma {:induction false} AssignIsLocal(doc: Json, tokens: seq<Bytes>, last: Bytes, v: Json)
    ensures AssignAt(doc, tokens + [last], v) ==
      InsideUnchecked(doc, tokens, AssignAt(ParentOf(doc, tokens), [last], v))
    decreases |tokens|
  {
    var all := tokens + [last];
    if tokens == [] {
      LeftUnit([last]);
    } else {
      assert all[1..] == tokens[1..] + [last] && all[0] == tokens[0];
      var slot := StepUnchecked(doc, tokens[0]);
      if slot.Ok? {
        AssignIsLocal(Child(slot.value.0, slot.value.1), tokens[1..], last, v);
      }
    }
  }

  /** The same for "add", behind the check of its first token. */
  lemma {:induction false} AddBelowIsLocalUnchecked(doc: Json, tokens: seq<Bytes>, last: Bytes, v: Json)
    ensures AddBelow(doc, tokens + [last], v) == InsideUnchecked(doc, tokens, AddChild(ParentOf(doc, tokens), last, v))
    decreases |tokens|
  {
    var all := tokens + [last];
    if tokens == [] {
      LeftUnit([last]);
    } else {
      assert all[1..] == tokens[1..] + [last] && all[0] == tokens[0];
      var slot := StepUnchecked(doc, tokens[0]);
      if slot.Ok? {
        AddBelowIsLocalUnchecked(Child(slot.value.0, slot.value.1), tokens[1..], last, v);
      }
    }
  }

  /** An assignment succeeds exactly where its target can be reached. */
  lemma {:induction false} AssignWhereReached(doc: Json, tokens: seq<Bytes>, v: Json)
    ensures Reach(doc, tokens).Err? ==> AssignAt(doc, tokens, v) == Reach(doc, tokens)
    ensures Reach(doc, tokens).Ok? ==> AssignAt(doc, tokens, v).Ok?
    decreases |tokens|
  {
    hide StepUnchecked, Child, WithChild;
    if tokens != [] {
      var slot := StepUnchecked(doc, tokens[0]);
      if slot.Ok? {
        AssignWhereReached(Child(slot.value.0, slot.value.1), tokens[1..], v);
      }
    }
  }

  lemma ChildrenDiffer(j: Json, p: nat, c: Json, d: Json)
    requires HasChild(j, p) && WithChild(j, p, c) == WithChild(j, p, d)
    ensures c == d
  {
    assert Child(WithChild(j, p, c), p) == c && Child(WithChild(j, p, d), p) == d;
  }

  /** Different values give different documents. */
  lemma {:induction false} AssignIsInjective(doc: Json, tokens: seq<Bytes>, v: Json, w: Json)
    requires AssignAt(doc, tokens, v).Ok? && AssignAt(doc, tokens, v) == AssignAt(doc, tokens, w)
    ensures v == w
    decreases |tokens|
  {
    hide StepUnchecked, Child, WithChild;
    if tokens != [] {
      var slot := StepUnchecked(doc, tokens[0]).value;
      var c := Child(slot.0, slot.1);
      var x, y := AssignAt(c, tokens[1..], v).value, AssignAt(c, tokens[1..], w).value;
      ChildrenDiffer(slot.0, slot.1, x, y);
      AssignIsInjective(c, tokens[1..], v, w);
    }
  }

  // ---------- the last token ----------

  predicate LeadingZero(token: Bytes)
  {
    |token| > 1 && token[0] == ZERO
  }

  /**
   Assigning to a child of a value and adding that child are the same: always for objects; for null, when the token
   makes it an object; for arrays, when both append, or when `stoi` throws in both.
   */
  predicate LastAgrees(parent: Json, last: Bytes)
  {
    match parent
    case Obj(_) => true
    case Null => !AllDigits(last) && last != [MINUS]
    case Arr(es) => last == [MINUS] || (!LeadingZero(last) && (Stoi(last).Err? || Stoi(last).value == |es|))
    case _ => false
  }

  lemma LastAgreesExactly(parent: Json, last: Bytes, v: Json)
    ensures AssignAt(parent, [last], v) == AddChild(parent, last, v) <==> LastAgrees(parent, last)
  {
    hide Stoi;
    var tokens := [last];
    assert tokens[1..] == [];
    match parent
    case Obj(ms) => SlotThenValue(ms, last, v);
    case Null =>
      if !AllDigits(last) && last != [MINUS] {
        SlotThenValue([], last, v);
      }
    case Arr(es) => ArraysAgree(es, last, v);
    case _ =>
  }

  lemma ArraysAgree(es: seq<Json>, last: Bytes, v: Json)
    ensures AssignAt(Arr(es), [last], v) == AddChild(Arr(es), last, v) <==> LastAgrees(Arr(es), last)
  {
    hide Stoi;
    var tokens := [last];
    assert tokens[1..] == [];
    AppendIsSlot(es, v);
    var i := Stoi(last);
    if last != [MINUS] && i.Ok? && 0 <= i.value < |es| {
      assert |es[i.value := v]| != |es[..i.value] + [v] + es[i.value..]|;
    }
    if LeadingZero(last) {
      LeadingZeroParses(last);
    }
  }

  /** A token that starts with a digit has digits for `stoi`: it throws at most for the range. */
  lemma LeadingZeroParses(last: Bytes)
    requires last != [] && IsDigit(last[0])
    ensures Stoi(last) == Err(OutOfRange) || Stoi(last).Ok?
  {}

  lemma AppendIsSlot(es: seq<Json>, v: Json)
    ensures (es + Nulls(1))[|es| := v] == es + [v]
    ensures es[..|es|] + [v] + es[|es|..] == es + [v]
  {}

  lemma SlotThenValue(ms: Members<Json>, k: Bytes, v: Json)
    ensures var slot := ObjectSlot(ms, k); WithChild(slot.0, slot.1, v) == Obj(Insert(ms, k, v))
  {
    var slot := ObjectSlot(ms, k);
    var r := WithChild(slot.0, slot.1, v);
    forall x: Bytes
      ensures Find(r.members, x) == Find(Insert(ms, k, v), x)
    {
      FindAfterInsert(ms, k, v, x);
      FindAfterInsert(ms, k, Null, x);
      FindAfterSetValue(slot.0.members, slot.1, v, x);
    }
    SameLookups(r.members, Insert(ms, k, v));
  }

  // ---------- missing parents ----------

  /** The error of the first token that cannot be created below null, if there is one. */
  function CreationError(tokens: seq<Bytes>): Option<Error>
    decreases |tokens|
  {
    if tokens == [] then None
    else
      var t := tokens[0];
      if !AllDigits(t) || t == [MINUS] then CreationError(tokens[1..])
      else if LeadingZero(t) then Some(DomainError)
      else if Stoi(t).Err? then Some(Stoi(t).error)
      else CreationError(tokens[1..])
  }

  lemma DigitsAreNotNegative(t: Bytes)
    requires AllDigits(t) && Stoi(t).Ok?
    ensures Stoi(t).value >= 0
  {}

  lemma {:induction false} ReachFromNull(tokens: seq<Bytes>)
    ensures Reach(Null, tokens) == if CreationError(tokens).Some? then Err(CreationError(tokens).value) else Ok(Null)
    decreases |tokens|
  {
    hide Stoi;
    if tokens != [] {
      var t := tokens[0];
      ReachFromNull(tokens[1..]);
      if AllDigits(t) && Stoi(t).Ok? {
        DigitsAreNotNegative(t);
      }
      var slot := StepUnchecked(Null, t);
      if slot.Ok? {
        CreatedIsNull(t);
      }
    }
  }

  /** What a step creates below null is null. */
  lemma CreatedIsNull(t: Bytes)
    requires StepUnchecked(Null, t).Ok?
    ensures var slot := StepUnchecked(Null, t).value; Child(slot.0, slot.1) == Null
  {
    hide Stoi;
    if AllDigits(t) && t != [MINUS] && Stoi(t).Ok? {
      DigitsAreNotNegative(t);
    }
  }

  /** The first token leads nowhere under checked access; unchecked access throws in the same way. */
  predicate SameFailure(doc: Json, tokens: seq<Bytes>)
    requires tokens != []
  {
    var first, rest := tokens[0], tokens[1..];
    match doc
    case Null => CreationError(tokens) == Some(OutOfRange)
    case Obj(_) => CreationError(rest) == Some(OutOfRange)
    case Arr(_) =>
      if first == [MINUS] then CreationError(rest) == Some(OutOfRange)
      else LeadingZero(first) || Stoi(first).Err? || (Stoi(first).value >= 0 && CreationError(rest) == Some(OutOfRange))
    case _ => true
  }

  lemma ReachFailsAlike(doc: Json, tokens: seq<Bytes>)
    requires tokens != [] && Locate(doc, tokens[0]).Err?
    ensures Reach(doc, tokens) == Err(Locate(doc, tokens[0]).error) <==> SameFailure(doc, tokens)
  {
    hide Stoi;
    var first, rest := tokens[0], tokens[1..];
    ReachFromNull(tokens);
    ReachFromNull(rest);
    match doc
    case Obj(ms) => FreshSlot(ms, first);
    case Arr(es) => ArrayFailure(es, first);
    case _ =>
  }

  lemma SameFailureExactly(doc: Json, tokens: seq<Bytes>, v: Json)
    requires tokens != [] && At(doc, [tokens[0]]).Err?
    ensures AssignAt(doc, tokens, v) == At(doc, [tokens[0]]) <==> SameFailure(doc, tokens)
  {
    hide Stoi, Reach, SameFailure, AssignAt, Locate;
    var first := tokens[0];
    var top := [first];
    assert top[1..] == [];
    AssignWhereReached(doc, tokens, v);
    assert Locate(doc, first).Err? && At(doc, top) == Err(Locate(doc, first).error);
    ReachFailsAlike(doc, tokens);
  }

  lemma FreshSlot(ms: Members<Json>, k: Bytes)
    requires !HasKey(ms, k)
    ensures var slot := ObjectSlot(ms, k); Child(slot.0, slot.1) == Null
  {}

  lemma ArrayFailure(es: seq<Json>, first: Bytes)
    requires Locate(Arr(es), first).Err?
    ensures var slot := StepUnchecked(Arr(es), first);
      if first != [MINUS] && (LeadingZero(first) || Stoi(first).Err?) then slot == Err(Locate(Arr(es), first).error)
      else
        && Locate(Arr(es), first) == Err(OutOfRange)
        && (if first != [MINUS] && Stoi(first).value < 0 then slot.Err? && slot.error != OutOfRange
            else slot.Ok? && Child(slot.value.0, slot.value.1) == Null)
  {
    hide Stoi;
  }

  /** The parent that unchecked access reaches is the one that checked access finds, or else null. */
  lemma {:induction false} MissingParentIsNull(doc: Json, tokens: seq<Bytes>)
    requires Reach(doc, tokens).Ok?
    ensures Reach(doc, tokens) == if At(doc, tokens).Ok? then At(doc, tokens) else Ok(Null)
    decreases |tokens|
  {
    hide StepUnchecked, Locate, Child, Stoi;
    if tokens != [] {
      var slot := StepUnchecked(doc, tokens[0]).value;
      if Locate(doc, tokens[0]).Ok? {
        UncheckedFollowsChecked(doc, tokens[0]);
        MissingParentIsNull(Child(slot.0, slot.1), tokens[1..]);
      } else {
        CreatedWhereMissing(doc, tokens[0]);
        ReachFromNull(tokens[1..]);
      }
    }
  }

  lemma CreatedWhereMissing(doc: Json, t: Bytes)
    requires Locate(doc, t).Err? && StepUnchecked(doc, t).Ok?
    ensures var slot := StepUnchecked(doc, t).value; Child(slot.0, slot.1) == Null
  {
    hide Stoi;
    match doc
    case Null => CreatedIsNull(t);
    case Obj(ms) => FreshSlot(ms, t);
    case Arr(es) => ArrayFailure(es, t);
    case _ =>
  }

  // ---------- the theorem ----------

  /**
   "copy" to a pointer does what "add" does. Either the first of several tokens leads nowhere, and both throw the
   same; or the parent cannot be reached, and both throw the same; or the parent, which is null if it has to be
   created, takes the last token in the same way.
   */
  predicate CopyIsAdd(doc: Json, tokens: seq<Bytes>)
  {
    if tokens == [] then true
    else if |tokens| > 1 && At(doc, [tokens[0]]).Err? then SameFailure(doc, tokens)
    else
      var parent := Reach(doc, tokens[..|tokens| - 1]);
      parent.Err? || LastAgrees(parent.value, tokens[|tokens| - 1])
  }

  /** For every document, pointer and value: assigning is adding exactly under that condition, errors included. */
  lemma {:induction false} AssignIsAddExactly(doc: Json, tokens: seq<Bytes>, v: Json)
    ensures AssignAt(doc, tokens, v) == AddAt(doc, tokens, v) <==> CopyIsAdd(doc, tokens)
  {
    if tokens != [] {
      hide At, Reach, AssignAt, AddBelow, AddChild, LastAgrees, SameFailure;
      if |tokens| > 1 && At(doc, [tokens[0]]).Err? {
        SameFailureExactly(doc, tokens, v);
      } else {
        var init, last := tokens[..|tokens| - 1], tokens[|tokens| - 1];
        var parent := ParentOf(doc, init);
        assert tokens == init + [last];
        AssignIsLocal(doc, init, last, v);
        AddBelowIsLocalUnchecked(doc, init, last, v);
        LastAgreesExactly(parent, last, v);
        ChangesAgree(doc, init, AssignAt(parent, [last], v), AddChild(parent, last, v));
      }
    }
  }

  /** Two changes of a value that can be reached give the same document exactly when they are the same. */
  lemma ChangesAgree(doc: Json, tokens: seq<Bytes>, a: Result<Json>, b: Result<Json>)
    ensures InsideUnchecked(doc, tokens, a) == InsideUnchecked(doc, tokens, b) <==> Reach(doc, tokens).Err? || a == b
  {
    hide Reach, AssignAt;
    if Reach(doc, tokens).Ok? {
      if a.Ok? {
        AssignWhereReached(doc, tokens, a.value);
      }
      if b.Ok? {
        AssignWhereReached(doc, tokens, b.value);
      }
      if a.Ok? && b.Ok? && AssignAt(doc, tokens, a.value) == AssignAt(doc, tokens, b.value) {
        AssignIsInjective(doc, tokens, a.value, b.value);
      }
    }
  }

  /** With a parent that checked access finds, only the parent and the last token matter. */
  lemma AssignIsAddBelow(doc: Json, tokens: seq<Bytes>, last: Bytes, v: Json)
    requires At(doc, tokens).Ok?
    ensures AssignAt(doc, tokens + [last], v) == AddAt(doc, tokens + [last], v) <==>
      LastAgrees(At(doc, tokens).value, last)
  {
    hide AssignAt, LastAgrees;
    ReachFollowsAt(doc, tokens);
    AssignIsLocal(doc, tokens, last, v);
    AddIsLocal(doc, tokens, last, v);
    LastAgreesExactly(At(doc, tokens).value, last, v);
    UncheckedWhereFound(doc, tokens, AddChild(At(doc, tokens).value, last, v));
    ChangesAgree(doc, tokens, AssignAt(ParentOf(doc, tokens), [last], v), AddChild(ParentOf(doc, tokens), last, v));
  }

  lemma {:induction false} AssignIsReplace(doc: Json, tokens: seq<Bytes>, v: Json)
    requires At(doc, tokens).Ok?
    ensures AssignAt(doc, tokens, v) == ReplaceAt(doc, tokens, v)
    decreases |tokens|
  {
    if tokens != [] {
      UncheckedFollowsChecked(doc, tokens[0]);
      AssignIsReplace(Child(doc, Locate(doc, tokens[0]).value), tokens[1..], v);
    }
  }

  lemma UncheckedWhereFound(doc: Json, tokens: seq<Bytes>, change: Result<Json>)
    requires At(doc, tokens).Ok?
    ensures InsideUnchecked(doc, tokens, change) == Inside(doc, tokens, change)
  {
    hide At, Reach, AssignAt, ReplaceAt;
    ReachFollowsAt(doc, tokens);
    if change.Ok? {
      AssignIsReplace(doc, tokens, change.value);
    }
  }

  // ---------- the operation ----------

  /** The operation object of a "copy". */
  function CopyEntry(from: Bytes, path: Bytes): Json
  {
    Obj([Member(FROM, Str(from)), Member(OP, Str(COPY)), Member(PATH, Str(path))])
  }

  lemma CopyEntryMembers(from: Bytes, path: Bytes)
    ensures CopyEntry(from, path).Obj?
    ensures var ms := CopyEntry(from, path).members;
      Find(ms, FROM) == Some(Str(from)) && Find(ms, OP) == Some(Str(COPY)) && Find(ms, PATH) == Some(Str(path))
  {
    var ms := CopyEntry(from, path).members;
    LowerBoundAt(ms, 0);
    LowerBoundAt(ms, 1);
    LowerBoundAt(ms, 2);
  }

  lemma CopyIsNoOther()
    ensures COPY != ADD && COPY != REMOVE && COPY != REPLACE && COPY != MOVE
  {
    assert COPY[0] != MOVE[0];
    assert |COPY| != |ADD| && |COPY| != |REMOVE| && |COPY| != |REPLACE|;
  }

  lemma CopyEntryWorks(doc: Json, from: seq<Bytes>, tokens: seq<Bytes>)
    ensures PatchOperation(doc, CopyEntry(ToString(from), ToString(tokens))) ==
      if At(doc, from).Ok? then AssignAt(doc, tokens, At(doc, from).value) else At(doc, from)
  {
    hide ToString, Split, At, AssignAt, LowerBound, Find, CopyEntry;
    CopyEntryMembers(ToString(from), ToString(tokens));
    CopyIsNoOther();
    SplitOfToString(from);
    SplitOfToString(tokens);
  }

  /**
   A "copy" from a place that exists does what an "add" of the value there does, to the document or as an
   exception, exactly under `CopyIsAdd`; from a place that does not, it throws what `at` throws.
   */
  lemma CopyOperationIsAddExactly(doc: Json, from: seq<Bytes>, tokens: seq<Bytes>)
    ensures var copied := PatchOperation(doc, CopyEntry(ToString(from), ToString(tokens)));
      if At(doc, from).Ok? then
        copied == PatchOperation(doc, AddEntry(ToString(tokens), At(doc, from).value)) <==> CopyIsAdd(doc, tokens)
      else copied == At(doc, from)
  {
    hide PatchOperation, ToString, At, AssignAt, AddAt, CopyEntry, AddEntry, CopyIsAdd;
    CopyEntryWorks(doc, from, tokens);
    if At(doc, from).Ok? {
      AddEntryWorks(doc, tokens, At(doc, from).value);
      AssignIsAddExactly(doc, tokens, At(doc, from).value);
    }
  }

  // ---------- where they differ ----------

  const KEY_X: Bytes := [0x78]
  const KEY_Y: Bytes := [0x79]

  /** On {}, "copy" to /x/y creates both members, and "add" throws. */
  lemma CopyCreatesParents(v: Json)
    ensures var doc: Json, tokens: seq<Bytes> := Obj([]), [KEY_X, KEY_Y];
      AssignAt(doc, tokens, v).Ok? && AddAt(doc, tokens, v) == Err(OutOfRange) && !CopyIsAdd(doc, tokens)
  {
    var doc: Json, tokens: seq<Bytes> := Obj([]), [KEY_X, KEY_Y];
    var top := [KEY_X];
    assert top[1..] == [] && tokens[1..] == [KEY_Y] && tokens[1..][1..] == [];
    AssignIsAddExactly(doc, tokens, v);
    AssignWhereReached(doc, tokens, v);
    FreshSlot([], KEY_X);
    var below: seq<Bytes> := [KEY_Y];
    ReachFromNull(below);
  }

  /** On [x], "add" to /01 appends, and "copy" throws for the leading zero. */
  lemma CopyChecksLeadingZero(x: Json, v: Json)
    ensures var doc: Json, tokens: seq<Bytes> := Arr([x]), [[ZERO, ZERO + 1]];
      AddAt(doc, tokens, v) == Ok(Arr([x, v])) && AssignAt(doc, tokens, v) == Err(DomainError) &&
      !CopyIsAdd(doc, tokens)
  {
    var doc: Json, tokens: seq<Bytes> := Arr([x]), [[ZERO, ZERO + 1]];
    var es := [x];
    AssignIsAddExactly(doc, tokens, v);
    ZeroOne();
    assert es[..1] + [v] + es[1..] == [x, v];
  }

  lemma ZeroOne()
    ensures Stoi([ZERO, ZERO + 1]) == Ok(1)
  {
    var t: Bytes := [ZERO, ZERO + 1];
    DigitsLead(t);
    assert t[..1] == [ZERO];
    assert DigitsValue([ZERO]) == 0;
  }

  /** On [x], "copy" to /0 overwrites, and "add" inserts. */
  lemma CopyOverwrites(x: Json, v: Json)
    ensures var doc: Json, tokens: seq<Bytes> := Arr([x]), [[ZERO]];
      AssignAt(doc, tokens, v) == Ok(Arr([v])) && AddAt(doc, tokens, v) == Ok(Arr([v, x])) && !CopyIsAdd(doc, tokens)
  {
    var doc: Json, tokens: seq<Bytes> := Arr([x]), [[ZERO]];
    var es := [x];
    AssignIsAddExactly(doc, tokens, v);
    StoiOfDecimal(0);
    assert tokens[1..] == [] && es[0 := v] == [v];
    assert es[..0] + [v] + es[0..] == [v, x];
  }

  /** On [], "copy" to /-1 is an access outside the array, and "add" throws. */
  lemma CopyBeforeTheFirst(v: Json)
    ensures var doc: Json, tokens: seq<Bytes> := Arr([]), [[MINUS, ZERO + 1]];
      AssignAt(doc, tokens, v) == Err(UndefinedBehaviour) && AddAt(doc, tokens, v) == Err(OutOfRange) &&
      !CopyIsAdd(doc, tokens)
  {
    var doc: Json, tokens: seq<Bytes> := Arr([]), [[MINUS, ZERO + 1]];
    MinusOne();
    AssignIsAddExactly(doc, tokens, v);
  }

  lemma MinusOne()
    ensures Stoi([MINUS, ZERO + 1]) == Ok(-1)
  {
    var t: Bytes := [MINUS, ZERO + 1];
    var digits: Bytes := [ZERO + 1];
    assert t[1..] == digits && !IsSpace(MINUS);
    DigitsLead(digits);
    assert digits[..0] == [];
    assert DigitsValue(digits[..0]) == 0;
    assert DigitsValue(digits) == 1;
  }
}

/** When an operation of a patch neither succeeds nor throws an exception. */
module PatchErrors {
  import opened ByteStrings
  import opened Wrappers
  import opened Sequences
  import opened JsonValues
  import opened Decimals
  import opened JsonPointer
  import opened Access
  import opened Compare
  import opened Patch
  import opened CopyLaws
  import opened PatchLaws
  import opened Literals

  // ---------- pointers and their prefixes ----------

  lemma AtBelow(doc: Json, tokens: seq<Bytes>, k: nat)
    requires 0 < k <= |tokens|
    ensures At(doc, tokens[..k]) ==
      if Locate(doc, tokens[0]).Err? then Err(Locate(doc, tokens[0]).error)
      else At(Child(doc, Locate(doc, tokens[0]).value), tokens[1..][..k - 1])
  {
    hide Locate, Child;
    assert tokens[..k][0] == tokens[0] && tokens[..k][1..] == tokens[1..][..k - 1];
  }

  /** The pointer leads to a value that has no child for its next token. */
  predicate StopsAt(doc: Json, tokens: seq<Bytes>, k: nat)
  {
    && k < |tokens|
    && At(doc, tokens[..k]).Ok?
    && Locate(At(doc, tokens[..k]).value, tokens[k]).Err?
  }

  /** A pointer that leads nowhere stops at one token, with the error of that token. */
  lemma {:induction false} FirstMissing(doc: Json, tokens: seq<Bytes>) returns (k: nat)
    requires At(doc, tokens).Err?
    ensures StopsAt(doc, tokens, k)
    ensures At(doc, tokens) == Err(Locate(At(doc, tokens[..k]).value, tokens[k]).error)
    decreases |tokens|
  {
    hide Locate, Child;
    if Locate(doc, tokens[0]).Err? {
      k := 0;
    } else {
      var below := FirstMissing(Child(doc, Locate(doc, tokens[0]).value), tokens[1..]);
      k := below + 1;
      AtBelow(doc, tokens, k);
    }
  }

  /** Where a pointer stops, it leads nowhere. */
  lemma {:induction false} StopIsError(doc: Json, tokens: seq<Bytes>, k: nat)
    requires StopsAt(doc, tokens, k)
    ensures At(doc, tokens) == Err(Locate(At(doc, tokens[..k]).value, tokens[k]).error)
    decreases |tokens|
  {
    hide Locate, Child;
    if k > 0 {
      AtBelow(doc, tokens, k);
      StopIsError(Child(doc, Locate(doc, tokens[0]).value), tokens[1..], k - 1);
    }
  }

  /** Below a value that checked access finds, unchecked access goes on from there. */
  lemma {:induction false} ReachBelow(doc: Json, tokens: seq<Bytes>, k: nat)
    requires k <= |tokens| && At(doc, tokens[..k]).Ok?
    ensures Reach(doc, tokens) == Reach(At(doc, tokens[..k]).value, tokens[k..])
    decreases |tokens|
  {
    hide Locate, Child, StepUnchecked;
    if k == 0 {
      assert tokens[0..] == tokens;
    } else {
      AtBelow(doc, tokens, k);
      UncheckedFollowsChecked(doc, tokens[0]);
      ReachBelow(Child(doc, Locate(doc, tokens[0]).value), tokens[1..], k - 1);
      assert tokens[1..][k - 1..] == tokens[k..];
    }
  }

  // ---------- which errors there are ----------

  lemma StoiThrows(t: Bytes)
    ensures Stoi(t).Err? ==> Stoi(t).error == InvalidArgument || Stoi(t).error == OutOfRange
  {}

  /** A token that `stoi` reads as a negative number starts with no digit and is not a minus sign alone. */
  lemma NegativeToken(t: Bytes)
    requires Stoi(t).Ok? && Stoi(t).value < 0
    ensures t != [MINUS] && t != [] && !IsDigit(t[0]) && !AllDigits(t)
  {
    NoDigitsBehindMinus();
  }

  lemma StepError(j: Json, t: Bytes)
    ensures Locate(j, t).Err? ==> Locate(j, t).error != AssertionFailed && Locate(j, t).error != UndefinedBehaviour
    ensures StepUnchecked(j, t).Err? ==> StepUnchecked(j, t).error != AssertionFailed
    ensures StepUnchecked(j, t) == Err(UndefinedBehaviour) <==> j == Arr([]) && Stoi(t) == Ok(-1)
  {
    hide Stoi;
    StoiThrows(t);
    if Stoi(t).Ok? && Stoi(t).value < 0 {
      NegativeToken(t);
    }
  }

  lemma {:induction false} AtError(doc: Json, tokens: seq<Bytes>)
    requires At(doc, tokens).Err?
    ensures At(doc, tokens).error != AssertionFailed && At(doc, tokens).error != UndefinedBehaviour
    decreases |tokens|
  {
    hide Locate, Child;
    StepError(doc, tokens[0]);
    if Locate(doc, tokens[0]).Ok? {
      AtError(Child(doc, Locate(doc, tokens[0]).value), tokens[1..]);
    }
  }

  lemma {:induction false} ReachError(doc: Json, tokens: seq<Bytes>)
    requires Reach(doc, tokens).Err?
    ensures Reach(doc, tokens).error != AssertionFailed
    decreases |tokens|
  {
    hide StepUnchecked, Child;
    StepError(doc, tokens[0]);
    var slot := StepUnchecked(doc, tokens[0]);
    if slot.Ok? {
      ReachError(Child(slot.value.0, slot.value.1), tokens[1..]);
    }
  }

  lemma {:induction false} CreationErrorIsException(tokens: seq<Bytes>)
    ensures CreationError(tokens) != Some(UndefinedBehaviour)
    decreases |tokens|
  {
    hide Stoi;
    if tokens != [] {
      StoiThrows(tokens[0]);
      CreationErrorIsException(tokens[1..]);
    }
  }

  // ---------- "add" below a primitive value ----------

  predicate IsPrimitive(j: Json)
  {
    !j.Null? && !j.Arr? && !j.Obj?
  }

  function Init(tokens: seq<Bytes>): seq<Bytes>
    requires tokens != []
  {
    tokens[..|tokens| - 1]
  }

  function Last(tokens: seq<Bytes>): Bytes
    requires tokens != []
  {
    tokens[|tokens| - 1]
  }

  /** The pointer has a parent that exists and is a boolean, a number or a string. */
  predicate BelowPrimitive(doc: Json, tokens: seq<Bytes>)
  {
    && tokens != []
    && At(doc, Init(tokens)).Ok?
    && IsPrimitive(At(doc, Init(tokens)).value)
  }

  lemma AddChildErrors(parent: Json, last: Bytes, v: Json)
    ensures AddChild(parent, last, v) == Err(AssertionFailed) <==> IsPrimitive(parent)
    ensures AddChild(parent, last, v) != Err(UndefinedBehaviour)
  {
    hide Stoi;
    StoiThrows(last);
  }

  /** "add" in two parts: the check of the first token, and the change of the parent that unchecked access reaches. */
  lemma AddInParts(doc: Json, tokens: seq<Bytes>, v: Json)
    requires tokens != []
    ensures AddAt(doc, tokens, v) ==
      if |tokens| > 1 && At(doc, [tokens[0]]).Err? then At(doc, [tokens[0]])
      else InsideUnchecked(doc, Init(tokens), AddChild(ParentOf(doc, Init(tokens)), Last(tokens), v))
  {
    hide At, Reach, AssignAt, AddBelow, AddChild;
    assert tokens == Init(tokens) + [Last(tokens)];
    AddBelowIsLocalUnchecked(doc, Init(tokens), Last(tokens), v);
  }

  /** A first token that leads nowhere keeps every longer prefix from leading anywhere. */
  lemma TopIsNeeded(doc: Json, tokens: seq<Bytes>, k: nat)
    requires 0 < k <= |tokens| && At(doc, tokens[..k]).Ok?
    ensures At(doc, [tokens[0]]).Ok?
  {
    hide Locate, Child;
    var top := [tokens[0]];
    assert top[1..] == [];
    AtBelow(doc, tokens, k);
    assert At(Child(doc, Locate(doc, tokens[0]).value), []).Ok?;
  }

  /** A change where unchecked access leads fails there or by itself. */
  lemma InsideErrors(doc: Json, tokens: seq<Bytes>, change: Result<Json>)
    ensures InsideUnchecked(doc, tokens, change).Ok? <==> Reach(doc, tokens).Ok? && change.Ok?
    ensures Reach(doc, tokens).Err? ==> InsideUnchecked(doc, tokens, change) == Reach(doc, tokens)
    ensures Reach(doc, tokens).Ok? && change.Err? ==> InsideUnchecked(doc, tokens, change) == change
  {
    hide Reach, AssignAt;
    if change.Ok? {
      AssignWhereReached(doc, tokens, change.value);
    }
  }

  /** For every document, pointer and value: "add" fails the assertion exactly below a primitive value. */
  lemma AddAssertsExactly(doc: Json, tokens: seq<Bytes>, v: Json)
    ensures AddAt(doc, tokens, v) == Err(AssertionFailed) <==> BelowPrimitive(doc, tokens)
  {
    if tokens != [] {
      hide At, Reach, AddAt, AddChild, InsideUnchecked;
      var init, last := Init(tokens), Last(tokens);
      AddInParts(doc, tokens, v);
      if |tokens| > 1 && At(doc, [tokens[0]]).Err? {
        AtError(doc, [tokens[0]]);
        if At(doc, init).Ok? {
          TopIsNeeded(doc, tokens, |tokens| - 1);
        }
      } else {
        var parent := ParentOf(doc, init);
        AddChildErrors(parent, last, v);
        InsideErrors(doc, init, AddChild(parent, last, v));
        if Reach(doc, init).Ok? {
          MissingParentIsNull(doc, init);
        } else {
          ReachError(doc, init);
          if At(doc, init).Ok? {
            ReachFollowsAt(doc, init);
          }
        }
      }
    }
  }

  // ---------- index -1 of an empty array ----------

  /** The pointer leads to an empty array, and its next token is read as -1. */
  predicate BeforeTheFirst(doc: Json, tokens: seq<Bytes>, k: nat)
  {
    && k < |tokens|
    && At(doc, tokens[..k]) == Ok(Arr([]))
    && Stoi(tokens[k]) == Ok(-1)
  }

  /** Anywhere along the pointer. */
  predicate LeadsOutside(doc: Json, tokens: seq<Bytes>)
  {
    exists k | 0 <= k < |tokens| :: BeforeTheFirst(doc, tokens, k)
  }

  /** Strictly between the first and the last token. */
  predicate LeadsOutsideInside(doc: Json, tokens: seq<Bytes>)
  {
    exists k | 0 < k < |tokens| - 1 :: BeforeTheFirst(doc, tokens, k)
  }

  lemma BeforeTheFirstStops(doc: Json, tokens: seq<Bytes>, k: nat)
    requires BeforeTheFirst(doc, tokens, k)
    ensures StopsAt(doc, tokens, k)
  {
    hide Stoi, At;
    NegativeToken(tokens[k]);
  }

  /** A pointer stops at one place only. */
  lemma StopsOnce(doc: Json, tokens: seq<Bytes>, k: nat, n: nat)
    requires StopsAt(doc, tokens, k) && StopsAt(doc, tokens, n)
    ensures k == n
  {
    hide At, Locate;
    if k != n {
      var low, high := if k < n then k else n, if k < n then n else k;
      TakeTake(tokens, high, low);
      StopIsError(doc, tokens[..high], low);
    }
  }

  /** Where checked access stops, unchecked access throws or goes on below a new null. */
  lemma ReachBehindStop(doc: Json, tokens: seq<Bytes>, k: nat)
    requires StopsAt(doc, tokens, k)
    ensures var j := At(doc, tokens[..k]).value;
      Reach(doc, tokens) ==
        if StepUnchecked(j, tokens[k]).Err? then Err(StepUnchecked(j, tokens[k]).error)
        else Reach(Null, tokens[k + 1..])
  {
    hide At, Locate, StepUnchecked, Child;
    var j := At(doc, tokens[..k]).value;
    ReachBelow(doc, tokens, k);
    DropStep(tokens, k);
    if StepUnchecked(j, tokens[k]).Ok? {
      CreatedWhereMissing(j, tokens[k]);
    }
  }

  /** Unchecked access leaves an array exactly for index -1 of an empty one. */
  lemma ReachOutsideExactly(doc: Json, tokens: seq<Bytes>)
    ensures Reach(doc, tokens) == Err(UndefinedBehaviour) <==> LeadsOutside(doc, tokens)
  {
    hide At, Reach, Locate, StepUnchecked, Stoi, StopsAt, BeforeTheFirst;
    forall k: nat | BeforeTheFirst(doc, tokens, k)
      ensures StopsAt(doc, tokens, k)
    {
      BeforeTheFirstStops(doc, tokens, k);
    }
    if At(doc, tokens).Ok? {
      ReachFollowsAt(doc, tokens);
      forall k: nat | StopsAt(doc, tokens, k)
        ensures At(doc, tokens).Err?
      {
        StopIsError(doc, tokens, k);
      }
    } else {
      var n := FirstMissing(doc, tokens);
      forall k: nat | StopsAt(doc, tokens, k)
        ensures k == n
      {
        StopsOnce(doc, tokens, k, n);
      }
      OutsideAtStop(doc, tokens, n);
    }
  }

  lemma OutsideAtStop(doc: Json, tokens: seq<Bytes>, n: nat)
    requires StopsAt(doc, tokens, n)
    ensures n < |tokens| && (Reach(doc, tokens) == Err(UndefinedBehaviour) <==> BeforeTheFirst(doc, tokens, n))
  {
    hide At, Reach, Locate, StepUnchecked, Stoi;
    StepError(At(doc, tokens[..n]).value, tokens[n]);
    ReachBehindStop(doc, tokens, n);
    ReachFromNull(tokens[n + 1..]);
    CreationErrorIsException(tokens[n + 1..]);
  }

  /** For every document, pointer and value: an assignment leaves an array exactly for index -1 of an empty one. */
  lemma AssignOutsideExactly(doc: Json, tokens: seq<Bytes>, v: Json)
    ensures AssignAt(doc, tokens, v) == Err(UndefinedBehaviour) <==> LeadsOutside(doc, tokens)
  {
    hide AssignAt, Reach, LeadsOutside;
    AssignWhereReached(doc, tokens, v);
    ReachOutsideExactly(doc, tokens);
  }

  /** For "add", the token stands strictly between the first and the last one. */
  lemma AddOutsideExactly(doc: Json, tokens: seq<Bytes>, v: Json)
    ensures AddAt(doc, tokens, v) == Err(UndefinedBehaviour) <==> LeadsOutsideInside(doc, tokens)
  {
    if tokens != [] {
      hide At, Reach, AddAt, AddChild, InsideUnchecked, LeadsOutside, LeadsOutsideInside;
      var init, last := Init(tokens), Last(tokens);
      AddInParts(doc, tokens, v);
      if |tokens| > 1 && At(doc, [tokens[0]]).Err? {
        AtError(doc, [tokens[0]]);
        NotOutsideBehindTop(doc, tokens);
      } else {
        var parent := ParentOf(doc, init);
        AddChildErrors(parent, last, v);
        InsideErrors(doc, init, AddChild(parent, last, v));
        ReachOutsideExactly(doc, init);
        OutsideOfInit(doc, tokens);
      }
    }
  }

  lemma NotOutsideBehindTop(doc: Json, tokens: seq<Bytes>)
    requires |tokens| > 1 && At(doc, [tokens[0]]).Err?
    ensures !LeadsOutsideInside(doc, tokens)
  {
    hide At, Stoi;
    forall k | 0 < k < |tokens| - 1
      ensures !BeforeTheFirst(doc, tokens, k)
    {
      if At(doc, tokens[..k]).Ok? {
        TopIsNeeded(doc, tokens, k);
      }
    }
  }

  lemma OutsideOfInit(doc: Json, tokens: seq<Bytes>)
    requires tokens != [] && (|tokens| > 1 ==> At(doc, [tokens[0]]).Ok?)
    ensures LeadsOutside(doc, Init(tokens)) <==> LeadsOutsideInside(doc, tokens)
  {
    hide At, Stoi;
    var init := Init(tokens);
    forall k | 0 <= k < |init|
      ensures BeforeTheFirst(doc, init, k) <==> BeforeTheFirst(doc, tokens, k)
    {
      TakeTake(tokens, |init|, k);
    }
    if |tokens| > 1 {
      NotAtTop(doc, tokens);
    }
  }

  lemma NotAtTop(doc: Json, tokens: seq<Bytes>)
    requires tokens != [] && At(doc, [tokens[0]]).Ok?
    ensures !BeforeTheFirst(doc, tokens, 0)
  {
    assert tokens[..0] == [];
    if BeforeTheFirst(doc, tokens, 0) {
      BeforeTheFirstStops(doc, tokens, 0);
    }
  }

  // ---------- operations and patches ----------

  /** The string member of an operation object, read as a pointer. */
  function PointerOf(entry: Json, name: Bytes): Result<seq<Bytes>>
  {
    if !entry.Obj? then Err(InvalidArgument)
    else
      var s :- GetString(entry.members, name);
      Split(s)
  }

  predicate IsOp(entry: Json, op: Bytes)
  {
    entry.Obj? && GetString(entry.members, OP) == Ok(op)
  }

  /** The document to which an operation adds: "add" has a value for it, and "move" has removed one from it. */
  function AddedTo(doc: Json, entry: Json): Option<Json>
  {
    if IsOp(entry, ADD) then
      if GetValue(entry.members, VALUE).Ok? then Some(doc) else None
    else if IsOp(entry, MOVE) && PointerOf(entry, FROM).Ok? then
      var from := PointerOf(entry, FROM).value;
      if At(doc, from).Ok? && RemoveAt(doc, from).Ok? then Some(RemoveAt(doc, from).value) else None
    else None
  }

  /** The operation adds below a boolean, a number or a string. */
  predicate AddsBelowPrimitive(doc: Json, entry: Json)
  {
    && PointerOf(entry, PATH).Ok?
    && AddedTo(doc, entry).Some?
    && BelowPrimitive(AddedTo(doc, entry).value, PointerOf(entry, PATH).value)
  }

  /** The operation goes through index -1 of an empty array; only "copy" does so with its first or last token. */
  predicate GoesOutside(doc: Json, entry: Json)
  {
    && PointerOf(entry, PATH).Ok?
    && var tokens := PointerOf(entry, PATH).value;
      || (AddedTo(doc, entry).Some? && LeadsOutsideInside(AddedTo(doc, entry).value, tokens))
      || (IsOp(entry, COPY) && PointerOf(entry, FROM).Ok? && At(doc, PointerOf(entry, FROM).value).Ok? &&
          LeadsOutside(doc, tokens))
  }

  predicate IsException(e: Error)
  {
    e != AssertionFailed && e != UndefinedBehaviour
  }

  /** "remove" and "replace" succeed or throw. */
  lemma {:induction false} RemoveThrows(doc: Json, tokens: seq<Bytes>)
    ensures RemoveAt(doc, tokens).Err? ==> IsException(RemoveAt(doc, tokens).error)
    decreases |tokens|
  {
    hide Locate, Child, WithChild, Stoi;
    if |tokens| > 1 {
      StepError(doc, tokens[0]);
      if Locate(doc, tokens[0]).Ok? {
        RemoveThrows(Child(doc, Locate(doc, tokens[0]).value), tokens[1..]);
      }
    } else if tokens != [] {
      StoiThrows(tokens[0]);
    }
  }

  lemma ReplaceThrows(doc: Json, tokens: seq<Bytes>, v: Json)
    ensures ReplaceAt(doc, tokens, v).Err? ==> IsException(ReplaceAt(doc, tokens, v).error)
  {
    hide At, ReplaceAt;
    ReplaceWhereFound(doc, tokens, v);
    if At(doc, tokens).Err? {
      AtError(doc, tokens);
    }
  }

  lemma PointerThrows(entry: Json, name: Bytes)
    ensures PointerOf(entry, name).Err? ==> IsException(PointerOf(entry, name).error)
  {
    hide Split, Find;
    if entry.Obj? && GetString(entry.members, name).Ok? {
      SplitThrows(GetString(entry.members, name).value);
    }
  }

  lemma OpsDiffer()
    ensures ADD != REMOVE && ADD != REPLACE && ADD != MOVE && ADD != COPY && ADD != TEST
    ensures MOVE != REMOVE && MOVE != REPLACE && MOVE != COPY && MOVE != TEST
    ensures COPY != REMOVE && COPY != REPLACE && COPY != TEST
  {
    assert MOVE[0] != COPY[0] && MOVE[0] != TEST[0] && COPY[0] != TEST[0];
    assert |ADD| == 3 && |REMOVE| == 6 && |REPLACE| == 7 && |MOVE| == 4 && |COPY| == 4 && |TEST| == 4;
  }

  /** The operation that is read from the members, once its name and its pointer are known. */
  predicate Reads(entry: Json, op: Bytes, tokens: seq<Bytes>)
  {
    IsOp(entry, op) && PointerOf(entry, PATH) == Ok(tokens)
  }

  lemma AddOperation(doc: Json, entry: Json, tokens: seq<Bytes>)
    requires Reads(entry, ADD, tokens)
    ensures PatchOperation(doc, entry) ==
      var v := GetValue(entry.members, VALUE);
      if v.Err? then Err(v.error) else AddAt(doc, tokens, v.value)
  {
    hide Split, Find, AddAt, AssignAt, RemoveAt, ReplaceAt, At, Eq;
  }

  lemma MoveOperation(doc: Json, entry: Json, tokens: seq<Bytes>)
    requires Reads(entry, MOVE, tokens)
    ensures var from, r := PointerOf(entry, FROM), PatchOperation(doc, entry);
      if from.Err? then r == Err(from.error)
      else if At(doc, from.value).Err? then r == At(doc, from.value)
      else if RemoveAt(doc, from.value).Err? then r == RemoveAt(doc, from.value)
      else r == AddAt(RemoveAt(doc, from.value).value, tokens, At(doc, from.value).value)
  {
    hide Split, Find, AddAt, AssignAt, RemoveAt, ReplaceAt, At, Eq;
    OpsDiffer();
  }

  lemma CopyOperation(doc: Json, entry: Json, tokens: seq<Bytes>)
    requires Reads(entry, COPY, tokens)
    ensures var from, r := PointerOf(entry, FROM), PatchOperation(doc, entry);
      if from.Err? then r == Err(from.error)
      else if At(doc, from.value).Err? then r == At(doc, from.value)
      else r == AssignAt(doc, tokens, At(doc, from.value).value)
  {
    hide Split, Find, AddAt, AssignAt, RemoveAt, ReplaceAt, At, Eq;
    OpsDiffer();
  }

  /** An operation that is neither "add" nor "move" nor "copy" succeeds or throws. */
  lemma OtherOperation(doc: Json, entry: Json)
    requires PointerOf(entry, PATH).Ok? && !IsOp(entry, ADD) && !IsOp(entry, MOVE) && !IsOp(entry, COPY)
    ensures PatchOperation(doc, entry).Err? ==> IsException(PatchOperation(doc, entry).error)
  {
    hide Split, Find, AddAt, AssignAt, RemoveAt, ReplaceAt, At, Eq;
    var tokens := PointerOf(entry, PATH).value;
    RemoveThrows(doc, tokens);
    if GetValue(entry.members, VALUE).Ok? {
      ReplaceThrows(doc, tokens, GetValue(entry.members, VALUE).value);
    }
    if At(doc, tokens).Err? {
      AtError(doc, tokens);
    }
  }

  lemma NoPointerOperation(doc: Json, entry: Json)
    requires PointerOf(entry, PATH).Err?
    ensures PatchOperation(doc, entry).Err? && IsException(PatchOperation(doc, entry).error)
  {
    hide Split, Find, AddAt, AssignAt, RemoveAt, ReplaceAt, At, Eq;
    PointerThrows(entry, PATH);
  }

  /**
   For every document and operation: it fails an assertion exactly when it adds below a primitive value, it leaves an
   array exactly when it goes through index -1 of an empty one, and otherwise it succeeds or throws an exception.
   */
  lemma OperationFailsExactly(doc: Json, entry: Json)
    ensures PatchOperation(doc, entry) == Err(AssertionFailed) <==> AddsBelowPrimitive(doc, entry)
    ensures PatchOperation(doc, entry) == Err(UndefinedBehaviour) <==> GoesOutside(doc, entry)
  {
    hide PatchOperation, PointerOf, IsOp, BelowPrimitive, LeadsOutside, LeadsOutsideInside, At, AddAt, AssignAt,
      RemoveAt;
    if PointerOf(entry, PATH).Err? {
      NoPointerOperation(doc, entry);
    } else if IsOp(entry, ADD) {
      AddFails(doc, entry);
    } else if IsOp(entry, MOVE) {
      MoveFails(doc, entry);
    } else if IsOp(entry, COPY) {
      CopyFails(doc, entry);
    } else {
      OtherOperation(doc, entry);
    }
  }

  lemma OneOp(entry: Json)
    ensures IsOp(entry, ADD) ==> entry.Obj? && !IsOp(entry, MOVE) && !IsOp(entry, COPY)
    ensures IsOp(entry, MOVE) ==> !IsOp(entry, ADD) && !IsOp(entry, COPY)
    ensures IsOp(entry, COPY) ==> !IsOp(entry, ADD) && !IsOp(entry, MOVE)
  {
    OpsDiffer();
  }

  lemma AddFails(doc: Json, entry: Json)
    requires PointerOf(entry, PATH).Ok? && IsOp(entry, ADD)
    ensures PatchOperation(doc, entry) == Err(AssertionFailed) <==> AddsBelowPrimitive(doc, entry)
    ensures PatchOperation(doc, entry) == Err(UndefinedBehaviour) <==> GoesOutside(doc, entry)
  {
    hide PatchOperation, PointerOf, IsOp, BelowPrimitive, LeadsOutside, LeadsOutsideInside, At, AddAt, RemoveAt, Find;
    var tokens := PointerOf(entry, PATH).value;
    OneOp(entry);
    AddOperation(doc, entry, tokens);
    var v := GetValue(entry.members, VALUE);
    if v.Ok? {
      AddAssertsExactly(doc, tokens, v.value);
      AddOutsideExactly(doc, tokens, v.value);
    }
  }

  lemma MoveFails(doc: Json, entry: Json)
    requires PointerOf(entry, PATH).Ok? && IsOp(entry, MOVE)
    ensures PatchOperation(doc, entry) == Err(AssertionFailed) <==> AddsBelowPrimitive(doc, entry)
    ensures PatchOperation(doc, entry) == Err(UndefinedBehaviour) <==> GoesOutside(doc, entry)
  {
    hide PatchOperation, PointerOf, IsOp, BelowPrimitive, LeadsOutside, LeadsOutsideInside, At, AddAt, RemoveAt, Find;
    var tokens, from := PointerOf(entry, PATH).value, PointerOf(entry, FROM);
    OneOp(entry);
    MoveOperation(doc, entry, tokens);
    PointerThrows(entry, FROM);
    if from.Ok? {
      RemoveThrows(doc, from.value);
      if At(doc, from.value).Err? {
        AtError(doc, from.value);
      } else if RemoveAt(doc, from.value).Ok? {
        AddAssertsExactly(RemoveAt(doc, from.value).value, tokens, At(doc, from.value).value);
        AddOutsideExactly(RemoveAt(doc, from.value).value, tokens, At(doc, from.value).value);
      }
    }
  }

  lemma CopyFails(doc: Json, entry: Json)
    requires PointerOf(entry, PATH).Ok? && IsOp(entry, COPY)
    ensures PatchOperation(doc, entry) == Err(AssertionFailed) <==> AddsBelowPrimitive(doc, entry)
    ensures PatchOperation(doc, entry) == Err(UndefinedBehaviour) <==> GoesOutside(doc, entry)
  {
    hide PatchOperation, PointerOf, IsOp, BelowPrimitive, LeadsOutside, LeadsOutsideInside, At, AssignAt, Find;
    hide Reach;
    var tokens, from := PointerOf(entry, PATH).value, PointerOf(entry, FROM);
    OneOp(entry);
    CopyOperation(doc, entry, tokens);
    PointerThrows(entry, FROM);
    if from.Ok? {
      if At(doc, from.value).Err? {
        AtError(doc, from.value);
      } else {
        var v := At(doc, from.value).value;
        AssignOutsideExactly(doc, tokens, v);
        AssignWhereReached(doc, tokens, v);
        if Reach(doc, tokens).Err? {
          ReachError(doc, tokens);
        }
      }
    }
  }

  // ---------- whole patches ----------

  /** The operations before the k-th succeed, and the k-th fails an assertion or leaves an array. */
  predicate BreaksAt(doc: Json, entries: seq<Json>, k: nat)
  {
    && k < |entries|
    && ApplyAll(doc, entries[..k]).Ok?
    && var d := ApplyAll(doc, entries[..k]).value; AddsBelowPrimitive(d, entries[k]) || GoesOutside(d, entries[k])
  }

  /** The first operation that fails decides. */
  lemma {:induction false} FirstFailure(doc: Json, entries: seq<Json>) returns (k: nat)
    requires ApplyAll(doc, entries).Err?
    ensures k < |entries| && ApplyAll(doc, entries[..k]).Ok?
    ensures ApplyAll(doc, entries) == PatchOperation(ApplyAll(doc, entries[..k]).value, entries[k])
    decreases |entries|
  {
    hide PatchOperation;
    var next := PatchOperation(doc, entries[0]);
    if next.Err? {
      k := 0;
    } else {
      var below := FirstFailure(next.value, entries[1..]);
      k := below + 1;
      assert entries[..k][0] == entries[0] && entries[..k][1..] == entries[1..][..below];
    }
  }

  lemma FailureDecides(doc: Json, entries: seq<Json>, k: nat)
    requires k < |entries| && ApplyAll(doc, entries[..k]).Ok?
    requires PatchOperation(ApplyAll(doc, entries[..k]).value, entries[k]).Err?
    ensures ApplyAll(doc, entries) == PatchOperation(ApplyAll(doc, entries[..k]).value, entries[k])
  {
    hide PatchOperation;
    Sequences.Parts(entries, k);
    DropStep(entries, k);
    ApplyConcat(doc, entries[..k], entries[k..]);
  }

  /**
   `patch` is atomic, that is, it returns the patched document or throws an exception, exactly when none of its
   operations adds below a primitive value or goes through index -1 of an empty array.
   */
  lemma PatchIsAtomicExactly(doc: Json, patch: Json)
    ensures (Patched(doc, patch).Ok? || IsException(Patched(doc, patch).error)) <==>
      (patch.Arr? ==> forall k | 0 <= k < |patch.elems| :: !BreaksAt(doc, patch.elems, k))
  {
    hide PatchOperation, ApplyAll, AddsBelowPrimitive, GoesOutside;
    if patch.Arr? {
      var entries := patch.elems;
      forall k | 0 <= k < |entries| && BreaksAt(doc, entries, k)
        ensures ApplyAll(doc, entries).Err? && !IsException(ApplyAll(doc, entries).error)
      {
        OperationFailsExactly(ApplyAll(doc, entries[..k]).value, entries[k]);
        FailureDecides(doc, entries, k);
      }
      if ApplyAll(doc, entries).Err? {
        var k := FirstFailure(doc, entries);
        OperationFailsExactly(ApplyAll(doc, entries[..k]).value, entries[k]);
        assert IsException(ApplyAll(doc, entries).error) <==> !BreaksAt(doc, entries, k);
      }
    }
  }

  // ---------- at single inputs ----------

  const KEY_A: Bytes := [0x61]
  const KEY_B: Bytes := [0x62]

  /** A document with one member. */
  function One(v: Json): Json
  {
    Obj([Member(KEY_A, v)])
  }

  lemma OneFinds(v: Json)
    ensures Locate(One(v), KEY_A) == Ok(0) && Child(One(v), 0) == v
    ensures At(One(v), [KEY_A]) == Ok(v)
  {
    var top := [KEY_A];
    assert top[1..] == [];
    LowerBoundAt(One(v).members, 0);
    assert At(Child(One(v), 0), []) == Ok(v);
  }

  /** {"a": 5}: "add" to /a/b fails the assertion. */
  lemma AddBelowNumberAsserts(v: Json)
    ensures AddAt(One(UInt(5)), [KEY_A, KEY_B], v) == Err(AssertionFailed)
  {
    var tokens: seq<Bytes> := [KEY_A, KEY_B];
    OneFinds(UInt(5));
    assert Init(tokens) == [KEY_A];
    AddAssertsExactly(One(UInt(5)), tokens, v);
  }

  /** {"a": []}: "add" to /a/-1/b leaves the array, and to /a/-1 throws. */
  lemma AddThroughEmptyArray(v: Json)
    ensures var minus: Bytes := [MINUS, ZERO + 1];
      && AddAt(One(Arr([])), [KEY_A, minus, KEY_B], v) == Err(UndefinedBehaviour)
      && AddAt(One(Arr([])), [KEY_A, minus], v) == Err(OutOfRange)
  {
    var minus: Bytes := [MINUS, ZERO + 1];
    var doc, tokens: seq<Bytes>, short: seq<Bytes> := One(Arr([])), [KEY_A, minus, KEY_B], [KEY_A, minus];
    OneFinds(Arr([]));
    MinusOne();
    assert tokens[..1] == [KEY_A] && BeforeTheFirst(doc, tokens, 1);
    AddOutsideExactly(doc, tokens, v);
    assert short == [KEY_A] + [minus];
    AddIsLocal(doc, [KEY_A], minus, v);
  }

  // ---------- malformed patches ----------

  /** The operations of RFC 6902. */
  lemma NamesAre()
    ensures Spells(ADD, "add") && Spells(REMOVE, "remove") && Spells(REPLACE, "replace")
    ensures Spells(MOVE, "move") && Spells(COPY, "copy") && Spells(TEST, "test")
    ensures Spells(OP, "op") && Spells(PATH, "path") && Spells(VALUE, "value") && Spells(FROM, "from")
  {}

  predicate HasString(entry: Json, name: Bytes)
  {
    entry.Obj? && Find(entry.members, name).Some? && Find(entry.members, name).value.Str?
  }

  function StringOf(entry: Json, name: Bytes): Bytes
    requires HasString(entry, name)
  {
    Find(entry.members, name).value.s
  }

  predicate NeedsValue(op: Bytes)
  {
    op == ADD || op == REPLACE
  }

  predicate NeedsFrom(op: Bytes)
  {
    op == MOVE || op == COPY
  }

  /** A patch that is no array, and an operation without its mandatory members, are invalid arguments. */
  lemma MalformedThrows(doc: Json, patch: Json)
    ensures !patch.Arr? ==> Patched(doc, patch) == Err(InvalidArgument)
    ensures !HasString(patch, OP) || !HasString(patch, PATH) ==> PatchOperation(doc, patch) == Err(InvalidArgument)
    ensures HasString(patch, OP) && HasString(patch, PATH) && Split(StringOf(patch, PATH)).Ok? ==>
      var op, r := StringOf(patch, OP), PatchOperation(doc, patch);
      && (NeedsValue(op) && Find(patch.members, VALUE) == None ==> r == Err(InvalidArgument))
      && (NeedsFrom(op) && !HasString(patch, FROM) ==> r == Err(InvalidArgument))
      && (op != ADD && op != REMOVE && op != REPLACE && op != MOVE && op != COPY && op != TEST ==>
        r == Err(InvalidArgument))
  {
    hide Split, Find, AddAt, AssignAt, RemoveAt, ReplaceAt, At, Eq;
    OpsDiffer();
    assert |REMOVE| != |REPLACE|;
  }

  /** Pointers that are none throw `std::domain_error`. */
  lemma BadPointerThrows(doc: Json, entry: Json)
    requires HasString(entry, OP) && HasString(entry, PATH) && Split(StringOf(entry, PATH)).Err?
    ensures PatchOperation(doc, entry) == Err(DomainError)
  {
    hide Split, Find, AddAt, AssignAt, RemoveAt, ReplaceAt, At, Eq;
    SplitThrows(StringOf(entry, PATH));
  }

  /** An unsuccessful "test" throws `std::domain_error`, also when its target does not exist. */
  lemma FailedTestThrows(doc: Json, tokens: seq<Bytes>, v: Json)
    ensures var r := PatchOperation(doc, TestEntry(ToString(tokens), v));
      if At(doc, tokens).Ok? then r == if Eq(At(doc, tokens).value, v) then Ok(doc) else Err(DomainError)
      else r == if At(doc, tokens) == Err(OutOfRange) then Err(DomainError) else At(doc, tokens)
  {
    hide ToString, Split, At, Eq, LowerBound, Find, TestEntry;
    TestEntryMembers(ToString(tokens), v);
    TestIsNoOther();
    SplitOfToString(tokens);
    TestEntryIsObject(ToString(tokens), v);
  }
}

/** What assigning through a pointer changes in a document, seen by looking other pointers up. */
module AccessEffects {
  import opened ByteStrings
  import opened Wrappers
  import opened JsonValues
  import opened Decimals
  import opened Access
  import opened Flatten
  import opened CopyLaws

  // ---------- checked access ----------

  /** Two pointers part ways in a document, at a step that the first one can take. */
  predicate Apart(j: Json, tokens: seq<Bytes>, other: seq<Bytes>)
    decreases |tokens|
  {
    && tokens != [] && other != []
    && Locate(j, tokens[0]).Ok?
    && (Locate(j, other[0]) == Locate(j, tokens[0]) ==>
      Apart(Child(j, Locate(j, tokens[0]).value), tokens[1..], other[1..]))
  }

  /** Nothing else has changed: every pointer that parts ways with the given one finds what it found before. */
  ghost predicate SameElsewhere(j: Json, r: Json, tokens: seq<Bytes>)
  {
    forall other :: Apart(j, tokens, other) ==> At(r, other) == At(j, other)
  }

  lemma OtherChild(j: Json, p: nat, c: Json, q: nat)
    requires HasChild(j, p) && HasChild(j, q) && p != q
    ensures HasChild(WithChild(j, p, c), q) && Child(WithChild(j, p, c), q) == Child(j, q)
  {}

  lemma {:induction false} ReplaceElsewhereAt(j: Json, tokens: seq<Bytes>, v: Json, other: seq<Bytes>)
    requires ReplaceAt(j, tokens, v).Ok? && Apart(j, tokens, other)
    ensures At(ReplaceAt(j, tokens, v).value, other) == At(j, other)
    decreases |tokens|
  {
    hide Locate, Child, WithChild;
    var p, q := Locate(j, tokens[0]).value, Locate(j, other[0]);
    var c := ReplaceAt(Child(j, p), tokens[1..], v).value;
    LocateWithChild(j, p, c, other[0]);
    if q == Ok(p) {
      ReplaceElsewhereAt(Child(j, p), tokens[1..], v, other[1..]);
    } else if q.Ok? {
      OtherChild(j, p, c, q.value);
    }
  }

  /** Assigning at a pointer changes what it leads to, and nothing that is reached in another way. */
  lemma ReplaceEffect(j: Json, tokens: seq<Bytes>, v: Json)
    requires ReplaceAt(j, tokens, v).Ok?
    ensures At(ReplaceAt(j, tokens, v).value, tokens) == Ok(v)
    ensures SameElsewhere(j, ReplaceAt(j, tokens, v).value, tokens)
  {
    ReplaceThenAt(j, tokens, v, v);
    forall other | Apart(j, tokens, other)
      ensures At(ReplaceAt(j, tokens, v).value, other) == At(j, other)
    {
      ReplaceElsewhereAt(j, tokens, v, other);
    }
  }

  /** A member is found under its name and under no other. */
  lemma AtFindsMember(ms: Members<Json>, name: Bytes)
    ensures At(Obj(ms), [name]) == if Find(ms, name).Some? then Ok(Find(ms, name).value) else Err(OutOfRange)
  {
    var tokens := [name];
    assert tokens[1..] == [];
    FindIs(ms, name);
    if HasKey(ms, name) {
      assert At(ms[LowerBound(ms, name)].value, []) == Ok(ms[LowerBound(ms, name)].value);
    }
  }

  // ---------- access that creates ----------

  /** A container with room for a child at a position: nulls fill up an array, a new member of an object is null. */
  predicate Grown(j: Json, r: Json, token: Bytes, p: nat)
  {
    match r
    case Arr(fs) =>
      var es := if j.Arr? then j.elems else [];
      && (j.Arr? || j.Null?)
      && |fs| == (if p < |es| then |es| else p + 1)
      && forall k | 0 <= k < |fs| :: fs[k] == if k < |es| then es[k] else Null
    case Obj(ns) =>
      var ms: Members<Json> := if j.Obj? then j.members else [];
      && (j.Obj? || j.Null?)
      && p < |ns| && ns[p].key == token && LowerBound(ns, token) == p
      && ns == if HasKey(ms, token) then ms else Insert(ms, token, Null)
    case _ => false
  }

  lemma ObjectSlotGrows(j: Json, ms: Members<Json>, token: Bytes)
    requires j == Obj(ms) || (j == Null && ms == [])
    ensures var slot := ObjectSlot(ms, token); Grown(j, slot.0, token, slot.1)
  {
    if HasKey(ms, token) {
      LowerBoundAt(ms, LowerBound(ms, token));
    } else {
      LowerBoundAt(Insert(ms, token, Null), LowerBound(ms, token));
    }
  }

  lemma StepGrows(j: Json, token: Bytes)
    requires StepUnchecked(j, token).Ok?
    ensures var slot := StepUnchecked(j, token).value;
      && Grown(j, slot.0, token, slot.1)
      && (slot.0.Arr? ==>
        if token == [MINUS] then slot.1 == if j.Arr? then |j.elems| else 0
        else !LeadingZero(token) && Stoi(token) == Ok(slot.1))
      && (j.Null? ==> (slot.0.Arr? <==> AllDigits(token) || token == [MINUS]))
  {
    hide Stoi, AllDigits, LowerBound;
    match j
    case Obj(ms) => ObjectSlotGrows(j, ms, token);
    case Null =>
      if !AllDigits(token) && token != [MINUS] {
        ObjectSlotGrows(j, [], token);
      }
    case _ =>
  }

  /** The same for `get_and_create`: null becomes an array for the token "0" and an object for all others. */
  lemma CreateGrows(j: Json, token: Bytes)
    requires StepCreate(j, token).Ok?
    ensures var slot := StepCreate(j, token).value;
      && Grown(j, slot.0, token, slot.1)
      && (slot.0.Arr? ==> if j.Null? then slot.1 == 0 && token == ['0' as int] else Stoi(token) == Ok(slot.1))
      && (j.Null? ==> (slot.0.Arr? <==> token == ['0' as int]))
  {
    hide Stoi, LowerBound;
    match j
    case Obj(ms) => ObjectSlotGrows(j, ms, token);
    case Null =>
      if token != INDEX0 {
        ObjectSlotGrows(j, [], token);
      }
    case _ =>
  }

  /** What was found before is found in the grown container, at another place than the new child. */
  lemma GrownKeeps(j: Json, r: Json, token: Bytes, p: nat, t: Bytes)
    requires Grown(j, r, token, p) && Locate(j, t).Ok?
    ensures Locate(r, t).Ok? && Child(r, Locate(r, t).value) == Child(j, Locate(j, t).value)
    ensures Locate(r, t).value == p && r.Arr? ==> Locate(j, t) == Ok(p)
    ensures Locate(r, t).value == p && r.Obj? ==> t == token
  {
    hide Stoi, LowerBound;
    if r.Obj? {
      var ms, ns := j.members, r.members;
      FindIs(ms, t);
      if !HasKey(ms, token) {
        FindAfterInsert(ms, token, Null, t);
      }
      FindIs(ns, t);
    }
  }

  lemma FindIs(ms: Members<Json>, t: Bytes)
    ensures HasKey(ms, t) <==> Find(ms, t).Some?
    ensures HasKey(ms, t) ==> LowerBound(ms, t) < |ms| && ms[LowerBound(ms, t)].key == t
    ensures HasKey(ms, t) ==> Find(ms, t) == Some(ms[LowerBound(ms, t)].value)
  {}

  // ---------- assigning with unchecked access ----------

  /** No token on the way appends to an array with "-". */
  predicate NoAppend(j: Json, tokens: seq<Bytes>)
    decreases |tokens|
  {
    if tokens == [] then true
    else
      var slot := StepUnchecked(j, tokens[0]);
      && slot.Ok?
      && (slot.value.0.Arr? ==> tokens[0] != [MINUS])
      && NoAppend(Child(slot.value.0, slot.value.1), tokens[1..])
  }

  lemma AssignLocated(j: Json, token: Bytes)
    requires StepUnchecked(j, token).Ok?
    ensures var slot := StepUnchecked(j, token).value;
      if slot.0.Arr? && !(token != [MINUS]) then Locate(slot.0, token).Err?
      else Locate(slot.0, token) == Ok(slot.1)
  {
    hide Stoi, LowerBound, AllDigits;
    StepGrows(j, token);
    NoDigitsBehindMinus();
    StoiOfDecimal(0);
  }

  /** What is assigned is found at the same pointer, exactly when no token appends: `at` knows no element "-". */
  lemma {:induction false} AssignThenAt(j: Json, tokens: seq<Bytes>, v: Json)
    requires AssignAt(j, tokens, v).Ok?
    ensures At(AssignAt(j, tokens, v).value, tokens) == Ok(v) <==> NoAppend(j, tokens)
    decreases |tokens|
  {
    hide StepUnchecked, Locate, Child, WithChild;
    if tokens != [] {
      var slot := StepUnchecked(j, tokens[0]).value;
      var child := Child(slot.0, slot.1);
      var c := AssignAt(child, tokens[1..], v).value;
      AssignLocated(j, tokens[0]);
      LocateWithChild(slot.0, slot.1, c, tokens[0]);
      AssignThenAt(child, tokens[1..], v);
    }
  }

  /** A pointer that finds something parts ways with one that is assigned through. */
  predicate AssignApart(j: Json, tokens: seq<Bytes>, other: seq<Bytes>)
    decreases |tokens|
  {
    && tokens != [] && other != []
    && Locate(j, other[0]).Ok? && StepUnchecked(j, tokens[0]).Ok?
    && var slot := StepUnchecked(j, tokens[0]).value;
      Locate(slot.0, other[0]) == Ok(slot.1) ==> AssignApart(Child(slot.0, slot.1), tokens[1..], other[1..])
  }

  /** Such a pointer finds what it found before. */
  lemma {:induction false} AssignElsewhere(j: Json, tokens: seq<Bytes>, v: Json, other: seq<Bytes>)
    requires AssignAt(j, tokens, v).Ok? && AssignApart(j, tokens, other)
    ensures At(AssignAt(j, tokens, v).value, other) == At(j, other)
    decreases |tokens|
  {
    hide StepUnchecked, Locate, Child, WithChild, Grown;
    var slot := StepUnchecked(j, tokens[0]).value;
    var child := Child(slot.0, slot.1);
    var c := AssignAt(child, tokens[1..], v).value;
    StepGrows(j, tokens[0]);
    GrownKeeps(j, slot.0, tokens[0], slot.1, other[0]);
    LocateWithChild(slot.0, slot.1, c, other[0]);
    var q := Locate(slot.0, other[0]).value;
    if q == slot.1 {
      AssignElsewhere(child, tokens[1..], v, other[1..]);
    } else {
      OtherChild(slot.0, slot.1, c, q);
    }
  }

  // ---------- `get_and_create` ----------

  /** No index on the way has a leading zero. */
  predicate NoLeadingZero(j: Json, tokens: seq<Bytes>)
    decreases |tokens|
  {
    if tokens == [] then true
    else
      var slot := StepCreate(j, tokens[0]);
      && slot.Ok?
      && (slot.value.0.Arr? ==> !LeadingZero(tokens[0]))
      && NoLeadingZero(Child(slot.value.0, slot.value.1), tokens[1..])
  }

  lemma CreateLocated(j: Json, token: Bytes)
    requires StepCreate(j, token).Ok?
    ensures var slot := StepCreate(j, token).value;
      if slot.0.Arr? && !(!LeadingZero(token)) then Locate(slot.0, token).Err?
      else Locate(slot.0, token) == Ok(slot.1)
  {
    hide Stoi, LowerBound, AllDigits;
    CreateGrows(j, token);
    NoDigitsBehindMinus();
    StoiOfDecimal(0);
  }

  /** What is created is found at the same pointer, exactly when no index has a leading zero, which `at` rejects. */
  lemma {:induction false} CreateThenAt(j: Json, tokens: seq<Bytes>, v: Json)
    requires CreateAt(j, tokens, v).Ok?
    ensures At(CreateAt(j, tokens, v).value, tokens) == Ok(v) <==> NoLeadingZero(j, tokens)
    decreases |tokens|
  {
    hide StepCreate, Locate, Child, WithChild;
    if tokens != [] {
      var slot := StepCreate(j, tokens[0]).value;
      var child := Child(slot.0, slot.1);
      var c := CreateAt(child, tokens[1..], v).value;
      CreateLocated(j, tokens[0]);
      LocateWithChild(slot.0, slot.1, c, tokens[0]);
      CreateThenAt(child, tokens[1..], v);
    }
  }

  /** A pointer that finds something parts ways with one that is assigned through. */
  predicate CreateApart(j: Json, tokens: seq<Bytes>, other: seq<Bytes>)
    decreases |tokens|
  {
    && tokens != [] && other != []
    && Locate(j, other[0]).Ok? && StepCreate(j, tokens[0]).Ok?
    && var slot := StepCreate(j, tokens[0]).value;
      Locate(slot.0, other[0]) == Ok(slot.1) ==> CreateApart(Child(slot.0, slot.1), tokens[1..], other[1..])
  }

  /** Such a pointer finds what it found before. */
  lemma {:induction false} CreateElsewhere(j: Json, tokens: seq<Bytes>, v: Json, other: seq<Bytes>)
    requires CreateAt(j, tokens, v).Ok? && CreateApart(j, tokens, other)
    ensures At(CreateAt(j, tokens, v).value, other) == At(j, other)
    decreases |tokens|
  {
    hide StepCreate, Locate, Child, WithChild, Grown;
    var slot := StepCreate(j, tokens[0]).value;
    var child := Child(slot.0, slot.1);
    var c := CreateAt(child, tokens[1..], v).value;
    CreateGrows(j, tokens[0]);
    GrownKeeps(j, slot.0, tokens[0], slot.1, other[0]);
    LocateWithChild(slot.0, slot.1, c, other[0]);
    var q := Locate(slot.0, other[0]).value;
    if q == slot.1 {
      CreateElsewhere(child, tokens[1..], v, other[1..]);
    } else {
      OtherChild(slot.0, slot.1, c, q);
    }
  }
}

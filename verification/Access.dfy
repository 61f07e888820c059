/** Element access: `at`, `operator[]`, and JSON Pointers followed through a document. */
module Access {
  import opened ByteStrings
  import opened Wrappers
  import opened JsonValues
  import opened Decimals

  // ---------- children by position ----------

  predicate HasChild(j: Json, p: nat)
  {
    match j
    case Arr(es) => p < |es|
    case Obj(ms) => p < |ms|
    case _ => false
  }

  function Child(j: Json, p: nat): (c: Json)
    requires HasChild(j, p)
    ensures c < j
  {
    if j.Arr? then j.elems[p] else j.members[p].value
  }

  /** The same container with another value at one position. */
  function WithChild(j: Json, p: nat, c: Json): (r: Json)
    requires HasChild(j, p)
    ensures HasChild(r, p) && Child(r, p) == c
  {
    if j.Arr? then Arr(j.elems[p := c]) else Obj(SetValue(j.members, p, c))
  }

  lemma WithChildTwice(j: Json, p: nat, c: Json, d: Json)
    requires HasChild(j, p)
    ensures WithChild(WithChild(j, p, c), p, d) == WithChild(j, p, d)
  {}

  lemma WithSameChild(j: Json, p: nat)
    requires HasChild(j, p)
    ensures WithChild(j, p, Child(j, p)) == j
  {}

  // ---------- checked access ----------

  /** One step of `get_checked`. A negative index becomes a huge `size_type` and fails the range check. */
  function Locate(j: Json, token: Bytes): (r: Result<nat>)
    ensures r.Ok? ==> HasChild(j, r.value)
  {
    match j
    case Obj(ms) =>
      if HasKey(ms, token) then Ok(LowerBound(ms, token)) else Err(OutOfRange)
    case Arr(es) =>
      if token == [MINUS] then Err(OutOfRange)
      else if |token| > 1 && token[0] == ZERO then Err(DomainError)
      else
        var i :- Stoi(token);
        if 0 <= i < |es| then Ok(i) else Err(OutOfRange)
    case _ => Err(OutOfRange)
  }

  /** `at(pointer)` as a value. */
  function At(j: Json, tokens: seq<Bytes>): Result<Json>
  {
    if tokens == [] then Ok(j)
    else
      var p :- Locate(j, tokens[0]);
      At(Child(j, p), tokens[1..])
  }

  /** The document after `at(pointer) = v`. */
  function ReplaceAt(j: Json, tokens: seq<Bytes>, v: Json): Result<Json>
  {
    if tokens == [] then Ok(v)
    else
      var p :- Locate(j, tokens[0]);
      var c :- ReplaceAt(Child(j, p), tokens[1..], v);
      Ok(WithChild(j, p, c))
  }

  // ---------- unchecked access ----------

  function Nulls(n: nat): (r: seq<Json>)
    ensures |r| == n
  {
    seq(n, _ => Null)
  }

  /**
   `operator[](size_type)` on an array: fills up with nulls. A negative index wraps, and so does the number of nulls:
   it is more than a vector can hold, or, for index -1 of an empty array, none at all, and the access is outside.
   */
  function ArraySlot(es: seq<Json>, i: int): (r: Result<(Json, nat)>)
    ensures r.Ok? ==> HasChild(r.value.0, r.value.1)
  {
    if i < 0 then Err(if i == -1 && es == [] then UndefinedBehaviour else LengthError)
    else if i < |es| then Ok((Arr(es), i))
    else Ok((Arr(es + Nulls(i - |es| + 1)), i))
  }

  /** `operator[](key)` on an object: adds a null when the key is missing. */
  function ObjectSlot(ms: Members<Json>, k: Bytes): (r: (Json, nat))
    ensures HasChild(r.0, r.1)
  {
    var p := LowerBound(ms, k);
    if HasKey(ms, k) then (Obj(ms), p) else (Obj(Insert(ms, k, Null)), p)
  }

  /** One step of the non-const `get_unchecked`: the container with the slot created, and its position. */
  function StepUnchecked(j: Json, token: Bytes): (r: Result<(Json, nat)>)
    ensures r.Ok? ==> HasChild(r.value.0, r.value.1)
  {
    var c :=
      if !j.Null? then j
      else if AllDigits(token) || token == [MINUS] then Arr([])
      else Obj([]);
    match c
    case Obj(ms) => Ok(ObjectSlot(ms, token))
    case Arr(es) =>
      if |token| > 1 && token[0] == ZERO then Err(DomainError)
      else if token == [MINUS] then ArraySlot(es, |es|)
      else
        var i :- Stoi(token);
        ArraySlot(es, i)
    case _ => Err(OutOfRange)
  }

  /** The document after `operator[](pointer) = v`. */
  function AssignAt(j: Json, tokens: seq<Bytes>, v: Json): Result<Json>
    decreases |tokens|
  {
    if tokens == [] then Ok(v)
    else
      var slot :- StepUnchecked(j, tokens[0]);
      var c :- AssignAt(Child(slot.0, slot.1), tokens[1..], v);
      Ok(WithChild(slot.0, slot.1, c))
  }

  // ---------- laws ----------

  /** Changing a child does not move it. */
  lemma LocateWithChild(j: Json, p: nat, c: Json, token: Bytes)
    requires HasChild(j, p)
    ensures Locate(WithChild(j, p, c), token) == Locate(j, token)
  {
    if j.Obj? {
      var ms, ns := j.members, SetValue(j.members, p, c);
      assert forall i :: 0 <= i < |ms| ==> ns[i].key == ms[i].key;
      LowerBoundUnique(ns, token, LowerBound(ms, token));
    }
  }

  /** A step that checked access can take, unchecked access takes without creating anything. */
  lemma UncheckedFollowsChecked(j: Json, token: Bytes)
    requires Locate(j, token).Ok?
    ensures StepUnchecked(j, token) == Ok((j, Locate(j, token).value))
  {}

  /** Replacing at a longer pointer is replacing the container one step up. */
  lemma {:induction false} ReplaceBelow(j: Json, tokens: seq<Bytes>, s: Json, token: Bytes, c: Json)
    requires At(j, tokens) == Ok(s)
    ensures ReplaceAt(j, tokens + [token], c) ==
      if Locate(s, token).Err? then Err(Locate(s, token).error)
      else ReplaceAt(j, tokens, WithChild(s, Locate(s, token).value, c))
  {
    var all := tokens + [token];
    if tokens == [] {
      assert all[1..] == [];
    } else {
      assert all[1..] == tokens[1..] + [token];
      ReplaceBelow(Child(j, Locate(j, tokens[0]).value), tokens[1..], s, token, c);
    }
  }

  /** `at(pointer)` as an assignment target fails exactly when it fails as a value. */
  lemma {:induction false} ReplaceWhereFound(j: Json, tokens: seq<Bytes>, v: Json)
    ensures var r := At(j, tokens); if r.Err? then ReplaceAt(j, tokens, v) == r else ReplaceAt(j, tokens, v).Ok?
  {
    if tokens != [] && Locate(j, tokens[0]).Ok? {
      ReplaceWhereFound(Child(j, Locate(j, tokens[0]).value), tokens[1..], v);
    }
  }

  /** What was put somewhere is found there, and can be replaced again. */
  lemma {:induction false} ReplaceThenAt(j: Json, tokens: seq<Bytes>, v: Json, w: Json)
    requires ReplaceAt(j, tokens, v).Ok?
    ensures At(ReplaceAt(j, tokens, v).value, tokens) == Ok(v)
    ensures ReplaceAt(ReplaceAt(j, tokens, v).value, tokens, w) == ReplaceAt(j, tokens, w)
  {
    if tokens != [] {
      var p := Locate(j, tokens[0]).value;
      var c := ReplaceAt(Child(j, p), tokens[1..], v).value;
      ReplaceThenAt(Child(j, p), tokens[1..], v, w);
      LocateWithChild(j, p, c, tokens[0]);
      if ReplaceAt(c, tokens[1..], w).Ok? {
        WithChildTwice(j, p, c, ReplaceAt(c, tokens[1..], w).value);
      }
    }
  }

  /** Putting back what is there changes nothing. */
  lemma {:induction false} ReplaceBySame(j: Json, tokens: seq<Bytes>)
    requires At(j, tokens).Ok?
    ensures ReplaceAt(j, tokens, At(j, tokens).value) == Ok(j)
  {
    if tokens != [] {
      var p := Locate(j, tokens[0]).value;
      ReplaceBySame(Child(j, p), tokens[1..]);
      WithSameChild(j, p);
    }
  }

  lemma {:induction false} AtLonger(j: Json, tokens: seq<Bytes>, token: Bytes)
    requires At(j, tokens).Ok?
    ensures At(j, tokens + [token]) == At(At(j, tokens).value, [token])
  {
    var all := tokens + [token];
    if tokens == [] {
      assert all == [token];
    } else {
      assert all[1..] == tokens[1..] + [token];
      AtLonger(Child(j, Locate(j, tokens[0]).value), tokens[1..], token);
    }
  }

  /** The decimal text of an index finds that element, exactly when the index fits into an int. */
  lemma {:induction false} LocateIndex(es: seq<Json>, i: nat)
    ensures Locate(Arr(es), ToDecimal(i)) ==
      if i <= INT32_MAX && i < |es| then Ok(i) else Err(OutOfRange)
  {
    StoiOfDecimal(i);
  }
}

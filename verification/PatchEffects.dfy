/** What the operations of a patch put where: the parent of the target, child by child, and everything else. */
module PatchEffects {
  import opened ByteStrings
  import opened Wrappers
  import opened JsonValues
  import opened Decimals
  import opened JsonPointer
  import opened Access
  import opened AccessEffects
  import opened Patch
  import opened CopyLaws

  // ---------- children ----------

  /** One more element, at index `i`; the ones from there on have moved up. */
  predicate Inserted(es: seq<Json>, r: Json, i: nat, v: Json)
    requires i <= |es|
  {
    && r.Arr?
    && |r.elems| == |es| + 1
    && forall k | 0 <= k < |r.elems| :: r.elems[k] == if k < i then es[k] else if k == i then v else es[k - 1]
  }

  /** One element less; the ones behind it have moved down. */
  predicate Erased(es: seq<Json>, r: Json, i: nat)
    requires i < |es|
  {
    && r.Arr?
    && |r.elems| == |es| - 1
    && forall k | 0 <= k < |r.elems| :: r.elems[k] == if k < i then es[k] else es[k + 1]
  }

  /** An element at index `i`, with nulls in front of it where the array has been too short. */
  predicate Assigned(es: seq<Json>, r: Json, i: nat, v: Json)
  {
    && r.Arr?
    && |r.elems| == (if i < |es| then |es| else i + 1)
    && forall k | 0 <= k < |r.elems| :: r.elems[k] == if k == i then v else if k < |es| then es[k] else Null
  }

  /** The object has this value, or none, under the name, and is as before under all other names. */
  ghost predicate HasInstead(ms: Members<Json>, r: Json, name: Bytes, v: Option<Json>)
  {
    r.Obj? && forall k: Bytes :: Find(r.members, k) == if k == name then v else Find(ms, k)
  }

  lemma AddsChild(parent: Json, last: Bytes, v: Json)
    ensures parent.Arr? && last == [MINUS] ==>
      AddChild(parent, last, v).Ok? && Inserted(parent.elems, AddChild(parent, last, v).value, |parent.elems|, v)
    ensures parent.Arr? && last != [MINUS] && Stoi(last).Ok? && 0 <= Stoi(last).value <= |parent.elems| ==>
      AddChild(parent, last, v).Ok? && Inserted(parent.elems, AddChild(parent, last, v).value, Stoi(last).value, v)
    ensures parent.Obj? || parent.Null? ==>
      && AddChild(parent, last, v).Ok?
      && HasInstead(if parent.Obj? then parent.members else [], AddChild(parent, last, v).value, last, Some(v))
  {
    hide Stoi, Find, Insert;
    if parent.Obj? || parent.Null? {
      var ms: Members<Json> := if parent.Obj? then parent.members else [];
      forall k: Bytes
        ensures Find(Insert(ms, last, v), k) == if k == last then Some(v) else Find(ms, k)
      {
        FindAfterInsert(ms, last, v, k);
      }
    }
  }

  lemma RemovesChild(parent: Json, last: Bytes)
    ensures parent.Arr? && Stoi(last).Ok? && 0 <= Stoi(last).value < |parent.elems| ==>
      RemoveChild(parent, last).Ok? && Erased(parent.elems, RemoveChild(parent, last).value, Stoi(last).value)
    ensures parent.Obj? && HasKey(parent.members, last) ==>
      RemoveChild(parent, last).Ok? && HasInstead(parent.members, RemoveChild(parent, last).value, last, None)
  {
    hide Stoi, Find, Erase, LowerBound;
    if parent.Obj? && HasKey(parent.members, last) {
      forall k: Bytes
        ensures Find(Erase(parent.members, last), k) == if k == last then None else Find(parent.members, k)
      {
        FindAfterErase(parent.members, last, k);
      }
    }
  }

  lemma AssignsChild(parent: Json, last: Bytes, v: Json)
    ensures parent.Arr? && last == [MINUS] ==>
      && AssignAt(parent, [last], v).Ok?
      && Assigned(parent.elems, AssignAt(parent, [last], v).value, |parent.elems|, v)
    ensures parent.Arr? && last != [MINUS] && !LeadingZero(last) && Stoi(last).Ok? && Stoi(last).value >= 0 ==>
      && AssignAt(parent, [last], v).Ok?
      && Assigned(parent.elems, AssignAt(parent, [last], v).value, Stoi(last).value, v)
    ensures parent.Obj? ==>
      && AssignAt(parent, [last], v).Ok?
      && HasInstead(parent.members, AssignAt(parent, [last], v).value, last, Some(v))
  {
    hide Stoi, Find, Insert, LowerBound;
    var tokens := [last];
    assert tokens[1..] == [];
    if parent.Obj? {
      SlotThenValue(parent.members, last, v);
      AddsChild(parent, last, v);
    }
  }

  // ---------- operations ----------

  /** The outcome has a new value where the pointer leads, and is as before everywhere else. */
  ghost predicate Changed(doc: Json, r: Result<Json>, tokens: seq<Bytes>, v: Json)
  {
    r.Ok? && At(r.value, tokens) == Ok(v) && SameElsewhere(doc, r.value, tokens)
  }

  lemma InsideEffect(doc: Json, tokens: seq<Bytes>, change: Result<Json>)
    requires At(doc, tokens).Ok? && change.Ok?
    ensures Changed(doc, Inside(doc, tokens, change), tokens, change.value)
  {
    hide At, ReplaceAt, SameElsewhere;
    ReplaceWhereFound(doc, tokens, change.value);
    ReplaceEffect(doc, tokens, change.value);
  }

  /**
   "add" to an array that exists: for an index of at most its length, and for "-", the value is there, the elements in
   front of it keep their index, those behind it move up by one, and the rest of the document is as before.
   */
  lemma AddInserts(doc: Json, tokens: seq<Bytes>, es: seq<Json>, last: Bytes, i: nat, v: Json)
    requires At(doc, tokens) == Ok(Arr(es)) && i <= |es|
    requires if last == [MINUS] then i == |es| else Stoi(last) == Ok(i)
    ensures exists parent ::
      && Inserted(es, parent, i, v)
      && Changed(doc, PatchOperation(doc, AddEntry(ToString(tokens + [last]), v)), tokens, parent)
  {
    hide At, ReplaceAt, PatchOperation, AddAt, AddEntry, ToString, AddChild, Inserted, Changed, Stoi;
    AddEntryWorks(doc, tokens + [last], v);
    AddIsLocal(doc, tokens, last, v);
    AddsChild(Arr(es), last, v);
    InsideEffect(doc, tokens, AddChild(Arr(es), last, v));
  }

  /** The same for the decimal text of an index. */
  lemma AddInsertsAt(doc: Json, tokens: seq<Bytes>, es: seq<Json>, i: nat, v: Json)
    requires At(doc, tokens) == Ok(Arr(es)) && i <= |es| && i <= INT32_MAX
    ensures exists parent ::
      && Inserted(es, parent, i, v)
      && Changed(doc, PatchOperation(doc, AddEntry(ToString(tokens + [ToDecimal(i)]), v)), tokens, parent)
  {
    hide At, PatchOperation, AddEntry, ToString, Inserted, Changed;
    StoiOfDecimal(i);
    NoDigitsBehindMinus();
    AddInserts(doc, tokens, es, ToDecimal(i), i, v);
  }

  /** "add" to an object or to null: the value has the name, all other members and the rest are as before. */
  lemma AddPutsMember(doc: Json, tokens: seq<Bytes>, name: Bytes, v: Json)
    requires At(doc, tokens).Ok? && (At(doc, tokens).value.Obj? || At(doc, tokens).value.Null?)
    ensures var before := At(doc, tokens).value;
      exists parent ::
        && HasInstead(if before.Obj? then before.members else [], parent, name, Some(v))
        && Changed(doc, PatchOperation(doc, AddEntry(ToString(tokens + [name]), v)), tokens, parent)
  {
    hide At, ReplaceAt, PatchOperation, AddAt, AddEntry, ToString, AddChild, HasInstead, Changed;
    var before := At(doc, tokens).value;
    AddEntryWorks(doc, tokens + [name], v);
    AddIsLocal(doc, tokens, name, v);
    AddsChild(before, name, v);
    InsideEffect(doc, tokens, AddChild(before, name, v));
  }

  /** "add" and "replace" of the whole document, and "replace" of anything that exists. */
  lemma ReplacePuts(doc: Json, tokens: seq<Bytes>, v: Json)
    ensures PatchOperation(doc, AddEntry(ToString([]), v)) == Ok(v)
    ensures PatchOperation(doc, ReplaceEntry(ToString([]), v)) == Ok(v)
    ensures At(doc, tokens).Ok? ==> Changed(doc, PatchOperation(doc, ReplaceEntry(ToString(tokens), v)), tokens, v)
    ensures At(doc, tokens).Err? ==> PatchOperation(doc, ReplaceEntry(ToString(tokens), v)) == At(doc, tokens)
  {
    hide At, PatchOperation, AddEntry, ReplaceEntry, ToString, Changed;
    AddEntryWorks(doc, [], v);
    ReplaceEntryWorks(doc, [], v);
    ReplaceEntryWorks(doc, tokens, v);
    ReplaceWhereFound(doc, tokens, v);
    if At(doc, tokens).Ok? {
      InsideEffect(doc, tokens, Ok(v));
    }
  }

  /** "remove" from an array: the elements behind the index move down by one. */
  lemma RemoveErases(doc: Json, tokens: seq<Bytes>, es: seq<Json>, last: Bytes, i: nat)
    requires At(doc, tokens) == Ok(Arr(es)) && i < |es| && Stoi(last) == Ok(i)
    ensures exists parent ::
      && Erased(es, parent, i)
      && Changed(doc, PatchOperation(doc, RemoveEntry(ToString(tokens + [last]))), tokens, parent)
  {
    hide At, ReplaceAt, PatchOperation, RemoveAt, RemoveEntry, ToString, RemoveChild, Erased, Changed, Stoi;
    RemoveEntryWorks(doc, tokens + [last]);
    RemoveIsLocal(doc, tokens, last);
    RemovesChild(Arr(es), last);
    InsideEffect(doc, tokens, RemoveChild(Arr(es), last));
  }

  /** "remove" from an object: the name is gone, all other members and the rest are as before. */
  lemma RemoveDropsMember(doc: Json, tokens: seq<Bytes>, ms: Members<Json>, name: Bytes)
    requires At(doc, tokens) == Ok(Obj(ms)) && HasKey(ms, name)
    ensures exists parent ::
      && HasInstead(ms, parent, name, None)
      && Changed(doc, PatchOperation(doc, RemoveEntry(ToString(tokens + [name]))), tokens, parent)
  {
    hide At, ReplaceAt, PatchOperation, RemoveAt, RemoveEntry, ToString, RemoveChild, HasInstead, Changed;
    RemoveEntryWorks(doc, tokens + [name]);
    RemoveIsLocal(doc, tokens, name);
    RemovesChild(Obj(ms), name);
    InsideEffect(doc, tokens, RemoveChild(Obj(ms), name));
  }

  lemma AssignInside(doc: Json, tokens: seq<Bytes>, last: Bytes, v: Json)
    requires At(doc, tokens).Ok?
    ensures AssignAt(doc, tokens + [last], v) == Inside(doc, tokens, AssignAt(At(doc, tokens).value, [last], v))
  {
    hide At, ReplaceAt, AssignAt, Reach;
    ReachFollowsAt(doc, tokens);
    AssignIsLocal(doc, tokens, last, v);
    UncheckedWhereFound(doc, tokens, AssignAt(At(doc, tokens).value, [last], v));
  }

  /**
   "copy" into an array that exists: the element at the index is overwritten, or the array grows up to it with nulls;
   all other elements and the rest of the document are as before.
   */
  lemma CopyAssigns(doc: Json, from: seq<Bytes>, tokens: seq<Bytes>, es: seq<Json>, last: Bytes, i: nat)
    requires At(doc, from).Ok? && At(doc, tokens) == Ok(Arr(es))
    requires if last == [MINUS] then i == |es| else !LeadingZero(last) && Stoi(last) == Ok(i)
    ensures exists parent ::
      && Assigned(es, parent, i, At(doc, from).value)
      && Changed(doc, PatchOperation(doc, CopyEntry(ToString(from), ToString(tokens + [last]))), tokens, parent)
  {
    hide At, ReplaceAt, PatchOperation, AssignAt, CopyEntry, ToString, Assigned, Changed, Stoi;
    var v := At(doc, from).value;
    CopyEntryWorks(doc, from, tokens + [last]);
    AssignInside(doc, tokens, last, v);
    AssignsChild(Arr(es), last, v);
    InsideEffect(doc, tokens, AssignAt(Arr(es), [last], v));
  }

  /** "copy" into an object that exists. */
  lemma CopyPutsMember(doc: Json, from: seq<Bytes>, tokens: seq<Bytes>, ms: Members<Json>, name: Bytes)
    requires At(doc, from).Ok? && At(doc, tokens) == Ok(Obj(ms))
    ensures exists parent ::
      && HasInstead(ms, parent, name, Some(At(doc, from).value))
      && Changed(doc, PatchOperation(doc, CopyEntry(ToString(from), ToString(tokens + [name]))), tokens, parent)
  {
    hide At, ReplaceAt, PatchOperation, AssignAt, CopyEntry, ToString, HasInstead, Changed;
    var v := At(doc, from).value;
    CopyEntryWorks(doc, from, tokens + [name]);
    AssignInside(doc, tokens, name, v);
    AssignsChild(Obj(ms), name, v);
    InsideEffect(doc, tokens, AssignAt(Obj(ms), [name], v));
  }

  // ---------- "move" ----------

  function MoveEntry(from: Bytes, path: Bytes): Json
  {
    Obj([Member(FROM, Str(from)), Member(OP, Str(MOVE)), Member(PATH, Str(path))])
  }

  lemma MoveEntryMembers(from: Bytes, path: Bytes)
    ensures MoveEntry(from, path).Obj?
    ensures var ms := MoveEntry(from, path).members;
      Find(ms, FROM) == Some(Str(from)) && Find(ms, OP) == Some(Str(MOVE)) && Find(ms, PATH) == Some(Str(path))
  {
    var ms := MoveEntry(from, path).members;
    LowerBoundAt(ms, 0);
    LowerBoundAt(ms, 1);
    LowerBoundAt(ms, 2);
  }

  lemma MoveIsNoOther()
    ensures MOVE != ADD && MOVE != REMOVE && MOVE != REPLACE
  {
    assert |MOVE| != |ADD| && |MOVE| != |REMOVE| && |MOVE| != |REPLACE|;
  }

  /** "move" is a "remove" at "from", and then an "add" of the value that was there. */
  lemma MoveIsRemoveThenAdd(doc: Json, from: seq<Bytes>, tokens: seq<Bytes>)
    ensures var r := PatchOperation(doc, MoveEntry(ToString(from), ToString(tokens)));
      if At(doc, from).Err? then r == At(doc, from)
      else r == ApplyAll(doc, [RemoveEntry(ToString(from)), AddEntry(ToString(tokens), At(doc, from).value)])
  {
    hide ToString, Split, At, AddAt, RemoveAt, LowerBound, Find, MoveEntry, RemoveEntry, AddEntry;
    MoveEntryMembers(ToString(from), ToString(tokens));
    MoveIsNoOther();
    SplitOfToString(from);
    SplitOfToString(tokens);
    if At(doc, from).Ok? {
      var v := At(doc, from).value;
      var entries := [RemoveEntry(ToString(from)), AddEntry(ToString(tokens), v)];
      RemoveEntryWorks(doc, from);
      assert entries[1..] == [AddEntry(ToString(tokens), v)];
      if RemoveAt(doc, from).Ok? {
        var d := RemoveAt(doc, from).value;
        AddEntryWorks(d, tokens, v);
        ApplyOne(d, AddEntry(ToString(tokens), v));
      }
    }
  }
}

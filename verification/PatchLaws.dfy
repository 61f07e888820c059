/** What the operations of a patch do to each other. */
module PatchLaws {
  import opened ByteStrings
  import opened Wrappers
  import opened Sequences
  import opened JsonValues
  import opened Decimals
  import opened JsonPointer
  import opened Access
  import opened Compare
  import opened Patch

  /** A name that the parent does not have yet, or an index at which it can insert. */
  predicate Addable(parent: Json, last: Bytes)
  {
    match parent
    case Obj(ms) => !HasKey(ms, last)
    case Arr(es) => Stoi(last).Ok? && 0 <= Stoi(last).value <= |es| && last != [MINUS]
    case _ => false
  }

  lemma EraseAfterInsert(ms: Members<Json>, k: Bytes, v: Json)
    requires !HasKey(ms, k)
    ensures HasKey(Insert(ms, k, v), k) && Erase(Insert(ms, k, v), k) == ms
  {
    FindAfterInsert(ms, k, v, k);
    forall x: Bytes
      ensures Find(Erase(Insert(ms, k, v), k), x) == Find(ms, x)
    {
      FindAfterErase(Insert(ms, k, v), k, x);
      FindAfterInsert(ms, k, v, x);
    }
    SameLookups(Erase(Insert(ms, k, v), k), ms);
  }

  lemma EraseIndexAfterInsert(es: seq<Json>, i: nat, v: Json)
    requires i <= |es|
    ensures InsertIndex(es, i, v).Ok?
    ensures EraseIndex(InsertIndex(es, i, v).value.elems, i) == Ok(Arr(es))
  {
    var r := es[..i] + [v] + es[i..];
    assert r[..i] == es[..i] && r[i + 1..] == es[i..];
    Parts(es, i);
  }

  lemma RemoveChildUndoes(parent: Json, last: Bytes, v: Json)
    requires Addable(parent, last)
    ensures AddChild(parent, last, v).Ok? && RemoveChild(AddChild(parent, last, v).value, last) == Ok(parent)
  {
    hide Insert, Erase, Stoi;
    if parent.Obj? {
      EraseAfterInsert(parent.members, last, v);
    } else {
      EraseIndexAfterInsert(parent.elems, Stoi(last).value, v);
    }
  }

  /** "remove" undoes "add" at the same pointer: the document is exactly what it was. */
  lemma RemoveUndoesAdd(doc: Json, tokens: seq<Bytes>, last: Bytes, v: Json)
    requires At(doc, tokens).Ok? && Addable(At(doc, tokens).value, last)
    ensures var path := ToString(tokens + [last]); ApplyAll(doc, [AddEntry(path, v), RemoveEntry(path)]) == Ok(doc)
  {
    hide At, ReplaceAt, AddChild, RemoveChild, ApplyAll, ToString, AddEntry, RemoveEntry, Addable;
    var path, parent := ToString(tokens + [last]), At(doc, tokens).value;
    RemoveChildUndoes(parent, last, v);
    var parent' := AddChild(parent, last, v).value;
    var d := Change(doc, tokens, parent', parent);
    AddEntryIsLocal(doc, tokens, last, v);
    RemoveEntryIsLocal(d, tokens, last);
    ReplaceBySame(doc, tokens);
    ApplyConcat(doc, [AddEntry(path, v)], [RemoveEntry(path)]);
    assert [AddEntry(path, v), RemoveEntry(path)] == [AddEntry(path, v)] + [RemoveEntry(path)];
  }

  /** The operation object of a "test". */
  function TestEntry(path: Bytes, v: Json): Json
  {
    Obj([Member(OP, Str(TEST)), Member(PATH, Str(path)), Member(VALUE, v)])
  }

  lemma TestEntryMembers(path: Bytes, v: Json)
    ensures var ms := TestEntry(path, v).members;
      Find(ms, OP) == Some(Str(TEST)) && Find(ms, PATH) == Some(Str(path)) && Find(ms, VALUE) == Some(v)
  {
    EntryMembers(TestEntry(path, v).members);
  }

  lemma TestIsNoOther()
    ensures TEST != ADD && TEST != REMOVE && TEST != REPLACE && TEST != MOVE && TEST != COPY
  {
    assert TEST[0] != MOVE[0] && TEST[0] != COPY[0];
    assert |TEST| != |ADD| && |TEST| != |REMOVE| && |TEST| != |REPLACE|;
  }

  /** "test" succeeds exactly when the pointer leads to an equal value, and never changes the document. */
  lemma {:induction false} TestIsEquality(doc: Json, tokens: seq<Bytes>, v: Json)
    ensures var r := PatchOperation(doc, TestEntry(ToString(tokens), v));
      (r == Ok(doc) <==> At(doc, tokens).Ok? && Eq(At(doc, tokens).value, v)) && (r.Ok? ==> r == Ok(doc))
  {
    hide ToString, Split, At, Eq, LowerBound, Find, TestEntry;
    TestEntryMembers(ToString(tokens), v);
    TestIsNoOther();
    SplitOfToString(tokens);
    TestEntryIsObject(ToString(tokens), v);
  }

  lemma TestEntryIsObject(path: Bytes, v: Json)
    ensures TestEntry(path, v).Obj?
  {}

  /** After "replace", the same pointer tests equal to the new value. */
  lemma ReplaceThenTest(doc: Json, tokens: seq<Bytes>, v: Json, d: Json)
    requires PatchOperation(doc, ReplaceEntry(ToString(tokens), v)) == Ok(d)
    ensures PatchOperation(d, TestEntry(ToString(tokens), v)) == Ok(d)
  {
    hide PatchOperation, ToString, At, ReplaceAt, Eq, ReplaceEntry, TestEntry;
    ReplaceEntryWorks(doc, tokens, v);
    ReplaceWhereFound(doc, tokens, v);
    ReplaceThenAt(doc, tokens, v, v);
    EqReflexive(v);
    TestIsEquality(d, tokens, v);
  }
}

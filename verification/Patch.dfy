/** JSON Patch (RFC 6902): `patch` applies the operations of a patch document to a copy of a value. */
module Patch {
  import opened ByteStrings
  import opened Wrappers
  import opened Sequences
  import opened JsonValues
  import opened Decimals
  import opened JsonPointer
  import opened Access
  import opened Compare

  const OP: Bytes := ['o' as int, 'p' as int]
  const PATH: Bytes := ['p' as int, 'a' as int, 't' as int, 'h' as int]
  const VALUE: Bytes := ['v' as int, 'a' as int, 'l' as int, 'u' as int, 'e' as int]
  const FROM: Bytes := ['f' as int, 'r' as int, 'o' as int, 'm' as int]
  const ADD: Bytes := ['a' as int, 'd' as int, 'd' as int]
  const REMOVE: Bytes := ['r' as int, 'e' as int, 'm' as int, 'o' as int, 'v' as int, 'e' as int]
  const REPLACE: Bytes := ['r' as int, 'e' as int, 'p' as int, 'l' as int, 'a' as int, 'c' as int, 'e' as int]
  const MOVE: Bytes := ['m' as int, 'o' as int, 'v' as int, 'e' as int]
  const COPY: Bytes := ['c' as int, 'o' as int, 'p' as int, 'y' as int]
  const TEST: Bytes := ['t' as int, 'e' as int, 's' as int, 't' as int]

  // ---------- the operations ----------

  /** What "add" does to the parent of its target. */
  function AddChild(parent: Json, last: Bytes, v: Json): Result<Json>
  {
    match parent
    case Null => Ok(Obj(Insert([], last, v)))
    case Obj(ms) => Ok(Obj(Insert(ms, last, v)))
    case Arr(es) =>
      if last == [MINUS] then Ok(Arr(es + [v]))
      else
        var i :- Stoi(last);
        InsertIndex(es, i, v)
    case _ => Err(AssertionFailed)
  }

  function InsertIndex(es: seq<Json>, i: int, v: Json): Result<Json>
  {
    if i < 0 || i > |es| then Err(OutOfRange) else Ok(Arr(es[..i] + [v] + es[i..]))
  }

  /** The parent is reached with unchecked access, which may create it. */
  function AddBelow(j: Json, tokens: seq<Bytes>, v: Json): Result<Json>
    requires tokens != []
    decreases |tokens|
  {
    if |tokens| == 1 then AddChild(j, tokens[0], v)
    else
      var slot :- StepUnchecked(j, tokens[0]);
      var c :- AddBelow(Child(slot.0, slot.1), tokens[1..], v);
      Ok(WithChild(slot.0, slot.1, c))
  }

  /** "add": the first token must resolve unless it is the target itself. */
  function AddAt(j: Json, tokens: seq<Bytes>, v: Json): Result<Json>
  {
    if tokens == [] then Ok(v)
    else
      var top :- if |tokens| == 1 then Ok(j) else At(j, [tokens[0]]);
      AddBelow(j, tokens, v)
  }

  /** What "remove" does to the parent of its target; a parent that is not a container is left alone. */
  function RemoveChild(parent: Json, last: Bytes): Result<Json>
  {
    match parent
    case Obj(ms) => if HasKey(ms, last) then Ok(Obj(Erase(ms, last))) else Err(OutOfRange)
    case Arr(es) =>
      var i :- Stoi(last);
      EraseIndex(es, i)
    case _ => Ok(parent)
  }

  function EraseIndex(es: seq<Json>, i: int): Result<Json>
  {
    if 0 <= i < |es| then Ok(Arr(es[..i] + es[i + 1..])) else Err(OutOfRange)
  }

  function RemoveAt(j: Json, tokens: seq<Bytes>): Result<Json>
  {
    if tokens == [] then Err(DomainError)
    else if |tokens| == 1 then RemoveChild(j, tokens[0])
    else
      var p :- Locate(j, tokens[0]);
      var c :- RemoveAt(Child(j, p), tokens[1..]);
      Ok(WithChild(j, p, c))
  }

  /** A member of an operation object. */
  function GetValue(ms: Members<Json>, name: Bytes): Result<Json>
  {
    var v := Find(ms, name);
    if v.Some? then Ok(v.value) else Err(InvalidArgument)
  }

  function GetString(ms: Members<Json>, name: Bytes): Result<Bytes>
  {
    var v :- GetValue(ms, name);
    if v.Str? then Ok(v.s) else Err(InvalidArgument)
  }

  /** One operation of a patch. The right side of an assignment is evaluated first. */
  function PatchOperation(doc: Json, entry: Json): Result<Json>
  {
    if !entry.Obj? then Err(InvalidArgument)
    else
      var ms := entry.members;
      var op :- GetString(ms, OP);
      var path :- GetString(ms, PATH);
      var tokens :- Split(path);
      if op == ADD then
        var v :- GetValue(ms, VALUE);
        AddAt(doc, tokens, v)
      else if op == REMOVE then RemoveAt(doc, tokens)
      else if op == REPLACE then
        var v :- GetValue(ms, VALUE);
        ReplaceAt(doc, tokens, v)
      else if op == MOVE then
        var fromPath :- GetString(ms, FROM);
        var fromTokens :- Split(fromPath);
        var v :- At(doc, fromTokens);
        var removed :- RemoveAt(doc, fromTokens);
        AddAt(removed, tokens, v)
      else if op == COPY then
        var fromPath :- GetString(ms, FROM);
        var fromTokens :- Split(fromPath);
        var v :- At(doc, fromTokens);
        AssignAt(doc, tokens, v)
      else if op == TEST then
        var found := At(doc, tokens);
        if found == Err(OutOfRange) then Err(DomainError)
        else
          var target :- found;
          var v :- GetValue(ms, VALUE);
          if Eq(target, v) then Ok(doc) else Err(DomainError)
      else Err(InvalidArgument)
  }

  function ApplyAll(doc: Json, entries: seq<Json>): Result<Json>
    decreases |entries|
  {
    if entries == [] then Ok(doc)
    else
      var next :- PatchOperation(doc, entries[0]);
      ApplyAll(next, entries[1..])
  }

  /** `patch` */
  function Patched(doc: Json, patch: Json): Result<Json>
  {
    if patch.Arr? then ApplyAll(doc, patch.elems) else Err(InvalidArgument)
  }

  /** `patch` as written: a working copy changed by one operation after the other. */
  method PatchLoop(doc: Json, patch: Json) returns (r: Result<Json>)
    ensures r == Patched(doc, patch)
  {
    var result := doc;
    if !patch.Arr? {
      return Err(InvalidArgument);
    }
    var entries := patch.elems;
    assert entries[0..] == entries;
    for k := 0 to |entries|
      invariant ApplyAll(result, entries[k..]) == ApplyAll(doc, entries)
    {
      DropStep(entries, k);
      result :- PatchOperation(result, entries[k]);
    }
    return Ok(result);
  }

  // ---------- laws ----------

  function Then(r: Result<Json>, entries: seq<Json>): Result<Json>
  {
    if r.Ok? then ApplyAll(r.value, entries) else r
  }

  /** Two patches in a row. */
  lemma {:induction false} ApplyConcat(doc: Json, a: seq<Json>, b: seq<Json>)
    ensures ApplyAll(doc, a + b) == Then(ApplyAll(doc, a), b)
    decreases |a|
  {
    if a == [] {
      LeftUnit(b);
    } else {
      HeadTail(a);
      Assoc([a[0]], a[1..], b);
      ConsTail(a[0], a[1..] + b);
      var next := PatchOperation(doc, a[0]);
      if next.Ok? {
        ApplyConcat(next.value, a[1..], b);
      }
    }
  }

  lemma ApplyOne(doc: Json, entry: Json)
    ensures ApplyAll(doc, [entry]) == PatchOperation(doc, entry)
  {
    assert [entry][1..] == [];
  }

  /** The operation objects that `diff` writes. */
  function ReplaceEntry(path: Bytes, v: Json): Json
  {
    Obj([Member(OP, Str(REPLACE)), Member(PATH, Str(path)), Member(VALUE, v)])
  }

  function AddEntry(path: Bytes, v: Json): Json
  {
    Obj([Member(OP, Str(ADD)), Member(PATH, Str(path)), Member(VALUE, v)])
  }

  function RemoveEntry(path: Bytes): Json
  {
    Obj([Member(OP, Str(REMOVE)), Member(PATH, Str(path))])
  }

  lemma EntryMembers(ms: Members<Json>)
    requires |ms| >= 2 && ms[0].key == OP && ms[1].key == PATH && (|ms| == 3 ==> ms[2].key == VALUE)
    ensures Find(ms, OP) == Some(ms[0].value) && Find(ms, PATH) == Some(ms[1].value)
    ensures |ms| == 3 ==> Find(ms, VALUE) == Some(ms[2].value)
  {
    LowerBoundAt(ms, 0);
    LowerBoundAt(ms, 1);
    if |ms| == 3 {
      LowerBoundAt(ms, 2);
    }
  }

  lemma ReplaceEntryWorks(doc: Json, tokens: seq<Bytes>, v: Json)
    ensures PatchOperation(doc, ReplaceEntry(ToString(tokens), v)) == ReplaceAt(doc, tokens, v)
  {
    EntryMembers(ReplaceEntry(ToString(tokens), v).members);
    SplitOfToString(tokens);
  }

  lemma AddEntryWorks(doc: Json, tokens: seq<Bytes>, v: Json)
    ensures PatchOperation(doc, AddEntry(ToString(tokens), v)) == AddAt(doc, tokens, v)
  {
    EntryMembers(AddEntry(ToString(tokens), v).members);
    SplitOfToString(tokens);
  }

  lemma RemoveEntryWorks(doc: Json, tokens: seq<Bytes>)
    ensures PatchOperation(doc, RemoveEntry(ToString(tokens))) == RemoveAt(doc, tokens)
  {
    EntryMembers(RemoveEntry(ToString(tokens)).members);
    SplitOfToString(tokens);
  }

  /** The document in which `at(tokens)` holds the outcome of changing it, or the failure to change it. */
  function Inside(doc: Json, tokens: seq<Bytes>, change: Result<Json>): Result<Json>
  {
    if change.Ok? then ReplaceAt(doc, tokens, change.value) else change
  }

  /** "remove" touches nothing but the parent of its target. */
  lemma {:induction false} RemoveIsLocal(doc: Json, tokens: seq<Bytes>, last: Bytes)
    requires At(doc, tokens).Ok?
    ensures RemoveAt(doc, tokens + [last]) == Inside(doc, tokens, RemoveChild(At(doc, tokens).value, last))
  {
    var all := tokens + [last];
    if tokens != [] {
      assert all[1..] == tokens[1..] + [last];
      RemoveIsLocal(Child(doc, Locate(doc, tokens[0]).value), tokens[1..], last);
    }
  }

  /** "add" touches nothing but the parent of its target, when that parent exists. */
  lemma AddIsLocal(doc: Json, tokens: seq<Bytes>, last: Bytes, v: Json)
    requires At(doc, tokens).Ok?
    ensures AddAt(doc, tokens + [last], v) == Inside(doc, tokens, AddChild(At(doc, tokens).value, last, v))
  {
    AddBelowIsLocal(doc, tokens, last, v);
    if tokens != [] {
      assert (tokens + [last])[0] == tokens[0];
      var top := [tokens[0]];
      assert top[1..] == [];
      assert At(Child(doc, Locate(doc, tokens[0]).value), []).Ok?;
    }
  }

  lemma {:induction false} AddBelowIsLocal(doc: Json, tokens: seq<Bytes>, last: Bytes, v: Json)
    requires At(doc, tokens).Ok?
    ensures AddBelow(doc, tokens + [last], v) == Inside(doc, tokens, AddChild(At(doc, tokens).value, last, v))
  {
    var all := tokens + [last];
    if tokens != [] {
      assert all[1..] == tokens[1..] + [last];
      UncheckedFollowsChecked(doc, tokens[0]);
      AddBelowIsLocal(Child(doc, Locate(doc, tokens[0]).value), tokens[1..], last, v);
    }
  }

  lemma RemoveEntryIsLocal(doc: Json, tokens: seq<Bytes>, last: Bytes)
    requires At(doc, tokens).Ok?
    ensures ApplyAll(doc, [RemoveEntry(ToString(tokens + [last]))]) ==
      Inside(doc, tokens, RemoveChild(At(doc, tokens).value, last))
  {
    ApplyOne(doc, RemoveEntry(ToString(tokens + [last])));
    RemoveEntryWorks(doc, tokens + [last]);
    RemoveIsLocal(doc, tokens, last);
  }

  lemma AddEntryIsLocal(doc: Json, tokens: seq<Bytes>, last: Bytes, v: Json)
    requires At(doc, tokens).Ok?
    ensures ApplyAll(doc, [AddEntry(ToString(tokens + [last]), v)]) ==
      Inside(doc, tokens, AddChild(At(doc, tokens).value, last, v))
  {
    ApplyOne(doc, AddEntry(ToString(tokens + [last]), v));
    AddEntryWorks(doc, tokens + [last], v);
    AddIsLocal(doc, tokens, last, v);
  }

  lemma EraseLastIndex(es: seq<Json>)
    requires es != []
    ensures EraseIndex(es, |es| - 1) == Ok(Arr(es[..|es| - 1]))
  {
    assert es[..|es| - 1] + es[|es|..] == es[..|es| - 1];
  }

  lemma InsertPastLastIndex(es: seq<Json>, v: Json)
    ensures InsertIndex(es, |es|, v) == Ok(Arr(es + [v]))
  {
    assert es[..|es|] + [v] + es[|es|..] == es + [v];
  }

  lemma RemoveLast(es: seq<Json>)
    requires 0 < |es| <= INT32_MAX + 1
    ensures RemoveChild(Arr(es), ToDecimal(|es| - 1)) == Ok(Arr(es[..|es| - 1]))
  {
    StoiOfDecimal(|es| - 1);
    EraseLastIndex(es);
  }

  lemma AddPastLast(es: seq<Json>, v: Json)
    requires |es| <= INT32_MAX
    ensures AddChild(Arr(es), ToDecimal(|es|), v) == Ok(Arr(es + [v]))
  {
    StoiOfDecimal(|es|);
    InsertPastLastIndex(es, v);
  }

  /** A change at one pointer: it can be seen there, and undone by another change. */
  lemma Change(doc: Json, tokens: seq<Bytes>, v: Json, w: Json) returns (d: Json)
    requires At(doc, tokens).Ok?
    ensures ReplaceAt(doc, tokens, v) == Ok(d) && At(d, tokens) == Ok(v)
    ensures ReplaceAt(d, tokens, w) == ReplaceAt(doc, tokens, w)
  {
    ReplaceWhereFound(doc, tokens, v);
    ReplaceThenAt(doc, tokens, v, w);
    d := ReplaceAt(doc, tokens, v).value;
  }
}

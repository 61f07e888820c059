/** `diff` writes a JSON Patch from one value to another. */
module Diff {
  import opened ByteStrings
  import opened Wrappers
  import opened Sequences
  import opened JsonValues
  import opened Decimals
  import opened JsonPointer
  import opened Access
  import opened Compare
  import opened Patch

  predicate SameType(a: Json, b: Json)
  {
    match a
    case Null => b.Null?
    case Bool(_) => b.Bool?
    case Int(_) => b.Int?
    case UInt(_) => b.UInt?
    case Float(_) => b.Float?
    case Str(_) => b.Str?
    case Arr(_) => b.Arr?
    case Obj(_) => b.Obj?
  }

  function ElemPath(path: Bytes, i: nat): Bytes
  {
    path + [SLASH] + ToDecimal(i)
  }

  function MemberPath(path: Bytes, key: Bytes): Bytes
  {
    path + [SLASH] + Escape(key)
  }

  /** The operations of `diff(s, t, path)`. */
  function Diff(s: Json, t: Json, path: Bytes): seq<Json>
    decreases s, 0
  {
    if Eq(s, t) then []
    else if !SameType(s, t) then [ReplaceEntry(path, t)]
    else
      match s
      case Arr(es) =>
        DiffElems(es, t.elems, path, 0) + (RemoveElems(path, |es|, |t.elems|) + AddElems(t.elems, path, |es|))
      case Obj(ms) =>
        DiffMembers(ms, t.members, path, 0) + AddMembers(ms, t.members, path, 0)
      case _ => [ReplaceEntry(path, t)]
  }

  /** The common elements, from index `i` on. */
  function DiffElems(es: seq<Json>, ts: seq<Json>, path: Bytes, i: nat): seq<Json>
    decreases es, |es| - i
  {
    if i >= |es| || i >= |ts| then []
    else Diff(es[i], ts[i], ElemPath(path, i)) + DiffElems(es, ts, path, i + 1)
  }

  /** Removals from the last index of `m` elements down to index `n`. */
  function RemoveElems(path: Bytes, m: nat, n: nat): seq<Json>
    decreases m
  {
    if m <= n then [] else [RemoveEntry(ElemPath(path, m - 1))] + RemoveElems(path, m - 1, n)
  }

  function AddElems(ts: seq<Json>, path: Bytes, i: nat): seq<Json>
    decreases |ts| - i
  {
    if i >= |ts| then [] else [AddEntry(ElemPath(path, i), ts[i])] + AddElems(ts, path, i + 1)
  }

  function DiffMember(m: Member<Json>, ts: Members<Json>, path: Bytes): seq<Json>
    decreases m, 1
  {
    if HasKey(ts, m.key) then Diff(m.value, Find(ts, m.key).value, MemberPath(path, m.key))
    else [RemoveEntry(MemberPath(path, m.key))]
  }

  function DiffMembers(ms: Members<Json>, ts: Members<Json>, path: Bytes, i: nat): seq<Json>
    decreases ms, |ms| - i
  {
    if i >= |ms| then [] else DiffMember(ms[i], ts, path) + DiffMembers(ms, ts, path, i + 1)
  }

  function AddMember(ms: Members<Json>, t: Member<Json>, path: Bytes): seq<Json>
  {
    if HasKey(ms, t.key) then [] else [AddEntry(MemberPath(path, t.key), t.value)]
  }

  function AddMembers(ms: Members<Json>, ts: Members<Json>, path: Bytes, i: nat): seq<Json>
    decreases |ts| - i
  {
    if i >= |ts| then [] else AddMember(ms, ts[i], path) + AddMembers(ms, ts, path, i + 1)
  }

  // ---------- where the patch leads ----------

  /** What patching `s` leaves: `s` itself where the two are equal, the parts of `t` elsewhere. */
  function Reached(s: Json, t: Json): Json
  {
    if Eq(s, t) || !SameType(s, t) then (if Eq(s, t) then s else t)
    else
      match s
      case Arr(es) => Arr(seq(|t.elems|, i requires 0 <= i < |t.elems| =>
        if i < |es| then Reached(es[i], t.elems[i]) else t.elems[i]))
      case Obj(ms) =>
        var ts := t.members;
        var rs := seq(|ts|, i requires 0 <= i < |ts| => Member(ts[i].key, ReachedValue(ms, ts[i])));
        assert forall i :: 0 <= i < |rs| ==> rs[i].key == ts[i].key;
        Obj(rs)
      case _ => t
  }

  function ReachedValue(ms: Members<Json>, t: Member<Json>): Json
    decreases ms, 1
  {
    if HasKey(ms, t.key) then Reached(ms[LowerBound(ms, t.key)].value, t.value) else t.value
  }

  /** Every array index that the patch has to name fits into an int, which is what `stoi` can read. */
  predicate IndicesFit(s: Json, t: Json)
    decreases s, 0
  {
    if Eq(s, t) || !SameType(s, t) then true
    else
      match s
      case Arr(es) =>
        ElemsFit(es, t.elems, 0) && (|es| != |t.elems| ==> |es| <= INT32_MAX + 1 && |t.elems| <= INT32_MAX + 1)
      case Obj(ms) => MembersFit(ms, t.members, 0)
      case _ => true
  }

  predicate ElemsFit(es: seq<Json>, ts: seq<Json>, i: nat)
    decreases es, |es| - i
  {
    i < |es| && i < |ts| ==> ElemFits(es, ts, i) && ElemsFit(es, ts, i + 1)
  }

  predicate ElemFits(es: seq<Json>, ts: seq<Json>, i: nat)
    requires i < |es| && i < |ts|
    decreases es, 0
  {
    Eq(es[i], ts[i]) || (i <= INT32_MAX && IndicesFit(es[i], ts[i]))
  }

  predicate MembersFit(ms: Members<Json>, ts: Members<Json>, i: nat)
    decreases ms, |ms| - i
  {
    i < |ms| ==>
      (HasKey(ts, ms[i].key) ==> IndicesFit(ms[i].value, Find(ts, ms[i].key).value)) && MembersFit(ms, ts, i + 1)
  }

  /** What `diff` reaches is equal to its target. */
  lemma {:induction false} ReachedIsEqual(s: Json, t: Json)
    ensures Eq(Reached(s, t), t)
    decreases s, 1
  {
    EqReflexive(t);
    if !Eq(s, t) && SameType(s, t) {
      match s
      case Arr(es) => ReachedElemsAreEqual(es, t.elems);
      case Obj(ms) => ReachedMembersAreEqual(ms, t.members);
      case _ =>
    }
  }

  lemma {:induction false} ReachedElemsAreEqual(es: seq<Json>, ts: seq<Json>)
    requires !Eq(Arr(es), Arr(ts))
    ensures Eq(Reached(Arr(es), Arr(ts)), Arr(ts))
    decreases es, 0
  {
    var rs := Reached(Arr(es), Arr(ts)).elems;
    assert |rs| == |ts| && forall i :: 0 <= i < |ts| ==> rs[i] == if i < |es| then Reached(es[i], ts[i]) else ts[i];
    hide Reached;
    forall i | 0 <= i < |ts|
      ensures Eq(rs[i], ts[i])
    {
      EqReflexive(ts[i]);
      if i < |es| {
        ReachedIsEqual(es[i], ts[i]);
      }
    }
  }

  lemma {:induction false} ReachedMembersAreEqual(ms: Members<Json>, ts: Members<Json>)
    requires !Eq(Obj(ms), Obj(ts))
    ensures Eq(Reached(Obj(ms), Obj(ts)), Obj(ts))
    decreases ms, 0
  {
    var rs := Reached(Obj(ms), Obj(ts)).members;
    assert |rs| == |ts| && forall i :: 0 <= i < |ts| ==> rs[i] == Member(ts[i].key, ReachedValue(ms, ts[i]));
    hide Reached;
    forall i | 0 <= i < |ts|
      ensures rs[i].key == ts[i].key && Eq(rs[i].value, ts[i].value)
    {
      EqReflexive(ts[i].value);
      if HasKey(ms, ts[i].key) {
        ReachedIsEqual(ms[LowerBound(ms, ts[i].key)].value, ts[i].value);
      }
    }
  }

  // ---------- paths ----------

  lemma {:induction false} EscapeDigits(ds: Bytes)
    requires AllDigits(ds)
    ensures Escape(ds) == ds
  {
    if ds != [] {
      assert AllDigits(ds[1..]);
      EscapeDigits(ds[1..]);
      HeadTail(ds);
    }
  }

  lemma ElemPathText(tokens: seq<Bytes>, i: nat)
    ensures ElemPath(ToString(tokens), i) == ToString(tokens + [ToDecimal(i)])
  {
    EscapeDigits(ToDecimal(i));
    assert (tokens + [ToDecimal(i)])[..|tokens|] == tokens;
  }

  lemma MemberPathText(tokens: seq<Bytes>, key: Bytes)
    ensures MemberPath(ToString(tokens), key) == ToString(tokens + [key])
  {
    assert (tokens + [key])[..|tokens|] == tokens;
  }

  // ---------- failure ----------

  /** Neither checked nor unchecked access gets through this pointer. */
  predicate Blocked(j: Json, tokens: seq<Bytes>)
  {
    tokens != [] &&
    if Locate(j, tokens[0]).Err? then
      StepUnchecked(j, tokens[0]).Err? && AddChild(j, tokens[0], Null).Err? && RemoveChild(j, tokens[0]).Err?
    else Blocked(Child(j, Locate(j, tokens[0]).value), tokens[1..])
  }

  lemma AddChildFails(parent: Json, last: Bytes, v: Json, w: Json)
    ensures AddChild(parent, last, v).Err? == AddChild(parent, last, w).Err?
  {}

  lemma {:induction false} BlockedLonger(j: Json, tokens: seq<Bytes>, more: seq<Bytes>)
    requires Blocked(j, tokens)
    ensures Blocked(j, tokens + more)
  {
    ConcatHead(tokens, more);
    if Locate(j, tokens[0]).Ok? {
      BlockedLonger(Child(j, Locate(j, tokens[0]).value), tokens[1..], more);
    }
  }

  lemma {:induction false} BlockedFails(j: Json, tokens: seq<Bytes>, v: Json)
    requires Blocked(j, tokens)
    ensures ReplaceAt(j, tokens, v).Err? && RemoveAt(j, tokens).Err? && AddBelow(j, tokens, v).Err?
    ensures AddAt(j, tokens, v).Err?
  {
    AddChildFails(j, tokens[0], v, Null);
    if Locate(j, tokens[0]).Ok? {
      UncheckedFollowsChecked(j, tokens[0]);
      BlockedFails(Child(j, Locate(j, tokens[0]).value), tokens[1..], v);
    }
  }

  /** An index beyond INT_MAX blocks an array. */
  lemma {:induction false} LargeIndexBlocks(j: Json, tokens: seq<Bytes>, i: nat)
    requires At(j, tokens).Ok? && At(j, tokens).value.Arr? && i > INT32_MAX
    ensures Blocked(j, tokens + [ToDecimal(i)])
  {
    if tokens == [] {
      StoiOfDecimal(i);
    } else {
      ConcatHead(tokens, [ToDecimal(i)]);
      LargeIndexBlocks(Child(j, Locate(j, tokens[0]).value), tokens[1..], i);
    }
  }

  /** Where every pointer is blocked, a patch between different values fails. */
  lemma {:induction false} DiffBlocked(doc: Json, tokens: seq<Bytes>, s: Json, t: Json)
    requires Blocked(doc, tokens) && !Eq(s, t)
    ensures ApplyAll(doc, Diff(s, t, ToString(tokens))).Err?
    decreases s, 0
  {
    var path := ToString(tokens);
    if !SameType(s, t) || (!s.Arr? && !s.Obj?) {
      ApplyOne(doc, ReplaceEntry(path, t));
      ReplaceEntryWorks(doc, tokens, t);
      BlockedFails(doc, tokens, t);
    } else if s.Arr? {
      var es, ts := s.elems, t.elems;
      var elems, removes, adds := DiffElems(es, ts, path, 0), RemoveElems(path, |es|, |ts|), AddElems(ts, path, |es|);
      ApplyConcat(doc, elems, removes + adds);
      ApplyConcat(doc, removes, adds);
      ElemsBlocked(doc, tokens, es, ts, 0);
      ElemsDifferSomewhere(es, ts, 0);
      if |es| > |ts| {
        RemoveElemBlocked(doc, tokens, |es|, |ts|);
      } else if |es| < |ts| {
        AddElemBlocked(doc, tokens, ts, |es|);
      }
    } else {
      var ms, ts := s.members, t.members;
      ApplyConcat(doc, DiffMembers(ms, ts, path, 0), AddMembers(ms, ts, path, 0));
      MembersBlocked(doc, tokens, ms, ts, 0);
      AddMembersBlocked(doc, tokens, ms, ts, 0);
      MembersDifferSomewhere(ms, ts, 0);
      KeysMissingSomewhere(ms, ts, 0);
      if !MembersDiffer(ms, ts, 0) && !KeysMissing(ms, ts, 0) {
        SameObjects(ms, ts);
      }
    }
  }

  /** Do the common elements from `i` on differ anywhere? */
  predicate ElemsDiffer(es: seq<Json>, ts: seq<Json>, i: nat)
    decreases |es| - i
  {
    i < |es| && i < |ts| && (!Eq(es[i], ts[i]) || ElemsDiffer(es, ts, i + 1))
  }

  lemma ElemsDifferSomewhere(es: seq<Json>, ts: seq<Json>, i: nat)
    ensures ElemsDiffer(es, ts, i) <==> exists k :: i <= k < |es| && k < |ts| && !Eq(es[k], ts[k])
    decreases |es| - i
  {}

  lemma {:induction false} ElemsBlocked(doc: Json, tokens: seq<Bytes>, es: seq<Json>, ts: seq<Json>, i: nat)
    requires Blocked(doc, tokens)
    ensures var r := ApplyAll(doc, DiffElems(es, ts, ToString(tokens), i));
      if ElemsDiffer(es, ts, i) then r.Err? else r == Ok(doc)
    decreases es, |es| - i
  {
    if i < |es| && i < |ts| {
      var path := ToString(tokens);
      ApplyConcat(doc, Diff(es[i], ts[i], ElemPath(path, i)), DiffElems(es, ts, path, i + 1));
      ElemsBlocked(doc, tokens, es, ts, i + 1);
      if !Eq(es[i], ts[i]) {
        ElemPathText(tokens, i);
        BlockedLonger(doc, tokens, [ToDecimal(i)]);
        DiffBlocked(doc, tokens + [ToDecimal(i)], es[i], ts[i]);
      }
    }
  }

  lemma RemoveElemBlocked(doc: Json, tokens: seq<Bytes>, m: nat, n: nat)
    requires m > n
    requires Blocked(doc, tokens + [ToDecimal(m - 1)]) || Blocked(doc, tokens)
    ensures ApplyAll(doc, RemoveElems(ToString(tokens), m, n)).Err?
  {
    hide At, ReplaceAt, ToDecimal, Split, Stoi, ToString, Locate;
    var entry, all := RemoveEntry(ElemPath(ToString(tokens), m - 1)), tokens + [ToDecimal(m - 1)];
    if Blocked(doc, tokens) {
      BlockedLonger(doc, tokens, [ToDecimal(m - 1)]);
    }
    ApplyConcat(doc, [entry], RemoveElems(ToString(tokens), m - 1, n));
    ApplyOne(doc, entry);
    ElemPathText(tokens, m - 1);
    RemoveEntryWorks(doc, all);
    BlockedFails(doc, all, Null);
  }

  lemma AddElemBlocked(doc: Json, tokens: seq<Bytes>, ts: seq<Json>, i: nat)
    requires Blocked(doc, tokens + [ToDecimal(i)]) || Blocked(doc, tokens)
    requires i < |ts|
    ensures ApplyAll(doc, AddElems(ts, ToString(tokens), i)).Err?
  {
    var entry, all := AddEntry(ElemPath(ToString(tokens), i), ts[i]), tokens + [ToDecimal(i)];
    if Blocked(doc, tokens) {
      BlockedLonger(doc, tokens, [ToDecimal(i)]);
    }
    ApplyConcat(doc, [entry], AddElems(ts, ToString(tokens), i + 1));
    ApplyOne(doc, entry);
    ElemPathText(tokens, i);
    AddEntryWorks(doc, all, ts[i]);
    BlockedFails(doc, all, ts[i]);
  }

  /** Does this member of the source make `diff` write an operation? */
  predicate Differs(m: Member<Json>, ts: Members<Json>)
  {
    !HasKey(ts, m.key) || !Eq(m.value, Find(ts, m.key).value)
  }

  predicate MembersDiffer(ms: Members<Json>, ts: Members<Json>, i: nat)
    decreases |ms| - i
  {
    i < |ms| && (Differs(ms[i], ts) || MembersDiffer(ms, ts, i + 1))
  }

  predicate KeysMissing(ms: Members<Json>, ts: Members<Json>, i: nat)
    decreases |ts| - i
  {
    i < |ts| && (!HasKey(ms, ts[i].key) || KeysMissing(ms, ts, i + 1))
  }

  lemma MembersDifferSomewhere(ms: Members<Json>, ts: Members<Json>, i: nat)
    ensures MembersDiffer(ms, ts, i) <==> exists k :: i <= k < |ms| && Differs(ms[k], ts)
    decreases |ms| - i
  {}

  lemma KeysMissingSomewhere(ms: Members<Json>, ts: Members<Json>, i: nat)
    ensures KeysMissing(ms, ts, i) <==> exists k :: i <= k < |ts| && !HasKey(ms, ts[k].key)
    decreases |ts| - i
  {}

  lemma {:induction false} MemberBlocked(doc: Json, tokens: seq<Bytes>, m: Member<Json>, ts: Members<Json>)
    requires Blocked(doc, tokens)
    ensures var r := ApplyAll(doc, DiffMember(m, ts, ToString(tokens)));
      if Differs(m, ts) then r.Err? else r == Ok(doc)
    decreases m, 1
  {
    var all := tokens + [m.key];
    MemberPathText(tokens, m.key);
    BlockedLonger(doc, tokens, [m.key]);
    if !HasKey(ts, m.key) {
      ApplyOne(doc, RemoveEntry(MemberPath(ToString(tokens), m.key)));
      RemoveEntryWorks(doc, all);
      BlockedFails(doc, all, Null);
    } else if Differs(m, ts) {
      DiffBlocked(doc, all, m.value, Find(ts, m.key).value);
    }
  }

  lemma {:induction false} MembersBlocked(doc: Json, tokens: seq<Bytes>, ms: Members<Json>, ts: Members<Json>, i: nat)
    requires Blocked(doc, tokens)
    ensures var r := ApplyAll(doc, DiffMembers(ms, ts, ToString(tokens), i));
      if MembersDiffer(ms, ts, i) then r.Err? else r == Ok(doc)
    decreases ms, |ms| - i
  {
    if i < |ms| {
      var path := ToString(tokens);
      ApplyConcat(doc, DiffMember(ms[i], ts, path), DiffMembers(ms, ts, path, i + 1));
      MembersBlocked(doc, tokens, ms, ts, i + 1);
      MemberBlocked(doc, tokens, ms[i], ts);
    }
  }

  lemma AddMemberBlocked(doc: Json, tokens: seq<Bytes>, ms: Members<Json>, t: Member<Json>)
    requires Blocked(doc, tokens) && !HasKey(ms, t.key)
    ensures ApplyAll(doc, AddMember(ms, t, ToString(tokens))).Err?
  {
    var all := tokens + [t.key];
    MemberPathText(tokens, t.key);
    BlockedLonger(doc, tokens, [t.key]);
    ApplyOne(doc, AddEntry(MemberPath(ToString(tokens), t.key), t.value));
    AddEntryWorks(doc, all, t.value);
    BlockedFails(doc, all, t.value);
  }

  lemma {:induction false} AddMembersBlocked(doc: Json, tokens: seq<Bytes>, ms: Members<Json>, ts: Members<Json>,
      i: nat)
    requires Blocked(doc, tokens)
    ensures var r := ApplyAll(doc, AddMembers(ms, ts, ToString(tokens), i));
      if KeysMissing(ms, ts, i) then r.Err? else r == Ok(doc)
    decreases |ts| - i
  {
    if i < |ts| {
      var path := ToString(tokens);
      ApplyConcat(doc, AddMember(ms, ts[i], path), AddMembers(ms, ts, path, i + 1));
      AddMembersBlocked(doc, tokens, ms, ts, i + 1);
      if !HasKey(ms, ts[i].key) {
        AddMemberBlocked(doc, tokens, ms, ts[i]);
      }
    }
  }

  /** Objects with the same keys and equal values under them are equal. */
  lemma SameObjects(ms: Members<Json>, ts: Members<Json>)
    requires forall i :: 0 <= i < |ms| ==> !Differs(ms[i], ts)
    requires forall i :: 0 <= i < |ts| ==> HasKey(ms, ts[i].key)
    ensures Eq(Obj(ms), Obj(ts))
  {
    forall k: Bytes
      ensures HasKey(ms, k) == HasKey(ts, k)
    {
      KeyIn(ms, k);
      KeyIn(ts, k);
    }
    SameKeysSameOrder(ms, ts);
    forall i | 0 <= i < |ms|
      ensures Eq(ms[i].value, ts[i].value)
    {
      assert !Differs(ms[i], ts);
      LowerBoundAt(ts, i);
    }
  }

  // ---------- success ----------

  /**
   Applied to any document that holds `s` at a pointer, the patch from `s` to `t` puts what it reaches there
   and leaves everything else alone, exactly when the indices fit; otherwise it throws.
   */
  lemma {:induction false} DiffWorks(doc: Json, tokens: seq<Bytes>, s: Json, t: Json)
    requires At(doc, tokens) == Ok(s)
    ensures var r := ApplyAll(doc, Diff(s, t, ToString(tokens)));
      if IndicesFit(s, t) then r == ReplaceAt(doc, tokens, Reached(s, t)) else r.Err?
    decreases s, 1
  {
    if Eq(s, t) {
      ReplaceBySame(doc, tokens);
    } else if !SameType(s, t) || (!s.Arr? && !s.Obj?) {
      ApplyOne(doc, ReplaceEntry(ToString(tokens), t));
      ReplaceEntryWorks(doc, tokens, t);
    } else if s.Arr? {
      ArrayWorks(doc, tokens, s.elems, t.elems);
    } else {
      ObjectWorks(doc, tokens, s.members, t.members);
    }
  }

  // ---------- arrays ----------

  /** The array after its first `i` elements have been treated. */
  function Halfway(es: seq<Json>, ts: seq<Json>, i: nat): (r: seq<Json>)
    ensures |r| == |es|
  {
    seq(|es|, k requires 0 <= k < |es| => if k < i && k < |ts| then Reached(es[k], ts[k]) else es[k])
  }

  lemma {:induction false} ArrayWorks(doc: Json, tokens: seq<Bytes>, es: seq<Json>, ts: seq<Json>)
    requires At(doc, tokens) == Ok(Arr(es)) && !Eq(Arr(es), Arr(ts))
    ensures var r := ApplyAll(doc, Diff(Arr(es), Arr(ts), ToString(tokens)));
      if IndicesFit(Arr(es), Arr(ts)) then r == ReplaceAt(doc, tokens, Reached(Arr(es), Arr(ts))) else r.Err?
    decreases es, |es| + 1
  {
    hide Stoi, ToDecimal, ToString, ReplaceAt, At;
    var path := ToString(tokens);
    var elems, removes, adds := DiffElems(es, ts, path, 0), RemoveElems(path, |es|, |ts|), AddElems(ts, path, |es|);
    ApplyConcat(doc, elems, removes + adds);
    assert Halfway(es, ts, 0) == es;
    ElemsWork(doc, tokens, es, ts, 0);
    if ElemsFit(es, ts, 0) {
      var half := Halfway(es, ts, |es|);
      var doc1 := Change(doc, tokens, Arr(half), Reached(Arr(es), Arr(ts)));
      ApplyConcat(doc1, removes, adds);
      ReachedArray(es, ts);
      if |es| >= |ts| {
        RemovesWork(doc1, tokens, half, |ts|);
      } else {
        AddsWork(doc1, tokens, half, ts);
      }
    }
  }

  lemma ReachedArray(es: seq<Json>, ts: seq<Json>)
    requires !Eq(Arr(es), Arr(ts))
    ensures var half, r := Halfway(es, ts, |es|), Reached(Arr(es), Arr(ts));
      r == Arr(if |es| >= |ts| then half[..|ts|] else half + ts[|es|..])
  {}

  lemma {:induction false} ElemWorks(doc: Json, tokens: seq<Bytes>, es: seq<Json>, ts: seq<Json>, i: nat)
    requires i < |es| && i < |ts|
    requires At(doc, tokens) == Ok(Arr(Halfway(es, ts, i)))
    ensures var r := ApplyAll(doc, Diff(es[i], ts[i], ElemPath(ToString(tokens), i)));
      if ElemFits(es, ts, i) then r == ReplaceAt(doc, tokens, Arr(Halfway(es, ts, i + 1))) else r.Err?
    decreases es, 0
  {
    hide Stoi, ToDecimal, ToString, ReplaceAt, At;
    var half, token := Halfway(es, ts, i), ToDecimal(i);
    if Eq(es[i], ts[i]) {
      assert Halfway(es, ts, i + 1) == half;
      ReplaceBySame(doc, tokens);
    } else {
      ElemPathText(tokens, i);
      LocateIndex(half, i);
      if i > INT32_MAX {
        LargeIndexBlocks(doc, tokens, i);
        DiffBlocked(doc, tokens + [token], es[i], ts[i]);
      } else {
        AtLonger(doc, tokens, token);
        AtOne(Arr(half), token);
        DiffWorks(doc, tokens + [token], es[i], ts[i]);
        ReplaceBelow(doc, tokens, Arr(half), token, Reached(es[i], ts[i]));
        assert half[i := Reached(es[i], ts[i])] == Halfway(es, ts, i + 1);
      }
    }
  }

  lemma AtOne(j: Json, token: Bytes)
    ensures At(j, [token]) ==
      if Locate(j, token).Ok? then Ok(Child(j, Locate(j, token).value)) else Err(Locate(j, token).error)
  {
    var tokens := [token];
    assert tokens[1..] == [];
  }

  lemma {:induction false} ElemsWork(doc: Json, tokens: seq<Bytes>, es: seq<Json>, ts: seq<Json>, i: nat)
    requires At(doc, tokens) == Ok(Arr(Halfway(es, ts, i)))
    ensures var r := ApplyAll(doc, DiffElems(es, ts, ToString(tokens), i));
      if ElemsFit(es, ts, i) then r == ReplaceAt(doc, tokens, Arr(Halfway(es, ts, |es|))) else r.Err?
    decreases es, |es| - i
  {
    hide Stoi, ReplaceAt, At, ToString, ToDecimal, Locate, Split;
    if i < |es| && i < |ts| {
      var path, next, final := ToString(tokens), Arr(Halfway(es, ts, i + 1)), Arr(Halfway(es, ts, |es|));
      ApplyConcat(doc, Diff(es[i], ts[i], ElemPath(path, i)), DiffElems(es, ts, path, i + 1));
      ElemWorks(doc, tokens, es, ts, i);
      var d := Change(doc, tokens, next, final);
      if ElemFits(es, ts, i) {
        ElemsWork(d, tokens, es, ts, i + 1);
      }
    } else {
      assert Halfway(es, ts, i) == Halfway(es, ts, |es|);
      ReplaceBySame(doc, tokens);
    }
  }

  lemma RemoveWorks(doc: Json, tokens: seq<Bytes>, cur: seq<Json>)
    requires At(doc, tokens) == Ok(Arr(cur)) && 0 < |cur| <= INT32_MAX + 1
    ensures ApplyAll(doc, [RemoveEntry(ElemPath(ToString(tokens), |cur| - 1))]) ==
      ReplaceAt(doc, tokens, Arr(cur[..|cur| - 1]))
  {
    hide Stoi, RemoveChild, At, ReplaceAt, ApplyAll, ToString, ElemPath, ToDecimal;
    ElemPathText(tokens, |cur| - 1);
    RemoveEntryIsLocal(doc, tokens, ToDecimal(|cur| - 1));
    RemoveLast(cur);
  }

  lemma {:induction false} RemovesWork(doc: Json, tokens: seq<Bytes>, cur: seq<Json>, n: nat)
    requires At(doc, tokens) == Ok(Arr(cur)) && n <= |cur|
    ensures var r := ApplyAll(doc, RemoveElems(ToString(tokens), |cur|, n));
      if n == |cur| || |cur| <= INT32_MAX + 1 then r == ReplaceAt(doc, tokens, Arr(cur[..n])) else r.Err?
    decreases |cur|
  {
    hide Stoi, ReplaceAt, At, PatchOperation, RemoveEntry, ToString, ElemPath, ToDecimal, Locate, RemoveChild;
    var m := |cur| - 1;
    if n == |cur| {
      assert cur[..n] == cur;
      ReplaceBySame(doc, tokens);
    } else if m > INT32_MAX {
      LargeIndexBlocks(doc, tokens, m);
      RemoveElemBlocked(doc, tokens, |cur|, n);
    } else {
      var next := cur[..m];
      RemoveWorks(doc, tokens, cur);
      var d := Change(doc, tokens, Arr(next), Arr(cur[..n]));
      TakeTake(cur, m, n);
      RemovesWork(d, tokens, next, n);
      ApplyConcat(doc, [RemoveEntry(ElemPath(ToString(tokens), m))], RemoveElems(ToString(tokens), m, n));
    }
  }

  lemma AddWorks(doc: Json, tokens: seq<Bytes>, cur: seq<Json>, v: Json)
    requires At(doc, tokens) == Ok(Arr(cur)) && |cur| <= INT32_MAX
    ensures ApplyAll(doc, [AddEntry(ElemPath(ToString(tokens), |cur|), v)]) ==
      ReplaceAt(doc, tokens, Arr(cur + [v]))
  {
    hide Stoi, ReplaceAt, At, ToString, ToDecimal, Locate, Split, AddChild, ApplyAll, ElemPath;
    ElemPathText(tokens, |cur|);
    AddEntryIsLocal(doc, tokens, ToDecimal(|cur|), v);
    AddPastLast(cur, v);
  }

  lemma AddElemsFirst(ts: seq<Json>, path: Bytes, i: nat)
    requires i < |ts|
    ensures AddElems(ts, path, i) == [AddEntry(ElemPath(path, i), ts[i])] + AddElems(ts, path, i + 1)
  {
    hide ElemPath, AddEntry;
  }

  lemma NothingToAdd(doc: Json, ts: seq<Json>, path: Bytes)
    ensures ApplyAll(doc, AddElems(ts, path, |ts|)) == Ok(doc)
  {}

  lemma {:induction false} AddsWork(doc: Json, tokens: seq<Bytes>, cur: seq<Json>, ts: seq<Json>)
    requires At(doc, tokens) == Ok(Arr(cur)) && |cur| <= |ts|
    ensures var r := ApplyAll(doc, AddElems(ts, ToString(tokens), |cur|));
      if |cur| < |ts| ==> |ts| <= INT32_MAX + 1 then r == ReplaceAt(doc, tokens, Arr(cur + ts[|cur|..])) else r.Err?
    decreases |ts| - |cur|
  {
    hide Stoi, ReplaceAt, At, ToString, ElemPath, ToDecimal, Locate, AddChild, Split, AddElems, ApplyAll, AddEntry;
    var path, i := ToString(tokens), |cur|;
    if i == |ts| {
      RightUnit(cur);
      assert ts[i..] == [];
      NothingToAdd(doc, ts, path);
      ReplaceBySame(doc, tokens);
    } else if i > INT32_MAX {
      LargeIndexBlocks(doc, tokens, i);
      AddElemBlocked(doc, tokens, ts, i);
    } else {
      var next := cur + [ts[i]];
      AddElemsFirst(ts, path, i);
      ApplyConcat(doc, [AddEntry(ElemPath(path, i), ts[i])], AddElems(ts, path, i + 1));
      AddWorks(doc, tokens, cur, ts[i]);
      var d := Change(doc, tokens, Arr(next), Arr(cur + ts[i..]));
      DropStep(ts, i);
      Assoc(cur, [ts[i]], ts[i + 1..]);
      AddsWork(d, tokens, next, ts);
    }
  }

  // ---------- objects ----------

  /** The lookups after the first `i` members of the source have been treated. */
  function FirstPass(ms: Members<Json>, ts: Members<Json>, i: nat, k: Bytes): Option<Json>
  {
    if !HasKey(ms, k) then None
    else
      var p := LowerBound(ms, k);
      if p >= i then Some(ms[p].value)
      else if HasKey(ts, k) then Some(Reached(ms[p].value, Find(ts, k).value))
      else None
  }

  /** The lookups after the first `i` members of the target have been treated as well. */
  function SecondPass(ms: Members<Json>, ts: Members<Json>, i: nat, k: Bytes): Option<Json>
  {
    if !HasKey(ts, k) then None
    else
      var q := LowerBound(ts, k);
      if HasKey(ms, k) || q < i then Some(ReachedValue(ms, ts[q])) else None
  }

  lemma {:induction false} ObjectWorks(doc: Json, tokens: seq<Bytes>, ms: Members<Json>, ts: Members<Json>)
    requires At(doc, tokens) == Ok(Obj(ms)) && !Eq(Obj(ms), Obj(ts))
    ensures var r := ApplyAll(doc, Diff(Obj(ms), Obj(ts), ToString(tokens)));
      if IndicesFit(Obj(ms), Obj(ts)) then r == ReplaceAt(doc, tokens, Reached(Obj(ms), Obj(ts))) else r.Err?
    decreases ms, |ms| + 1
  {
    var path := ToString(tokens);
    ApplyConcat(doc, DiffMembers(ms, ts, path, 0), AddMembers(ms, ts, path, 0));
    var d := MembersWork(doc, tokens, ms, ts, 0, ms);
    if MembersFit(ms, ts, 0) {
      var doc1 := Change(doc, tokens, Obj(d), Reached(Obj(ms), Obj(ts)));
      PassesMeet(ms, ts, d);
      AddMembersWork(doc1, tokens, ms, ts, 0, d);
    }
  }

  lemma PassesMeet(ms: Members<Json>, ts: Members<Json>, d: Members<Json>)
    requires forall k: Bytes :: Find(d, k) == FirstPass(ms, ts, |ms|, k)
    ensures forall k: Bytes :: Find(d, k) == SecondPass(ms, ts, 0, k)
  {
    forall k: Bytes
      ensures Find(d, k) == SecondPass(ms, ts, 0, k)
    {
      assert Find(d, k) == FirstPass(ms, ts, |ms|, k);
    }
  }

  /** One member of the source: its value is patched, or it is removed. */
  lemma {:induction false} MemberWorks(
    doc: Json, tokens: seq<Bytes>, ms: Members<Json>, ts: Members<Json>, i: nat, d: Members<Json>)
    returns (d1: Members<Json>)
    requires i < |ms| && At(doc, tokens) == Ok(Obj(d)) && Find(d, ms[i].key) == Some(ms[i].value)
    ensures var k := ms[i].key;
      var r := ApplyAll(doc, DiffMember(ms[i], ts, ToString(tokens)));
      if HasKey(ts, k) ==> IndicesFit(ms[i].value, Find(ts, k).value) then
        && r == ReplaceAt(doc, tokens, Obj(d1))
        && (if HasKey(ts, k)
            then d1 == SetValue(d, LowerBound(d, k), Reached(ms[i].value, Find(ts, k).value))
            else d1 == Erase(d, k))
      else r.Err?
    decreases ms, 0
  {
    var k := ms[i].key;
    MemberPathText(tokens, k);
    if HasKey(ts, k) {
      d1 := SetValue(d, LowerBound(d, k), Reached(ms[i].value, Find(ts, k).value));
      AtLonger(doc, tokens, k);
      AtOne(Obj(d), k);
      DiffWorks(doc, tokens + [k], ms[i].value, Find(ts, k).value);
      ReplaceBelow(doc, tokens, Obj(d), k, Reached(ms[i].value, Find(ts, k).value));
    } else {
      d1 := Erase(d, k);
      RemoveEntryIsLocal(doc, tokens, k);
    }
  }

  lemma FirstPassStep(ms: Members<Json>, ts: Members<Json>, i: nat, d: Members<Json>, d1: Members<Json>)
    requires i < |ms| && forall k: Bytes :: Find(d, k) == FirstPass(ms, ts, i, k)
    requires Find(d, ms[i].key).Some?
    requires var k := ms[i].key;
      if HasKey(ts, k)
      then d1 == SetValue(d, LowerBound(d, k), Reached(ms[i].value, Find(ts, k).value))
      else d1 == Erase(d, k)
    ensures forall k: Bytes :: Find(d1, k) == FirstPass(ms, ts, i + 1, k)
  {
    forall x: Bytes
      ensures Find(d1, x) == FirstPass(ms, ts, i + 1, x)
    {
      var k := ms[i].key;
      LowerBoundAt(ms, i);
      assert Find(d, x) == FirstPass(ms, ts, i, x);
      if HasKey(ts, k) {
        FindAfterSetValue(d, LowerBound(d, k), Reached(ms[i].value, Find(ts, k).value), x);
      } else {
        FindAfterErase(d, k, x);
      }
    }
  }

  lemma {:induction false} MembersWork(
    doc: Json, tokens: seq<Bytes>, ms: Members<Json>, ts: Members<Json>, i: nat, d: Members<Json>)
    returns (d': Members<Json>)
    requires i <= |ms| && At(doc, tokens) == Ok(Obj(d))
    requires forall k: Bytes :: Find(d, k) == FirstPass(ms, ts, i, k)
    ensures var r := ApplyAll(doc, DiffMembers(ms, ts, ToString(tokens), i));
      if MembersFit(ms, ts, i) then
        r == ReplaceAt(doc, tokens, Obj(d')) && forall k: Bytes :: Find(d', k) == FirstPass(ms, ts, |ms|, k)
      else r.Err?
    decreases ms, |ms| - i
  {
    hide Stoi, ToDecimal, ToString, ReplaceAt, At, LowerBound, IndicesFit;
    d' := d;
    if i < |ms| {
      var path := ToString(tokens);
      ApplyConcat(doc, DiffMember(ms[i], ts, path), DiffMembers(ms, ts, path, i + 1));
      LowerBoundAt(ms, i);
      assert Find(d, ms[i].key) == FirstPass(ms, ts, i, ms[i].key);
      var d1 := MemberWorks(doc, tokens, ms, ts, i, d);
      if HasKey(ts, ms[i].key) ==> IndicesFit(ms[i].value, Find(ts, ms[i].key).value) {
        FirstPassStep(ms, ts, i, d, d1);
        ReplaceWhereFound(doc, tokens, Obj(d1));
        var doc1 := ReplaceAt(doc, tokens, Obj(d1)).value;
        ReplaceThenAt(doc, tokens, Obj(d1), Obj(d1));
        d' := MembersWork(doc1, tokens, ms, ts, i + 1, d1);
        ReplaceThenAt(doc, tokens, Obj(d1), Obj(d'));
      }
    } else {
      ReplaceBySame(doc, tokens);
    }
  }

  /** Adding the members of the target that are new completes the object. */
  lemma {:induction false} AddMembersWork(
    doc: Json, tokens: seq<Bytes>, ms: Members<Json>, ts: Members<Json>, i: nat, d: Members<Json>)
    requires i <= |ts| && At(doc, tokens) == Ok(Obj(d)) && !Eq(Obj(ms), Obj(ts))
    requires forall k: Bytes :: Find(d, k) == SecondPass(ms, ts, i, k)
    ensures ApplyAll(doc, AddMembers(ms, ts, ToString(tokens), i)) ==
      ReplaceAt(doc, tokens, Reached(Obj(ms), Obj(ts)))
    decreases |ts| - i
  {
    if i < |ts| {
      var path, t := ToString(tokens), ts[i];
      ApplyConcat(doc, AddMember(ms, t, path), AddMembers(ms, ts, path, i + 1));
      if HasKey(ms, t.key) {
        SecondPassSkips(ms, ts, i, d);
        AddMembersWork(doc, tokens, ms, ts, i + 1, d);
      } else {
        var d1 := Insert(d, t.key, t.value);
        SecondPassStep(ms, ts, i, d);
        MemberPathText(tokens, t.key);
        AddEntryIsLocal(doc, tokens, t.key, t.value);
        var doc1 := Change(doc, tokens, Obj(d1), Reached(Obj(ms), Obj(ts)));
        AddMembersWork(doc1, tokens, ms, ts, i + 1, d1);
      }
    } else {
      SecondPassEnds(ms, ts, d);
      ReplaceBySame(doc, tokens);
    }
  }

  lemma SecondPassSkips(ms: Members<Json>, ts: Members<Json>, i: nat, d: Members<Json>)
    requires i < |ts| && HasKey(ms, ts[i].key)
    requires forall k: Bytes :: Find(d, k) == SecondPass(ms, ts, i, k)
    ensures forall k: Bytes :: Find(d, k) == SecondPass(ms, ts, i + 1, k)
  {
    forall k: Bytes
      ensures Find(d, k) == SecondPass(ms, ts, i + 1, k)
    {
      assert Find(d, k) == SecondPass(ms, ts, i, k);
    }
  }

  lemma SecondPassStep(ms: Members<Json>, ts: Members<Json>, i: nat, d: Members<Json>)
    requires i < |ts| && !HasKey(ms, ts[i].key)
    requires forall k: Bytes :: Find(d, k) == SecondPass(ms, ts, i, k)
    ensures forall k: Bytes :: Find(Insert(d, ts[i].key, ts[i].value), k) == SecondPass(ms, ts, i + 1, k)
  {
    forall k: Bytes
      ensures Find(Insert(d, ts[i].key, ts[i].value), k) == SecondPass(ms, ts, i + 1, k)
    {
      LowerBoundAt(ts, i);
      assert Find(d, k) == SecondPass(ms, ts, i, k);
      FindAfterInsert(d, ts[i].key, ts[i].value, k);
    }
  }

  lemma SecondPassEnds(ms: Members<Json>, ts: Members<Json>, d: Members<Json>)
    requires !Eq(Obj(ms), Obj(ts))
    requires forall k: Bytes :: Find(d, k) == SecondPass(ms, ts, |ts|, k)
    ensures Obj(d) == Reached(Obj(ms), Obj(ts))
  {
    var rs := Reached(Obj(ms), Obj(ts)).members;
    forall k: Bytes
      ensures Find(d, k) == Find(rs, k)
    {
      assert Find(d, k) == SecondPass(ms, ts, |ts|, k);
      LowerBoundUnique(rs, k, LowerBound(ts, k));
    }
    SameLookups(d, rs);
  }

  // ---------- the documented invariant ----------

  /** `source.patch(diff(source, target))` */
  function RoundTrip(s: Json, t: Json): Result<Json>
  {
    Patched(s, Arr(Diff(s, t, [])))
  }

  /** `source.patch(diff(source, target)) == target` holds exactly when the indices fit; otherwise it throws. */
  lemma {:induction false} PatchOfDiff(s: Json, t: Json)
    ensures (RoundTrip(s, t).Ok? && Eq(RoundTrip(s, t).value, t)) <==> IndicesFit(s, t)
    ensures !IndicesFit(s, t) ==> RoundTrip(s, t).Err?
  {
    DiffWorks(s, [], s, t);
    ReachedIsEqual(s, t);
  }

  /** No array anywhere in the value has more than 2^31 elements. */
  predicate ShortArrays(j: Json)
  {
    match j
    case Arr(es) => |es| <= INT32_MAX + 1 && forall i | 0 <= i < |es| :: ShortArrays(es[i])
    case Obj(ms) => forall i | 0 <= i < |ms| :: ShortArrays(ms[i].value)
    case _ => true
  }

  lemma {:induction false} ShortArraysFit(s: Json, t: Json)
    requires ShortArrays(s) && ShortArrays(t)
    ensures IndicesFit(s, t)
    decreases s, 0
  {
    if !Eq(s, t) && s.Arr? && t.Arr? {
      ShortElemsFit(s.elems, t.elems, 0);
    } else if !Eq(s, t) && s.Obj? && t.Obj? {
      ShortMembersFit(s.members, t.members, 0);
    }
  }

  lemma {:induction false} ShortElemsFit(es: seq<Json>, ts: seq<Json>, i: nat)
    requires ShortArrays(Arr(es)) && ShortArrays(Arr(ts))
    ensures ElemsFit(es, ts, i)
    decreases es, |es| - i
  {
    if i < |es| && i < |ts| {
      ShortArraysFit(es[i], ts[i]);
      ShortElemsFit(es, ts, i + 1);
    }
  }

  lemma {:induction false} ShortMembersFit(ms: Members<Json>, ts: Members<Json>, i: nat)
    requires ShortArrays(Obj(ms)) && ShortArrays(Obj(ts))
    ensures MembersFit(ms, ts, i)
    decreases ms, |ms| - i
  {
    if i < |ms| {
      if HasKey(ts, ms[i].key) {
        ShortArraysFit(ms[i].value, Find(ts, ms[i].key).value);
      }
      ShortMembersFit(ms, ts, i + 1);
    }
  }

  /** The first array that is too long: the edit script from [] names the index 2^31, which `stoi` cannot read. */
  lemma LongArrayThrows(v: Json)
    ensures var ts := seq(INT32_MAX + 2, _ => v);
      !IndicesFit(Arr([]), Arr(ts)) && RoundTrip(Arr([]), Arr(ts)).Err?
  {
    var ts := seq(INT32_MAX + 2, _ => v);
    assert |ts| == INT32_MAX + 2;
    PatchOfDiff(Arr([]), Arr(ts));
  }

  // ---------- the loops ----------

  /** `diff` as written: a result array that the recursive calls and the loops extend. */
  method DiffLoop(s: Json, t: Json, path: Bytes) returns (result: seq<Json>)
    ensures result == Diff(s, t, path)
    decreases s
  {
    result := [];
    if Eq(s, t) {
      return;
    }
    if !SameType(s, t) {
      result := [ReplaceEntry(path, t)];
    } else if s.Arr? {
      result := DiffArrays(s.elems, t.elems, path);
    } else if s.Obj? {
      result := DiffObjects(s.members, t.members, path);
    } else {
      result := [ReplaceEntry(path, t)];
    }
  }

  method DiffArrays(es: seq<Json>, ts: seq<Json>, path: Bytes) returns (result: seq<Json>)
    ensures result == DiffElems(es, ts, path, 0) + (RemoveElems(path, |es|, |ts|) + AddElems(ts, path, |es|))
    decreases es
  {
    result := [];
    var i := 0;
    ghost var elems := DiffElems(es, ts, path, 0);
    LeftUnit(elems);
    while i < |es| && i < |ts|
      invariant i <= |es| && i <= |ts|
      invariant result + DiffElems(es, ts, path, i) == elems
    {
      var temp := DiffLoop(es[i], ts[i], ElemPath(path, i));
      Assoc(result, temp, DiffElems(es, ts, path, i + 1));
      result := result + temp;
      i := i + 1;
    }
    RightUnit(result);
    var endIndex := |result|;
    RightUnit(elems);
    while i < |es|
      invariant i <= |es| && (i == |es| || |ts| <= i)
      invariant endIndex == |elems| && result == elems + RemoveElems(path, i, |ts|)
    {
      var removes := RemoveElems(path, i, |ts|);
      PartsOfConcat(elems, removes);
      Assoc(elems, [RemoveEntry(ElemPath(path, i))], removes);
      result := result[..endIndex] + [RemoveEntry(ElemPath(path, i))] + result[endIndex..];
      i := i + 1;
    }
    ghost var before, adds := result, AddElems(ts, path, |es|);
    while i < |ts|
      invariant |es| <= i && (i <= |ts| || i == |es|)
      invariant result + AddElems(ts, path, i) == before + adds
    {
      var entry := AddEntry(ElemPath(path, i), ts[i]);
      Assoc(result, [entry], AddElems(ts, path, i + 1));
      result := result + [entry];
      i := i + 1;
    }
    RightUnit(result);
    Assoc(elems, RemoveElems(path, |es|, |ts|), adds);
  }

  method DiffObjects(ms: Members<Json>, ts: Members<Json>, path: Bytes) returns (result: seq<Json>)
    ensures result == DiffMembers(ms, ts, path, 0) + AddMembers(ms, ts, path, 0)
    decreases ms
  {
    result := [];
    ghost var kept := DiffMembers(ms, ts, path, 0);
    LeftUnit(kept);
    for i := 0 to |ms|
      invariant result + DiffMembers(ms, ts, path, i) == kept
    {
      var m := ms[i];
      ghost var temp := DiffMember(m, ts, path);
      Assoc(result, temp, DiffMembers(ms, ts, path, i + 1));
      if HasKey(ts, m.key) {
        var changes := DiffLoop(m.value, Find(ts, m.key).value, MemberPath(path, m.key));
        result := result + changes;
      } else {
        result := result + [RemoveEntry(MemberPath(path, m.key))];
      }
    }
    RightUnit(result);
    ghost var added := AddMembers(ms, ts, path, 0);
    for i := 0 to |ts|
      invariant result + AddMembers(ms, ts, path, i) == kept + added
    {
      Assoc(result, AddMember(ms, ts[i], path), AddMembers(ms, ts, path, i + 1));
      if !HasKey(ms, ts[i].key) {
        result := result + [AddEntry(MemberPath(path, ts[i].key), ts[i].value)];
      } else {
        RightUnit(result);
      }
    }
    RightUnit(result);
  }
}

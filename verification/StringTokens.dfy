/** What `get_string` makes of the string tokens that the scanner accepts. */
module StringTokens {
  import opened ByteStrings
  import opened Wrappers
  import opened Sequences
  import opened Utf8
  import opened Escaping

  // ---------- surrogates ----------

  /** Every escaped surrogate is half of a pair: a high one directly followed by a low one. */
  predicate Paired(b: Bytes)
    requires EscapesOk(b)
    decreases |b|
  {
    if b == [] then true
    else if b[0] != BACKSLASH then Paired(b[1..])
    else if EscapeLength(b) == 2 then Paired(b[2..])
    else if IsHigh(Hex4(b)) then NextHex4(b).Some? && IsLow(NextHex4(b).value) && Paired(b[12..])
    else !IsLow(Hex4(b)) && Paired(b[6..])
  }

  lemma Hex4Fits(b: Bytes)
    requires EscapeLength(b) == 6
    ensures Hex4(b) <= 0xffff
  {}

  /** `get_string` throws exactly for an unpaired surrogate. */
  lemma {:induction false} ThrowsWhenUnpaired(b: Bytes)
    requires EscapesOk(b)
    ensures GetString(b).Ok? <==> Paired(b)
    ensures GetString(b).Err? ==> GetString(b).error == InvalidArgument
    decreases |b|
  {
    hide Hex4;
    if b != [] {
      if b[0] != BACKSLASH {
        ThrowsWhenUnpaired(b[1..]);
      } else if EscapeLength(b) == 2 {
        ThrowsWhenUnpaired(b[2..]);
      } else {
        Hex4Fits(b);
        if IsHigh(Hex4(b)) {
          if NextHex4(b).Some? {
            ThrowsWhenUnpaired(b[12..]);
            if IsLow(NextHex4(b).value) {
              PairsAreSupplementary(Hex4(b), NextHex4(b).value);
            }
          }
        } else {
          ThrowsWhenUnpaired(b[6..]);
        }
      }
    }
  }

  // ---------- what an accepted token means ----------

  /** The unescaped characters of a sequence are no backslash. */
  lemma SequenceIsRaw(b: Bytes, n: nat)
    requires n == SequenceLength(b) > 0 && b[0] != BACKSLASH
    ensures BACKSLASH !in b[..n] && SequenceLength(b[..n]) == n
  {
    assert forall i :: 0 <= i < n ==> b[..n][i] == b[i];
  }

  lemma {:induction false} BodyEscapes(b: Bytes)
    requires Body(b)
    ensures EscapesOk(b)
    decreases |b|
  {
    if b != [] {
      var n := UnitLength(b);
      BodyEscapes(b[n..]);
      if b[0] != BACKSLASH {
        SequenceIsRaw(b, n);
        RawChunk(b[..n], b[n..]);
        Parts(b, n);
      }
    }
  }

  lemma ScalarIsWellFormed(cp: nat, s: Bytes)
    requires IsScalar(cp) && WellFormed(s)
    ensures WellFormed(Append(cp).value + s)
  {
    ReadsBack(cp);
    WellFormedPrepend(Append(cp).value, s);
  }

  lemma ShortIsWellFormed(c: Byte, s: Bytes)
    requires ShortMeaning(c).Some? && WellFormed(s)
    ensures WellFormed([ShortMeaning(c).value] + s)
  {
    WellFormedPrepend([ShortMeaning(c).value], s);
  }

  /** The value of an accepted string token is well-formed UTF-8. */
  lemma {:induction false} ValueIsWellFormed(b: Bytes)
    requires Body(b) && EscapesOk(b) && GetString(b).Ok?
    ensures WellFormed(GetString(b).value)
    decreases |b|
  {
    hide WellFormed, Hex4, ToUnicode, Append;
    if b == [] {
      EmptyIsWellFormed();
    } else if b[0] != BACKSLASH {
      var n := UnitLength(b);
      BodyEscapes(b[n..]);
      SequenceIsRaw(b, n);
      RawChunk(b[..n], b[n..]);
      Parts(b, n);
      ValueIsWellFormed(b[n..]);
      WellFormedPrepend(b[..n], GetString(b[n..]).value);
    } else if EscapeLength(b) == 2 {
      ValueIsWellFormed(b[2..]);
      ShortIsWellFormed(b[1], GetString(b[2..]).value);
    } else {
      UnicodeIsWellFormed(b);
    }
  }

  lemma EmptyIsWellFormed()
    ensures WellFormed([])
  {}

  lemma {:induction false} UnicodeIsWellFormed(b: Bytes)
    requires Body(b) && EscapesOk(b) && GetString(b).Ok? && EscapeLength(b) == 6
    ensures WellFormed(GetString(b).value)
    decreases |b|, 0
  {
    hide WellFormed, Hex4;
    Hex4Fits(b);
    if IsHigh(Hex4(b)) {
      BodyAfterPair(b);
      ValueIsWellFormed(b[12..]);
      PairsAreSupplementary(Hex4(b), NextHex4(b).value);
      ScalarIsWellFormed(PairValue(Hex4(b), NextHex4(b).value), GetString(b[12..]).value);
    } else {
      ValueIsWellFormed(b[6..]);
      ScalarIsWellFormed(Hex4(b), GetString(b[6..]).value);
    }
  }

  lemma BodyAfterPair(b: Bytes)
    requires Body(b) && EscapesOk(b) && EscapeLength(b) == 6 && NextHex4(b).Some?
    ensures Body(b[12..])
  {
    assert EscapeLength(b[6..]) == 6 && b[6..][6..] == b[12..];
  }

  // ---------- tokens that the printer writes ----------

  lemma EscapedUnit(c: Byte, rest: Bytes)
    requires c <= 0x7f
    ensures UnitLength(EscapeChar(c) + rest) == |EscapeChar(c)|
    ensures (EscapeChar(c) + rest)[0] != QUOTE
  {
    if c <= 0x1f && ShortEscape(c).None? {
      HexReadsBack(c / 16);
      HexReadsBack(c % 16);
    }
  }

  /** A prefix of bytes from 0x80 on is copied by `escape_string`. */
  lemma {:induction false} HighBytesStay(u: Bytes, s: Bytes)
    requires forall i :: 0 <= i < |u| ==> u[i] >= 0x80
    ensures Escape(u + s) == u + Escape(s)
  {
    if u == [] {
      LeftUnit(s);
      LeftUnit(Escape(s));
    } else {
      HighBytesStay(u[1..], s);
      ConcatHead(u, s);
      HeadTail(u);
      Assoc([u[0]], u[1..], Escape(s));
    }
  }

  /** The number of bytes from 0x80 on, up to `max`, at the front of a text. */
  function HighRun(s: Bytes, max: nat): (n: nat)
    ensures n <= max && n <= |s|
    ensures forall i :: 0 <= i < n ==> s[i] >= 0x80
    ensures n < max && n < |s| ==> s[n] < 0x80
  {
    if max == 0 || s == [] || s[0] < 0x80 then 0 else 1 + HighRun(s[1..], max - 1)
  }

  lemma {:induction false} TailsSurvive(s: Bytes, rest: Bytes, max: nat)
    ensures var e, n := Escape(s) + ([QUOTE] + rest), HighRun(s, max);
      n <= |e| && e[..n] == s[..n] && (n < max ==> n < |e| && e[n] < 0x80)
  {
    var n := HighRun(s, max);
    var tail := Escape(s[n..]);
    Parts(s, n);
    HighBytesStay(s[..n], s[n..]);
    Assoc(s[..n], tail, [QUOTE] + rest);
    PartsOfConcat(s[..n], tail + ([QUOTE] + rest));
    if n < |s| {
      EscapedIsAscii(s[n..], [QUOTE] + rest, n < max);
    }
  }

  lemma AgreeingRuns(s: Bytes, e: Bytes, n: nat)
    requires s != [] && s[0] >= 0x80 && n == HighRun(s, 4)
    requires n <= |e| && e[..n] == s[..n] && (n < 4 ==> n < |e| && e[n] < 0x80)
    ensures SequenceLength(e) == SequenceLength(s)
  {
    assert forall i :: 0 <= i < n ==> e[..n][i] == e[i] && s[..n][i] == s[i];
  }

  /** Escaping does not make a sequence well-formed or ill-formed. */
  lemma SequenceSurvives(s: Bytes, rest: Bytes)
    requires s != [] && s[0] >= 0x80
    ensures SequenceLength(Escape(s) + ([QUOTE] + rest)) == SequenceLength(s)
  {
    TailsSurvive(s, rest, 4);
    AgreeingRuns(s, Escape(s) + ([QUOTE] + rest), HighRun(s, 4));
  }

  lemma EscapedIsAscii(s: Bytes, rest: Bytes, ascii: bool)
    requires s != [] && (ascii ==> s[0] < 0x80)
    ensures |Escape(s) + rest| > 0 && (ascii ==> (Escape(s) + rest)[0] < 0x80)
  {}

  /**
   Behind the escaped form of `s` and a quote, the scanner's characters end at that quote when `s` is
   well-formed UTF-8, and nowhere otherwise.
   */
  lemma {:induction false} BodyEndOfEscape(s: Bytes, rest: Bytes)
    ensures BodyEnd(Escape(s) + ([QUOTE] + rest)) == if WellFormed(s) then Some(|Escape(s)|) else None
    decreases |s|
  {
    var e := Escape(s) + ([QUOTE] + rest);
    if s == [] {
      LeftUnit([QUOTE] + rest);
    } else if s[0] <= 0x7f {
      var u := EscapeChar(s[0]);
      Assoc(u, Escape(s[1..]), [QUOTE] + rest);
      EscapedUnit(s[0], Escape(s[1..]) + ([QUOTE] + rest));
      PartsOfConcat(u, Escape(s[1..]) + ([QUOTE] + rest));
      BodyEndOfEscape(s[1..], rest);
      assert SequenceLength(s) == 1;
    } else {
      BodyEndOfHigh(s, rest);
    }
  }

  lemma {:induction false} BodyEndOfHigh(s: Bytes, rest: Bytes)
    requires s != [] && s[0] >= 0x80
    ensures BodyEnd(Escape(s) + ([QUOTE] + rest)) == if WellFormed(s) then Some(|Escape(s)|) else None
    decreases |s|, 0
  {
    hide Escape, BodyEnd, WellFormed;
    var n := SequenceLength(s);
    SequenceSurvives(s, rest);
    FirstIsHigh(s, rest);
    BodyEndStep(Escape(s) + ([QUOTE] + rest));
    WellFormedStep(s);
    if n > 0 {
      Parts(s, n);
      HighSequence(s);
      HighBytesStay(s[..n], s[n..]);
      Assoc(s[..n], Escape(s[n..]), [QUOTE] + rest);
      PartsOfConcat(s[..n], Escape(s[n..]) + ([QUOTE] + rest));
      BodyEndOfEscape(s[n..], rest);
    }
  }

  lemma HighSequence(s: Bytes)
    requires s != [] && s[0] >= 0x80
    ensures forall i :: 0 <= i < SequenceLength(s) ==> s[..SequenceLength(s)][i] >= 0x80
  {}

  lemma FirstIsHigh(s: Bytes, rest: Bytes)
    requires s != [] && s[0] >= 0x80
    ensures |Escape(s) + ([QUOTE] + rest)| > 0 && (Escape(s) + ([QUOTE] + rest))[0] >= 0x80
  {}

  lemma BodyEndStep(b: Bytes)
    requires b != [] && b[0] >= 0x80
    ensures BodyEnd(b) ==
      if SequenceLength(b) == 0 then None
      else
        var r := BodyEnd(b[SequenceLength(b)..]);
        if r.Some? then Some(SequenceLength(b) + r.value) else None
  {
    hide SequenceLength, EscapeLength;
    assert UnitLength(b) == SequenceLength(b);
  }

  lemma WellFormedStep(s: Bytes)
    requires s != []
    ensures WellFormed(s) <==> SequenceLength(s) > 0 && WellFormed(s[SequenceLength(s)..])
  {}

  // ---------- the loop ----------

  /** `std::find(s + i, s + end, '\\')` */
  function FindBackslash(s: Bytes, i: nat, end: nat): (e: nat)
    requires i <= end <= |s|
    ensures i <= e <= end
    ensures forall k :: i <= k < e ==> s[k] != BACKSLASH
    ensures e < end ==> s[e] == BACKSLASH
    decreases end - i
  {
    if i == end || s[i] == BACKSLASH then i else FindBackslash(s, i + 1, end)
  }

  lemma ConsCons(result: Bytes, u: Bytes, r: Result<Bytes>)
    ensures Cons(result, Cons(u, r)) == Cons(result + u, r)
  {
    if r.Ok? {
      Assoc(result, u, r.value);
    }
  }

  /** One turn of the loop at a run of characters without a backslash. */
  lemma {:induction false} RawTurn(s: Bytes, i: nat, e: nat, end: nat, result: Bytes)
    requires i <= e <= end <= |s| && EscapesOk(s[i..end])
    requires forall k :: i <= k < e ==> s[k] != BACKSLASH
    ensures EscapesOk(s[e..end])
    ensures Cons(result, GetString(s[i..end])) == Cons(result + s[i..e], GetString(s[e..end]))
    decreases e - i
  {
    hide Cons;
    if i == e {
      assert s[i..e] == [];
      RightUnit(result);
    } else {
      assert s[i..end][1..] == s[i + 1..end];
      ConsCons(result, [s[i]], GetString(s[i + 1..end]));
      RawTurn(s, i + 1, e, end, result + [s[i]]);
      assert s[i..e] == [s[i]] + s[i + 1..e];
      Assoc(result, [s[i]], s[i + 1..e]);
    }
  }

  /** One turn at a two-character escape. */
  lemma ShortTurn(s: Bytes, i: nat, end: nat, result: Bytes)
    requires i < end < |s| && EscapesOk(s[i..end]) && s[i] == BACKSLASH && ShortMeaning(s[i + 1]).Some?
    ensures i + 2 <= end && EscapesOk(s[i + 2..end])
    ensures Cons(result, GetString(s[i..end])) ==
      Cons(result + [ShortMeaning(s[i + 1]).value], GetString(s[i + 2..end]))
  {
    hide Cons, Hex4;
    assert EscapeLength(s[i..end]) == 2 && s[i..end][2..] == s[i + 2..end];
    ConsCons(result, [ShortMeaning(s[i + 1]).value], GetString(s[i + 2..end]));
  }

  lemma UnicodeLength(s: Bytes, i: nat, end: nat)
    requires i < end < |s| && EscapesOk(s[i..end]) && s[i] == BACKSLASH && ShortMeaning(s[i + 1]).None?
    ensures EscapeLength(s[i..end]) == 6 && s[i + 1] == LETTER_U && i + 6 <= end && EscapesOk(s[i + 6..end])
    ensures s[i..end][6..] == s[i + 6..end]
  {}

  /** One turn at a unicode escape that is no surrogate. */
  lemma SingleTurn(s: Bytes, i: nat, end: nat, result: Bytes)
    requires i < end < |s| && EscapesOk(s[i..end]) && EscapeLength(s[i..end]) == 6 && !IsHigh(Hex4(s[i..end]))
    ensures i + 6 <= end && EscapesOk(s[i + 6..end])
    ensures IsLow(Hex4(s[i..end])) ==> GetString(s[i..end]) == Err(InvalidArgument)
    ensures !IsLow(Hex4(s[i..end])) ==>
      var u := ToUnicode(Hex4(s[i..end]));
      Cons(result, GetString(s[i..end])) == if u.Ok? then Cons(result + u.value, GetString(s[i + 6..end])) else u
  {
    hide Cons, Hex4;
    Hex4Fits(s[i..end]);
    assert s[i..end][6..] == s[i + 6..end];
    if !IsLow(Hex4(s[i..end])) {
      ConsCons(result, ToUnicode(Hex4(s[i..end])).value, GetString(s[i + 6..end]));
    }
  }

  /** The three characters that are looked at behind a high surrogate decide as in `NextHex4`. */
  lemma LowSurrogateFollows(s: Bytes, i: nat, end: nat)
    requires i < end < |s| && s[end] == QUOTE && EscapesOk(s[i..end]) && EscapeLength(s[i..end]) == 6
    ensures EscapesOk(s[i..end][6..])
    ensures NextHex4(s[i..end]).Some? <==> i + 7 < |s| && s[i + 6] == BACKSLASH && s[i + 7] == LETTER_U
    ensures NextHex4(s[i..end]).Some? ==>
      i + 12 <= end && s[i..end][6..] == s[i + 6..end] && s[i..end][12..] == s[i + 12..end] &&
      EscapeLength(s[i + 6..end]) == 6
  {
    var b := s[i..end];
    assert b[6..] == s[i + 6..end];
    if i + 7 < |s| && s[i + 6] == BACKSLASH && s[i + 7] == LETTER_U {
      assert b[6..][0] == BACKSLASH;
      assert EscapeLength(b[6..]) > 0;
      assert b[6..][1] == s[i + 7];
    }
    if NextHex4(b).Some? {
      assert b[12..] == s[i + 12..end];
      assert b[6..][1] == s[i + 7];
    }
  }

  /** One turn at a high surrogate. */
  lemma PairTurn(s: Bytes, i: nat, end: nat, result: Bytes)
    requires i < end < |s| && s[end] == QUOTE && EscapesOk(s[i..end]) && EscapeLength(s[i..end]) == 6
    requires IsHigh(Hex4(s[i..end]))
    ensures
      if i + 7 < |s| && s[i + 6] == BACKSLASH && s[i + 7] == LETTER_U then
        i + 12 <= end && EscapesOk(s[i + 12..end]) && EscapeLength(s[i + 6..end]) == 6 &&
        var u := ToUnicode(Hex4(s[i..end]), Hex4(s[i + 6..end]));
        if u.Ok? then Cons(result, GetString(s[i..end])) == Cons(result + u.value, GetString(s[i + 12..end]))
        else GetString(s[i..end]) == Err(u.error)
      else GetString(s[i..end]) == Err(InvalidArgument)
  {
    hide Cons, Hex4, EscapeLength, ToUnicode, EscapesOk;
    LowSurrogateFollows(s, i, end);
    var next := NextHex4(s[i..end]);
    if next.Some? {
      var u := ToUnicode(Hex4(s[i..end]), next.value);
      if u.Ok? {
        ConsCons(result, u.value, GetString(s[i + 12..end]));
      }
    }
  }

  /** `get_string`: walks through the buffer from behind the opening quote to the closing one. */
  method GetStringLoop(s: Bytes, start: nat, cursor: nat) returns (r: Result<Bytes>)
    requires start + 2 <= cursor <= |s| && s[cursor - 1] == QUOTE
    requires EscapesOk(s[start + 1..cursor - 1])
    ensures r == GetString(s[start + 1..cursor - 1])
  {
    hide GetString, EscapesOk, EscapeLength, Hex4, ToUnicode, ShortMeaning, IsHigh, IsLow, Cons;
    var end := cursor - 1;
    ghost var whole := GetString(s[start + 1..end]);
    var result: Bytes := [];
    var i := start + 1;
    ConsEmpty(whole);
    while i < end
      invariant start + 1 <= i <= end && EscapesOk(s[i..end])
      invariant Cons(result, GetString(s[i..end])) == whole
    {
      var e := FindBackslash(s, i, end);
      if e != i {
        RawTurn(s, i, e, end, result);
        result := result + s[i..e];
        i := e - 1;
      } else {
        i := i + 1;
        if ShortMeaning(s[i]).Some? {
          ShortTurn(s, i - 1, end, result);
          result := result + [ShortMeaning(s[i]).value];
        } else {
          UnicodeLength(s, i - 1, end);
          var codepoint := Hex4(s[i - 1..end]);
          if IsHigh(codepoint) {
            PairTurn(s, i - 1, end, result);
            ConsError(result, GetString(s[i - 1..end]));
            if i + 6 >= |s| || s[i + 5] != BACKSLASH || s[i + 6] != LETTER_U {
              return Err(InvalidArgument);
            }
            var u :- ToUnicode(codepoint, Hex4(s[i + 5..end]));
            result := result + u;
            i := i + 10;
          } else {
            SingleTurn(s, i - 1, end, result);
            ConsError(result, GetString(s[i - 1..end]));
            if IsLow(codepoint) {
              return Err(InvalidArgument);
            }
            var u :- ToUnicode(codepoint);
            result := result + u;
            i := i + 4;
          }
        }
      }
      i := i + 1;
    }
    NothingLeft(s, end, result);
    r := Ok(result);
  }

  lemma NothingLeft(s: Bytes, end: nat, result: Bytes)
    requires end <= |s|
    ensures EscapesOk(s[end..end]) && Cons(result, GetString(s[end..end])) == Ok(result)
  {
    RightUnit(result);
  }

  lemma ConsEmpty(r: Result<Bytes>)
    ensures Cons([], r) == r
  {
    if r.Ok? {
      LeftUnit(r.value);
    }
  }

  lemma ConsError(result: Bytes, r: Result<Bytes>)
    ensures r.Err? ==> Cons(result, r) == r
  {}
}

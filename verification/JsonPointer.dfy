/** JSON Pointer text (RFC 6901): escaping, splitting into reference tokens and printing. */
module JsonPointer {
  import opened ByteStrings
  import opened Sequences
  import opened Wrappers

  const TILDE: Byte := '~' as int
  const SLASH: Byte := '/' as int
  const DIGIT0: Byte := '0' as int
  const DIGIT1: Byte := '1' as int

  /** `std::string::npos`, the `size_t` value of -1: adding one to it gives 0. */
  const NPOS := -1

  /** Replaces every occurrence of `f`, scanning left to right and skipping what was inserted. */
  function ReplaceAll(s: Bytes, f: Bytes, t: Bytes): Bytes
    requires f != []
    decreases |s|
  {
    if |s| < |f| then s
    else if s[..|f|] == f then t + ReplaceAll(s[|f|..], f, t)
    else [s[0]] + ReplaceAll(s[1..], f, t)
  }

  /** `escape`: two replacements, one after the other. */
  function EscapeByReplacing(s: Bytes): Bytes
  {
    ReplaceAll(ReplaceAll(s, [TILDE], [TILDE, DIGIT0]), [SLASH], [TILDE, DIGIT1])
  }

  /** `unescape`: two replacements, one after the other. */
  function UnescapeByReplacing(s: Bytes): Bytes
  {
    ReplaceAll(ReplaceAll(s, [TILDE, DIGIT1], [SLASH]), [TILDE, DIGIT0], [TILDE])
  }

  /** RFC 6901 section 3, one character at a time. */
  function Escape(s: Bytes): Bytes
  {
    if s == [] then []
    else
      (if s[0] == TILDE then [TILDE, DIGIT0] else if s[0] == SLASH then [TILDE, DIGIT1] else [s[0]])
      + Escape(s[1..])
  }

  /** RFC 6901 section 4, read once from left to right. */
  function Unescape(s: Bytes): Bytes
    decreases |s|
  {
    if s == [] then []
    else if |s| >= 2 && s[0] == TILDE && s[1] == DIGIT0 then [TILDE] + Unescape(s[2..])
    else if |s| >= 2 && s[0] == TILDE && s[1] == DIGIT1 then [SLASH] + Unescape(s[2..])
    else [s[0]] + Unescape(s[1..])
  }

  /** Every `~` is followed by `0` or `1`. */
  predicate WellEscaped(s: Bytes)
  {
    forall i | 0 <= i < |s| && s[i] == TILDE :: i + 1 < |s| && (s[i + 1] == DIGIT0 || s[i + 1] == DIGIT1)
  }

  /** The text before the first slash. */
  function UpToSlash(s: Bytes): (r: Bytes)
    ensures r <= s && SLASH !in r
    ensures |r| < |s| ==> s[|r|] == SLASH
  {
    if s == [] || s[0] == SLASH then [] else [s[0]] + UpToSlash(s[1..])
  }

  /** The reference tokens of a text from which the leading slash has been dropped. */
  function SplitTokens(s: Bytes): Result<seq<Bytes>>
    decreases |s|
  {
    var raw := UpToSlash(s);
    if !WellEscaped(raw) then Err(DomainError)
    else if |raw| == |s| then Ok([Unescape(raw)])
    else
      var rest :- SplitTokens(s[|raw| + 1..]);
      Ok([Unescape(raw)] + rest)
  }

  /** `tokens` in front of what `split` makes of the rest. */
  function Prepend(tokens: seq<Bytes>, r: Result<seq<Bytes>>): Result<seq<Bytes>>
  {
    if r.Ok? then Ok(tokens + r.value) else r
  }

  /** `json_pointer(s)` */
  function Split(s: Bytes): Result<seq<Bytes>>
  {
    if s == [] then Ok([])
    else if s[0] != SLASH then Err(DomainError)
    else SplitTokens(s[1..])
  }

  /** `to_string`: a left fold over the reference tokens. */
  function ToString(tokens: seq<Bytes>): Bytes
  {
    if tokens == [] then []
    else ToString(tokens[..|tokens| - 1]) + [SLASH] + Escape(tokens[|tokens| - 1])
  }

  // ---------- escaping ----------

  /** One replaced character at a time, for a one-byte pattern. */
  lemma ReplaceByte(c: Byte, x: Byte, rest: Bytes, t: Bytes)
    ensures ReplaceAll([x] + rest, [c], t) == (if x == c then t else [x]) + ReplaceAll(rest, [c], t)
  {
    var u := [x] + rest;
    assert u[1..] == rest && u[..1] == [x];
  }

  /** The two replacements of `escape` act character by character. */
  lemma {:induction false} EscapeIsReplacing(s: Bytes)
    ensures EscapeByReplacing(s) == Escape(s)
  {
    if s != [] {
      var rest := ReplaceAll(s[1..], [TILDE], [TILDE, DIGIT0]);
      assert s == [s[0]] + s[1..];
      ReplaceByte(TILDE, s[0], s[1..], [TILDE, DIGIT0]);
      if s[0] == TILDE {
        assert [TILDE, DIGIT0] + rest == [TILDE] + ([DIGIT0] + rest);
        ReplaceByte(SLASH, TILDE, [DIGIT0] + rest, [TILDE, DIGIT1]);
        ReplaceByte(SLASH, DIGIT0, rest, [TILDE, DIGIT1]);
      } else {
        ReplaceByte(SLASH, s[0], rest, [TILDE, DIGIT1]);
      }
      EscapeIsReplacing(s[1..]);
    }
  }

  /** `unescape(escape(s)) == s`, and an escaped token has no slash and no stray tilde. */
  lemma {:induction false} UnescapeOfEscape(s: Bytes)
    ensures Unescape(Escape(s)) == s
    ensures WellEscaped(Escape(s)) && SLASH !in Escape(s)
  {
    if s != [] {
      UnescapeOfEscape(s[1..]);
      var e, rest := Escape(s), Escape(s[1..]);
      if s[0] == TILDE || s[0] == SLASH {
        assert e[2..] == rest;
        assert forall i :: 2 <= i < |e| ==> e[i] == rest[i - 2];
      } else {
        assert e[1..] == rest;
        assert forall i :: 1 <= i < |e| ==> e[i] == rest[i - 1];
      }
    }
  }

  /** `escape(unescape(s)) == s` for every raw token that `split` accepts. */
  lemma {:induction false} EscapeOfUnescape(s: Bytes)
    requires WellEscaped(s) && SLASH !in s
    ensures Escape(Unescape(s)) == s
    decreases |s|
  {
    if s != [] {
      var k := if s[0] == TILDE then 2 else 1;
      assert WellEscaped(s[k..]) by {
        assert forall i :: 0 <= i < |s| - k ==> s[k..][i] == s[i + k];
      }
      EscapeOfUnescape(s[k..]);
      var u := Unescape(s);
      assert u[1..] == Unescape(s[k..]);
    }
  }

  /** Replacing a two-byte pattern at the front, or past a byte that cannot start it. */
  lemma ReplacePair(a: Byte, b: Byte, rest: Bytes, t: Bytes)
    ensures ReplaceAll([a, b] + rest, [a, b], t) == t + ReplaceAll(rest, [a, b], t)
  {
    var u := [a, b] + rest;
    assert u[2..] == rest && u[..2] == [a, b];
  }

  lemma ReplacePairSkips(a: Byte, b: Byte, x: Byte, rest: Bytes, t: Bytes)
    requires x != a || rest == [] || rest[0] != b
    ensures ReplaceAll([x] + rest, [a, b], t) == [x] + ReplaceAll(rest, [a, b], t)
  {
    var u := [x] + rest;
    assert u[1..] == rest;
    if |u| >= 2 {
      assert u[..2] == [x, rest[0]];
    }
  }

  /** `~1` before `~0`: the two replacements of `unescape` equal one decode from left to right. */
  lemma {:induction false} UnescapeIsReplacing(s: Bytes)
    requires WellEscaped(s)
    ensures UnescapeByReplacing(s) == Unescape(s)
    decreases |s|
  {
    if s != [] {
      var slashed := ReplaceAll(s, [TILDE, DIGIT1], [SLASH]);
      if s[0] == TILDE {
        assert WellEscaped(s[2..]) by {
          assert forall i :: 0 <= i < |s| - 2 ==> s[2..][i] == s[i + 2];
        }
        UnescapeIsReplacing(s[2..]);
        var rest := ReplaceAll(s[2..], [TILDE, DIGIT1], [SLASH]);
        if s[1] == DIGIT0 {
          assert s == [TILDE] + ([DIGIT0] + s[2..]);
          ReplacePairSkips(TILDE, DIGIT1, TILDE, [DIGIT0] + s[2..], [SLASH]);
          ReplacePairSkips(TILDE, DIGIT1, DIGIT0, s[2..], [SLASH]);
          assert slashed == [TILDE, DIGIT0] + rest;
          ReplacePair(TILDE, DIGIT0, rest, [TILDE]);
        } else {
          assert s == [TILDE, DIGIT1] + s[2..];
          ReplacePair(TILDE, DIGIT1, s[2..], [SLASH]);
          ReplacePairSkips(TILDE, DIGIT0, SLASH, rest, [TILDE]);
        }
      } else {
        assert WellEscaped(s[1..]) by {
          assert forall i :: 0 <= i < |s| - 1 ==> s[1..][i] == s[i + 1];
        }
        UnescapeIsReplacing(s[1..]);
        var rest := ReplaceAll(s[1..], [TILDE, DIGIT1], [SLASH]);
        assert s == [s[0]] + s[1..];
        ReplacePairSkips(TILDE, DIGIT1, s[0], s[1..], [SLASH]);
        ReplacePairSkips(TILDE, DIGIT0, s[0], rest, [TILDE]);
      }
    }
  }

  // ---------- splitting and printing ----------

  lemma {:induction false} UpToSlashStops(raw: Bytes, rest: Bytes)
    requires SLASH !in raw
    requires rest == [] || rest[0] == SLASH
    ensures UpToSlash(raw + rest) == raw
  {
    if raw == [] {
      assert raw + rest == rest;
    } else {
      assert (raw + rest)[1..] == raw[1..] + rest;
      UpToSlashStops(raw[1..], rest);
    }
  }

  /** The text of a token list, built from the front. */
  function TextOf(tokens: seq<Bytes>): Bytes
  {
    if tokens == [] then [] else [SLASH] + Escape(tokens[0]) + TextOf(tokens[1..])
  }

  lemma TextOfFirst(first: Bytes, tokens: seq<Bytes>)
    ensures TextOf([first] + tokens) == [SLASH] + Escape(first) + TextOf(tokens)
  {
    assert ([first] + tokens)[1..] == tokens;
  }

  lemma {:induction false} TextOfLast(tokens: seq<Bytes>, last: Bytes)
    ensures TextOf(tokens + [last]) == TextOf(tokens) + [SLASH] + Escape(last)
  {
    if tokens == [] {
      assert (tokens + [last])[1..] == [];
    } else {
      assert (tokens + [last])[1..] == tokens[1..] + [last];
      TextOfLast(tokens[1..], last);
    }
  }

  /** `to_string` folds from the left; the result is the same. */
  lemma {:induction false} ToStringIsText(tokens: seq<Bytes>)
    ensures ToString(tokens) == TextOf(tokens)
  {
    if tokens != [] {
      var init, last := tokens[..|tokens| - 1], tokens[|tokens| - 1];
      ToStringIsText(init);
      TextOfLast(init, last);
      assert init + [last] == tokens;
    }
  }

  /** `split` at the first slash. */
  lemma SplitLast(raw: Bytes)
    requires SLASH !in raw
    ensures SplitTokens(raw) == if WellEscaped(raw) then Ok([Unescape(raw)]) else Err(DomainError)
  {
    hide WellEscaped, Unescape;
    UpToSlashStops(raw, []);
    RightUnit(raw);
  }

  lemma SplitFirst(raw: Bytes, rest: Bytes)
    requires SLASH !in raw
    ensures SplitTokens(raw + ([SLASH] + rest)) ==
      if WellEscaped(raw) then Prepend([Unescape(raw)], SplitTokens(rest)) else Err(DomainError)
  {
    hide WellEscaped, Unescape;
    UpToSlashStops(raw, [SLASH] + rest);
    Assoc(raw, [SLASH], rest);
    PartsOfConcat(raw + [SLASH], rest);
  }

  lemma SplitFirstToken(first: Bytes, rest: Bytes, more: seq<Bytes>)
    requires SplitTokens(rest) == Ok(more)
    ensures SplitTokens(Escape(first) + [SLASH] + rest) == Ok([first] + more)
  {
    UnescapeOfEscape(first);
    Assoc(Escape(first), [SLASH], rest);
    SplitFirst(Escape(first), rest);
  }

  lemma {:induction false} SplitTokensOfText(first: Bytes, more: seq<Bytes>) returns (text: Bytes)
    ensures TextOf([first] + more) == [SLASH] + text
    ensures SplitTokens(text) == Ok([first] + more)
    decreases |more|
  {
    hide SplitTokens, Unescape, WellEscaped;
    TextOfFirst(first, more);
    if more == [] {
      text := Escape(first);
      UnescapeOfEscape(first);
      SplitLast(text);
      assert [first] + more == [first];
    } else {
      var rest := SplitTokensOfText(more[0], more[1..]);
      assert more == [more[0]] + more[1..];
      text := Escape(first) + [SLASH] + rest;
      SplitFirstToken(first, rest, more);
    }
  }

  /** `split(to_string(p)) == p` for every list of reference tokens. */
  lemma SplitOfToString(tokens: seq<Bytes>)
    ensures Split(ToString(tokens)) == Ok(tokens)
  {
    ToStringIsText(tokens);
    if tokens != [] {
      var text := SplitTokensOfText(tokens[0], tokens[1..]);
      assert tokens == [tokens[0]] + tokens[1..];
      assert ToString(tokens)[1..] == text;
    }
  }

  /** What `split` does at a text, as a case distinction on its first slash. */
  lemma SplitStep(s: Bytes, raw: Bytes)
    requires SplitTokens(s).Ok? && raw == UpToSlash(s)
    ensures WellEscaped(raw) && SLASH !in raw
    ensures |raw| == |s| ==> raw == s && SplitTokens(s).value == [Unescape(raw)]
    ensures |raw| < |s| ==>
      var rest := s[|raw| + 1..];
      && SplitTokens(rest).Ok?
      && SplitTokens(s).value == [Unescape(raw)] + SplitTokens(rest).value
      && s == raw + ([SLASH] + rest)
  {
    hide WellEscaped, Unescape;
    Parts(s, |raw|);
    if |raw| < |s| {
      DropStep(s, |raw|);
    }
  }

  lemma {:induction false} TextOfSplitTokens(s: Bytes)
    requires SplitTokens(s).Ok?
    ensures TextOf(SplitTokens(s).value) == [SLASH] + s
    decreases |s|
  {
    hide SplitTokens, Unescape, WellEscaped;
    var raw := UpToSlash(s);
    SplitStep(s, raw);
    EscapeOfUnescape(raw);
    if |raw| < |s| {
      var rest := s[|raw| + 1..];
      TextOfSplitTokens(rest);
      TextOfFirst(Unescape(raw), SplitTokens(rest).value);
      Assoc([SLASH], raw, [SLASH] + rest);
    } else {
      TextOfFirst(Unescape(raw), []);
      RightUnit([Unescape(raw)]);
      RightUnit([SLASH] + raw);
    }
  }

  /** `to_string(split(s)) == s` for every text that `split` accepts. */
  lemma ToStringOfSplit(s: Bytes)
    requires Split(s).Ok?
    ensures ToString(Split(s).value) == s
  {
    ToStringIsText(Split(s).value);
    if s != [] {
      TextOfSplitTokens(s[1..]);
    }
  }

  /** `split` accepts exactly the empty text and texts led by a slash whose every `~` starts `~0` or `~1`. */
  lemma SplitAccepts(s: Bytes)
    ensures Split(s).Ok? <==> s == [] || (s[0] == SLASH && WellEscaped(s))
  {
    if s != [] && s[0] == SLASH {
      SplitTokensAccepts(s[1..]);
      assert forall i :: 1 <= i < |s| ==> s[i] == s[1..][i - 1];
      assert WellEscaped(s) <==> WellEscaped(s[1..]);
    }
  }

  lemma {:induction false} SplitTokensAccepts(s: Bytes)
    ensures SplitTokens(s).Ok? <==> WellEscaped(s)
    decreases |s|
  {
    hide SplitTokens, WellEscaped, Unescape, UpToSlash;
    var raw := UpToSlash(s);
    Parts(s, |raw|);
    if |raw| < |s| {
      var rest := s[|raw| + 1..];
      assert raw == s[..|raw|];
      DropStep(s, |raw|);
      SplitFirst(raw, rest);
      SplitTokensAccepts(rest);
      WellEscapedParts(raw, rest);
    } else {
      assert raw == s;
      SplitLast(raw);
    }
  }

  lemma WellEscapedParts(raw: Bytes, rest: Bytes)
    ensures WellEscaped(raw + ([SLASH] + rest)) <==> WellEscaped(raw) && WellEscaped(rest)
  {
    var s := raw + ([SLASH] + rest);
    assert s[|raw|] == SLASH;
    assert forall i :: 0 <= i < |raw| ==> raw[i] == s[i];
    assert forall i :: |raw| < i < |s| ==> s[i] == rest[i - |raw| - 1];
    assert forall i :: 0 <= i < |rest| ==> rest[i] == s[|raw| + 1 + i];
  }

  // ---------- the loops ----------

  /** `s.find_first_of(c, from)`, and `s.find(f, from)` below: a position, or NPOS. */
  function FindByte(s: Bytes, c: Byte, from: nat): (pos: int)
    ensures pos == NPOS || from <= pos < |s|
    ensures pos != NPOS ==> s[pos] == c
    ensures forall i :: from <= i < |s| && (pos == NPOS || i < pos) ==> s[i] != c
    decreases |s| - from
  {
    if from >= |s| then NPOS else if s[from] == c then from else FindByte(s, c, from + 1)
  }

  predicate OccursAt(s: Bytes, f: Bytes, pos: nat)
  {
    pos + |f| <= |s| && s[pos..pos + |f|] == f
  }

  /** The first occurrence of `f` in a text. */
  function FindFirst(s: Bytes, f: Bytes): (pos: int)
    requires f != []
    ensures pos == NPOS || 0 <= pos <= |s| - |f|
    decreases |s|
  {
    if |s| < |f| then NPOS
    else if s[..|f|] == f then 0
    else
      var rest := FindFirst(s[1..], f);
      if rest == NPOS then NPOS else rest + 1
  }

  /** `s.find(f, from)` */
  function FindText(s: Bytes, f: Bytes, from: nat): (pos: int)
    requires f != [] && from <= |s|
    ensures pos == NPOS || from <= pos <= |s| - |f|
  {
    var pos := FindFirst(s[from..], f);
    if pos == NPOS then NPOS else from + pos
  }

  lemma OccursShift(s: Bytes, f: Bytes, i: nat)
    requires s != []
    ensures OccursAt(s, f, i + 1) <==> OccursAt(s[1..], f, i)
  {
    if i + 1 + |f| <= |s| {
      assert s[1..][i..i + |f|] == s[i + 1..i + 1 + |f|];
    }
  }

  lemma {:induction false} FindFirstIsFirst(s: Bytes, f: Bytes, i: nat)
    requires f != []
    ensures var pos := FindFirst(s, f);
      (pos != NPOS ==> OccursAt(s, f, pos)) && (pos == NPOS || i < pos ==> !OccursAt(s, f, i))
    decreases |s|
  {
    if |s| >= |f| && s[..|f|] != f {
      FindFirstIsFirst(s[1..], f, if i > 0 then i - 1 else 0);
      var rest := FindFirst(s[1..], f);
      if rest != NPOS {
        OccursShift(s, f, rest);
      }
      if i > 0 {
        OccursShift(s, f, i - 1);
      }
    }
  }

  /** Replacing everything is replacing the first occurrence and then the rest. */
  lemma {:induction false} ReplaceFirst(s: Bytes, f: Bytes, t: Bytes) returns (skip: Bytes, rest: Bytes)
    requires f != [] && FindFirst(s, f) != NPOS
    ensures |skip| == FindFirst(s, f) && s == skip + (f + rest)
    ensures ReplaceAll(s, f, t) == skip + (t + ReplaceAll(rest, f, t))
    decreases |s|
  {
    if s[..|f|] == f {
      skip, rest := [], s[|f|..];
      Parts(s, |f|);
      LeftUnit(s);
      LeftUnit(t + ReplaceAll(rest, f, t));
    } else {
      var k, r := ReplaceFirst(s[1..], f, t);
      skip, rest := [s[0]] + k, r;
      HeadTail(s);
      Assoc([s[0]], k, f + r);
      Assoc([s[0]], k, t + ReplaceAll(r, f, t));
    }
  }

  lemma {:induction false} NothingToReplace(s: Bytes, f: Bytes, t: Bytes)
    requires f != [] && FindFirst(s, f) == NPOS
    ensures ReplaceAll(s, f, t) == s
    decreases |s|
  {
    if |s| >= |f| {
      NothingToReplace(s[1..], f, t);
      HeadTail(s);
    }
  }

  /** One turn of `replace_substring`: what is done, what is left, and the string in between. */
  lemma ReplaceTurn(done: Bytes, rest: Bytes, f: Bytes, t: Bytes) returns (done': Bytes, rest': Bytes)
    requires f != [] && FindFirst(rest, f) != NPOS
    ensures var pos := |done| + FindFirst(rest, f);
      var s := done + rest;
      pos + |f| <= |s| && s[..pos] + t + s[pos + |f|..] == done' + rest' && |done'| == pos + |t|
    ensures done + ReplaceAll(rest, f, t) == done' + ReplaceAll(rest', f, t)
    ensures |rest'| < |rest|
  {
    var skip, tail := ReplaceFirst(rest, f, t);
    done', rest' := done + skip + t, tail;
    Assoc(done, skip, f + tail);
    PartsOfConcat(done + skip, f + tail);
    Assoc(done + skip, f, tail);
    PartsOfConcat(done + skip + f, tail);
    var r := ReplaceAll(tail, f, t);
    Assoc(done, skip, t + r);
    Assoc(done + skip, t, r);
  }

  /** `replace_substring`: repeated `find` and `replace` on the same string. */
  method ReplaceSubstring(original: Bytes, f: Bytes, t: Bytes) returns (s: Bytes)
    requires f != []
    ensures s == ReplaceAll(original, f, t)
  {
    s := original;
    ghost var done, rest := [], original;
    LeftUnit(original);
    LeftUnit(ReplaceAll(original, f, t));
    var pos := FindText(s, f, 0);
    assert s[0..] == s;
    while pos != NPOS
      invariant s == done + rest
      invariant pos == if FindFirst(rest, f) == NPOS then NPOS else |done| + FindFirst(rest, f)
      invariant done + ReplaceAll(rest, f, t) == ReplaceAll(original, f, t)
      decreases |rest|
    {
      done, rest := ReplaceTurn(done, rest, f, t);
      s := s[..pos] + t + s[pos + |f|..];
      PartsOfConcat(done, rest);
      pos := FindText(s, f, pos + |t|);
    }
    NothingToReplace(rest, f, t);
  }

  method EscapeInPlace(token: Bytes) returns (s: Bytes)
    ensures s == Escape(token)
  {
    s := ReplaceSubstring(token, [TILDE], [TILDE, DIGIT0]);
    s := ReplaceSubstring(s, [SLASH], [TILDE, DIGIT1]);
    EscapeIsReplacing(token);
  }

  method UnescapeInPlace(token: Bytes) returns (s: Bytes)
    requires WellEscaped(token)
    ensures s == Unescape(token)
  {
    s := ReplaceSubstring(token, [TILDE, DIGIT1], [SLASH]);
    s := ReplaceSubstring(s, [TILDE, DIGIT0], [TILDE]);
    UnescapeIsReplacing(token);
  }

  /** The inner loop of `split`: does every `~` of a token start `~0` or `~1`? */
  method CheckEscapes(token: Bytes) returns (ok: bool)
    ensures ok == WellEscaped(token)
  {
    var pos := FindByte(token, TILDE, 0);
    ghost var from := 0;
    while pos != NPOS
      invariant from <= |token| && pos == FindByte(token, TILDE, from)
      invariant forall i | 0 <= i < from && token[i] == TILDE ::
        i + 1 < |token| && (token[i + 1] == DIGIT0 || token[i + 1] == DIGIT1)
      decreases |token| - from
    {
      if pos == |token| - 1 || (token[pos + 1] != DIGIT0 && token[pos + 1] != DIGIT1) {
        return false;
      }
      from := pos + 1;
      pos := FindByte(token, TILDE, pos + 1);
    }
    return true;
  }

  /** One turn of the loop in `split`, from `start` to the next slash. */
  lemma SplitTurn(s: Bytes, start: nat, slash: int, tokens: seq<Bytes>)
    requires start <= |s| && slash == FindByte(s, SLASH, start)
    ensures var raw := s[start..if slash == NPOS then |s| else slash];
      var r := Prepend(tokens, SplitTokens(s[start..]));
      if !WellEscaped(raw) then r == Err(DomainError)
      else if slash == NPOS then r == Ok(tokens + [Unescape(raw)])
      else r == Prepend(tokens + [Unescape(raw)], SplitTokens(s[slash + 1..]))
  {
    hide SplitTokens, WellEscaped, Unescape;
    var end := if slash == NPOS then |s| else slash;
    var raw := s[start..end];
    Slice(s, start, end);
    if slash == NPOS {
      RightUnit(raw);
      SplitLast(raw);
    } else {
      DropStep(s, slash);
      SplitFirst(raw, s[slash + 1..]);
      var rest := SplitTokens(s[slash + 1..]);
      if rest.Ok? {
        Assoc(tokens, [Unescape(raw)], rest.value);
      }
    }
  }

  /** `split`: `start` becomes `npos + 1`, that is 0, after the last token. */
  method SplitLoop(s: Bytes) returns (r: Result<seq<Bytes>>)
    ensures r == Split(s)
  {
    var tokens: seq<Bytes> := [];
    if s == [] {
      return Ok(tokens);
    }
    if s[0] != SLASH {
      return Err(DomainError);
    }
    var slash, start := FindByte(s, SLASH, 1), 1;
    ghost var tail := SplitTokens(s[1..]);
    assert tail.Ok? ==> tokens + tail.value == tail.value;
    while start != 0
      invariant 0 <= start <= |s|
      invariant start == 0 ==> Split(s) == Ok(tokens)
      invariant start != 0 ==> slash == FindByte(s, SLASH, start)
      invariant start != 0 ==> Split(s) == Prepend(tokens, SplitTokens(s[start..]))
      decreases if start == 0 then 0 else |s| + 1 - start
    {
      SplitTurn(s, start, slash, tokens);
      var raw := s[start..if slash == NPOS then |s| else slash];
      var ok := CheckEscapes(raw);
      if !ok {
        return Err(DomainError);
      }
      var token := UnescapeInPlace(raw);
      tokens := tokens + [token];
      start := slash + 1;
      slash := FindByte(s, SLASH, start);
    }
    return Ok(tokens);
  }

  /** A text that is no pointer makes `split` throw `std::domain_error`. */
  lemma {:induction false} SplitThrows(s: Bytes)
    ensures Split(s).Err? ==> Split(s).error == DomainError
  {
    hide SplitTokens;
    if s != [] {
      SplitTokensThrows(s[1..]);
    }
  }

  lemma {:induction false} SplitTokensThrows(s: Bytes)
    ensures SplitTokens(s).Err? ==> SplitTokens(s).error == DomainError
    decreases |s|
  {
    hide WellEscaped, Unescape;
    var raw := UpToSlash(s);
    if |raw| < |s| {
      SplitTokensThrows(s[|raw| + 1..]);
    }
  }
}

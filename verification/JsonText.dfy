/** `parse` of a text: the scanner and the parser together accept exactly the JSON texts of RFC 7159. */
module JsonText {
  import opened ByteStrings
  import opened Wrappers
  import opened Sequences
  import opened Decimals
  import opened Numerals
  import opened Literals
  import opened JsonValues
  import opened Escaping
  import opened StringTokens
  import opened Scanner
  import opened StringScan
  import opened NumberScan
  import opened Printer
  import opened Grammar
  import opened Parser
  import opened TextRoundTrip
  import L = Lexer
  import StringValues

  // ---------- JSON texts ----------

  /** White space (RFC 7159, section 2). */
  predicate AllBlank(s: Bytes)
  {
    forall k | 0 <= k < |s| :: s[k] == ' ' as int || s[k] == '\t' as int || s[k] == '\n' as int || s[k] == '\r' as int
  }

  ghost predicate IsNumberText(text: Bytes)
  {
    exists n :: PartsOk(n) && Render(n) == text
  }

  /** A quoted run of unescaped characters and legal escapes (RFC 7159, section 7). */
  predicate IsStringText(text: Bytes)
  {
    |text| >= 2 && text[0] == QUOTE && text[|text| - 1] == QUOTE && Body(text[1..|text| - 1])
  }

  function StringValue(text: Bytes): Result<Bytes>
    requires IsStringText(text)
  {
    BodyEscapes(text[1..|text| - 1]);
    GetString(text[1..|text| - 1])
  }

  /**
   A text that is a token with its value. For a number that is no integer the value is what `strtod` makes of `rest`,
   the token and all that follows it.
   */
  ghost predicate IsToken(text: Bytes, rest: Bytes, x: Lexeme, strtod: L.Strtod)
  {
    match x
    case OpenObject => text == [OPEN_OBJECT]
    case CloseObject => text == [CLOSE_OBJECT]
    case OpenArray => text == [OPEN_ARRAY]
    case CloseArray => text == [CLOSE_ARRAY]
    case Colon => text == [COLON]
    case Comma => text == [COMMA]
    case NullWord => text == NULL_WORD
    case TrueWord => text == TRUE_WORD
    case FalseWord => text == FALSE_WORD
    case Text(r) => IsStringText(text) && r == StringValue(text)
    case Number(j) => IsNumberText(text) && 0 < |text| <= |rest| && j == L.GetNumber(rest, 0, |text|, strtod)
    case _ => false
  }

  /** A token in a text. */
  datatype Span = Span(start: nat, end: nat, lexeme: Lexeme)

  /** From position `i` on, the text consists of these tokens, with white space around them. */
  ghost predicate Spelled(s: Bytes, i: nat, spans: seq<Span>, strtod: L.Strtod)
    decreases |spans|
  {
    if spans == [] then i <= |s| && AllBlank(s[i..])
    else
      var t := spans[0];
      && i <= t.start < t.end <= |s| && AllBlank(s[i..t.start])
      && IsToken(s[t.start..t.end], s[t.start..], t.lexeme, strtod)
      && Spelled(s, t.end, spans[1..], strtod)
  }

  function Lexemes(spans: seq<Span>): (r: seq<Lexeme>)
    ensures |r| == |spans|
  {
    if spans == [] then [] else [spans[0].lexeme] + Lexemes(spans[1..])
  }

  /** A JSON text: tokens that form a sentence of the grammar, with white space around them; and its value. */
  ghost predicate IsJsonText(s: Bytes, j: Json, strtod: L.Strtod)
  {
    exists spans, t :: Spelled(s, 0, spans, strtod) && Lexemes(spans) == Yield(t) && Meaning(t) == j
  }

  // ---------- what is scanned is spelled ----------

  lemma GetNumberFrom(s: Bytes, start: nat, end: nat, strtod: L.Strtod)
    requires start < end <= |s|
    ensures L.GetNumber(s, start, end, strtod) == L.GetNumber(s[start..], 0, end - start, strtod)
  {
    hide L.FitsInteger, DigitsValue, L.CString;
    DropDrop(s, start, end - start);
    assert s[start..][0..end - start] == s[start..end];
    assert s[start..][0..] == s[start..];
  }

  /** The token `t` is read at position `i`: it is spelled there, unless it is the end of the input or an error. */
  ghost predicate ReadsAt(s: Bytes, i: nat, t: Token, strtod: L.Strtod)
    requires i <= |s|
  {
    && t.start == i && Readable(s, t)
    && (!Stops(t.kind) ==>
      i < t.end <= |s| && IsToken(s[i..t.end], s[i..], LexemeOf(s, t, strtod), strtod))
    && (t.kind == EndOfInput ==> Peek(s, i) == 0)
  }

  /** The token at a position that is not blank. */
  lemma TokenAt(s: Bytes, i: nat, t: Token, strtod: L.Strtod)
    requires i <= |s| && !IsBlank(Peek(s, i)) && t == Scan(s, i)
    ensures ReadsAt(s, i, t, strtod)
  {
    hide Scan, ReadsAt, Readable;
    ScannedIsReadable(s, i);
    var c := Peek(s, i);
    if c == QUOTE {
      StringAt(s, i, t, strtod);
    } else if c == MINUS || IsDigit(c) {
      NumberAt(s, i, t, strtod);
    } else if c == 0x74 || c == 0x66 || c == 0x6e {
      WordAt(s, i, t, strtod);
    } else {
      CharAt(s, i, t, strtod);
    }
  }

  lemma StringAt(s: Bytes, i: nat, t: Token, strtod: L.Strtod)
    requires i < |s| && s[i] == QUOTE && t == Scan(s, i) && Readable(s, t)
    ensures ReadsAt(s, i, t, strtod)
  {
    hide Scan, Body, GetString, EscapesOk;
    StringTokenIsExact(s, i, t.end);
    if t.kind == ValueString {
      SliceSlice(s, i, t.end, 1, t.end - i - 1);
    }
  }

  lemma NumberAt(s: Bytes, i: nat, t: Token, strtod: L.Strtod)
    requires i < |s| && (s[i] == MINUS || IsDigit(s[i])) && t == Scan(s, i) && Readable(s, t)
    ensures ReadsAt(s, i, t, strtod)
  {
    hide Scan, NumberEnd, PartsOk, Render, L.GetNumber;
    ScanNumber(s, i);
    if t.kind == ValueNumber {
      var n := ScannedIsNumber(s, i);
      GetNumberFrom(s, i, t.end, strtod);
    }
  }

  lemma WordAt(s: Bytes, i: nat, t: Token, strtod: L.Strtod)
    requires i < |s| && (s[i] == 0x74 || s[i] == 0x66 || s[i] == 0x6e) && t == Scan(s, i) && Readable(s, t)
    ensures ReadsAt(s, i, t, strtod)
  {
    hide Scan, L.GetNumber, GetString, EscapesOk;
    if s[i] == 0x74 {
      ScanTrue(s, i);
    } else if s[i] == 0x66 {
      ScanFalse(s, i);
    } else {
      ScanNull(s, i);
    }
  }

  lemma CharAt(s: Bytes, i: nat, t: Token, strtod: L.Strtod)
    requires i <= |s| && t == Scan(s, i) && Readable(s, t) && !IsBlank(Peek(s, i))
    requires var c := Peek(s, i); c != QUOTE && c != MINUS && !IsDigit(c) && c != 0x74 && c != 0x66 && c != 0x6e
    ensures ReadsAt(s, i, t, strtod)
  {
    hide Scan, EscapesOk, GetString, L.GetNumber, IsStringText, IsNumberText;
    ScanOther(s, i);
    if !Stops(t.kind) {
      assert s[i..i + 1] == [s[i]];
    }
  }

  /** Blanks in front of a token. */
  lemma {:induction false} BlanksBefore(s: Bytes, i: nat, t: Token)
    requires i <= |s| && t == Scan(s, i)
    ensures t.start <= |s| && AllBlank(s[i..t.start]) && !IsBlank(Peek(s, t.start)) && Scan(s, t.start) == t
    decreases |s| - i
  {
    if IsBlank(Peek(s, i)) {
      BlanksBefore(s, i + 1, t);
      assert s[i..t.start] == [s[i]] + s[i + 1..t.start];
    } else {
      TokenStart(s, i, t);
      assert s[i..t.start] == [];
    }
  }

  lemma TokenStart(s: Bytes, i: nat, t: Token)
    requires i <= |s| && !IsBlank(Peek(s, i)) && t == Scan(s, i)
    ensures t.start == i
  {
    hide Run;
  }

  /** A text without zero bytes whose tokens reach the end of the input is spelled by them. */
  lemma {:induction false} SpansOf(s: Bytes, i: nat, strtod: L.Strtod) returns (spans: seq<Span>)
    requires i <= |s| && 0 !in s && End in Lex(s, i, strtod)
    ensures Spelled(s, i, spans, strtod) && Lex(s, i, strtod) == Lexemes(spans) + [End]
    decreases |s| - i
  {
    hide Scan, IsToken, AllBlank, L.GetNumber, GetString, EscapesOk, Readable;
    var t := Scan(s, i);
    BlanksBefore(s, i, t);
    TokenAt(s, t.start, t, strtod);
    LexToken(s, i, t, strtod);
    var x := LexemeOf(s, t, strtod);
    if Stops(t.kind) {
      spans := [];
      EndIsLast(s, i, t, strtod);
    } else {
      LexemeIsNotLast(s, t, strtod);
      var rest := SpansOf(s, t.end, strtod);
      var span := Span(t.start, t.end, x);
      spans := [span] + rest;
      ConsTail(span, rest);
      Assoc([x], Lexemes(rest), [End]);
    }
  }

  lemma EndIsLast(s: Bytes, i: nat, t: Token, strtod: L.Strtod)
    requires i <= t.start <= |s| && 0 !in s && Stops(t.kind) && Readable(s, t) && AllBlank(s[i..t.start])
    requires t.kind == EndOfInput ==> Peek(s, t.start) == 0
    requires End in [LexemeOf(s, t, strtod)]
    ensures LexemeOf(s, t, strtod) == End && AllBlank(s[i..])
  {
    if t.start == |s| {
      assert s[i..] == s[i..t.start];
    }
  }

  lemma LexemeIsNotLast(s: Bytes, t: Token, strtod: L.Strtod)
    requires Readable(s, t) && !Stops(t.kind)
    ensures LexemeOf(s, t, strtod) != End && LexemeOf(s, t, strtod) != Wrong
  {
    hide Readable, L.GetNumber, GetString;
  }

  // ---------- what is spelled is scanned ----------

  /** The tokens that may stand behind a number. */
  predicate Closes(x: Lexeme)
  {
    x == Comma || x == CloseArray || x == CloseObject
  }

  predicate NumberEndsAt(ts: seq<Lexeme>, k: nat)
    requires k < |ts|
  {
    ts[k].Number? && k + 1 < |ts| ==> Closes(ts[k + 1])
  }

  /** Behind every number stands a comma or a closing bracket. */
  predicate NumbersEnd(ts: seq<Lexeme>)
  {
    forall k | 0 <= k < |ts| :: NumberEndsAt(ts, k)
  }

  lemma NumbersEndJoined(a: seq<Lexeme>, b: seq<Lexeme>)
    requires NumbersEnd(a) && NumbersEnd(b) && b != []
    requires a != [] && a[|a| - 1].Number? ==> Closes(b[0])
    ensures NumbersEnd(a + b)
  {
    forall k | 0 <= k < |a + b|
      ensures NumberEndsAt(a + b, k)
    {
      if k < |a| {
        assert NumberEndsAt(a, k);
      } else {
        assert NumberEndsAt(b, k - |a|);
      }
    }
  }

  lemma {:induction false} NumbersEndInYield(t: Tree)
    ensures NumbersEnd(Yield(t))
    decreases t, 0
  {
    hide YieldItems, YieldPairs, NumbersEnd;
    match t
    case ArrayTree(items) =>
      if items != [] {
        NumbersEndInItems(items);
        NoNumbers([OpenArray]);
        NumbersEndJoined([OpenArray], YieldItems(items));
      } else {
        NoNumbers([OpenArray] + [CloseArray]);
      }
    case ObjectTree(pairs) =>
      if pairs != [] {
        NumbersEndInPairs(pairs);
        NoNumbers([OpenObject]);
        NumbersEndJoined([OpenObject], YieldPairs(pairs));
      } else {
        NoNumbers([OpenObject] + [CloseObject]);
      }
    case _ => OneLexeme(Yield(t));
  }

  lemma NoNumbers(ts: seq<Lexeme>)
    requires forall k :: 0 <= k < |ts| ==> !ts[k].Number?
    ensures NumbersEnd(ts)
  {}

  lemma OneLexeme(ts: seq<Lexeme>)
    requires |ts| == 1
    ensures NumbersEnd(ts)
  {}

  lemma {:induction false} NumbersEndInItems(items: seq<Tree>)
    requires items != []
    ensures NumbersEnd(YieldItems(items))
    decreases items, 1
  {
    hide Yield, NumbersEnd;
    NumbersEndInYield(items[0]);
    if |items| == 1 {
      NoNumbers([CloseArray]);
      NumbersEndJoined(Yield(items[0]), [CloseArray]);
    } else {
      NumbersEndInItems(items[1..]);
      NoNumbers([Comma]);
      NumbersEndJoined([Comma], YieldItems(items[1..]));
      NumbersEndJoined(Yield(items[0]), [Comma] + YieldItems(items[1..]));
    }
  }

  lemma {:induction false} NumbersEndInPairs(pairs: seq<Pair>)
    requires pairs != []
    ensures NumbersEnd(YieldPairs(pairs))
    decreases pairs, 1
  {
    hide Yield, NumbersEnd;
    var first := [Grammar.Text(Ok(pairs[0].key)), Colon];
    var tail := if |pairs| == 1 then [CloseObject] else [Comma] + YieldPairs(pairs[1..]);
    NumbersEndInYield(pairs[0].tree);
    NoNumbers(first);
    if |pairs| == 1 {
      NoNumbers([CloseObject]);
    } else {
      NumbersEndInPairs(pairs[1..]);
      NoNumbers([Comma]);
      NumbersEndJoined([Comma], YieldPairs(pairs[1..]));
    }
    NumbersEndJoined(Yield(pairs[0].tree), tail);
    NumbersEndJoined(first, Yield(pairs[0].tree) + tail);
  }

  lemma {:induction false} LexBlanks(s: Bytes, i: nat, j: nat, strtod: L.Strtod)
    requires i <= j <= |s| && AllBlank(s[i..j])
    ensures Lex(s, i, strtod) == Lex(s, j, strtod)
    decreases j - i
  {
    hide Lex;
    if i < j {
      assert s[i..j][0] == s[i] && s[i + 1..j] == s[i..j][1..];
      LexBlank(s, i, strtod);
      LexBlanks(s, i + 1, j, strtod);
    }
  }

  /** The characters of numbers. */
  predicate IsNumberChar(c: Byte)
  {
    IsDigit(c) || c == DOT || IsExponent(c) || c == PLUS || c == MINUS
  }

  lemma NumberChars(n: Parts)
    requires PartsOk(n)
    ensures forall k :: 0 <= k < |Render(n)| ==> IsNumberChar(Render(n)[k])
  {
    PartChars(n.fraction, n.exponent);
    assert forall k :: 0 <= k < |n.integer| ==> IsNumberChar(n.integer[k]);
  }

  lemma PartChars(f: Bytes, e: Bytes)
    requires FractionOk(f) && ExponentOk(e)
    ensures forall k :: 0 <= k < |f| ==> IsNumberChar(f[k])
    ensures forall k :: 0 <= k < |e| ==> IsNumberChar(e[k])
  {
    if f != [] {
      assert forall k :: 1 <= k < |f| ==> f[k] == f[1..][k - 1];
    }
    if e != [] {
      assert forall k :: 1 <= k < |e| ==> e[k] == e[1..][k - 1];
      assert forall k :: 2 <= k < |e| ==> e[k] == e[2..][k - 2];
    }
  }

  /** A number in front of a delimiter is scanned as a whole. */
  lemma WholeNumber(s: Bytes, i: nat, e: nat)
    requires i < e <= |s| && IsNumberText(s[i..e]) && Delimited(s, e)
    ensures (s[i] == MINUS || IsDigit(s[i])) && NumberEnd(s, i) == Some(e)
  {
    hide PartsOk, Render, NumberEnd, DigitAt;
    var n :| PartsOk(n) && Render(n) == s[i..e];
    ScannedIsLongest(s, i, n);
    FirstOfNumber(n);
    assert s[i..e][0] == s[i];
    var m := ScannedIsNumber(s, i);
    NumberChars(m);
    StopsInside(s, i, NumberEnd(s, i).value, e);
  }

  /** A delimiter is no character of a number. */
  lemma StopsInside(s: Bytes, i: nat, end: nat, e: nat)
    requires i < e <= |s| && i <= end <= |s| && Delimited(s, e)
    requires forall k :: 0 <= k < end - i ==> IsNumberChar(s[i..end][k])
    ensures end <= e
  {
    forall k | i <= k < end
      ensures IsNumberChar(s[k])
    {
      assert s[i..end][k - i] == s[k];
    }
  }

  lemma FirstOfNumber(n: Parts)
    requires PartsOk(n)
    ensures Render(n) != [] && (Render(n)[0] == MINUS || IsDigit(Render(n)[0]))
  {}

  /** A token that is spelled in a text is scanned with its value. */
  lemma LexSpelled(s: Bytes, i: nat, e: nat, x: Lexeme, strtod: L.Strtod)
    requires i < e <= |s| && IsToken(s[i..e], s[i..], x, strtod) && (x.Number? ==> Delimited(s, e))
    ensures Lex(s, i, strtod) == [x] + Lex(s, e, strtod)
  {
    hide Lex, Body, IsNumberText, L.GetNumber, Delimited;
    var text := s[i..e];
    assert text[0] == s[i] && Holds(s, i, text);
    if x.Text? {
      LexSpelledString(s, i, e, strtod);
    } else if x.Number? {
      LexSpelledNumber(s, i, e, strtod);
    } else if x == NullWord {
      LexNull(s, i, strtod);
    } else if x == TrueWord || x == FalseWord {
      LexBool(s, i, x == TrueWord, strtod);
    } else {
      LexChar(s, i, s[i], strtod);
    }
  }

  lemma LexSpelledString(s: Bytes, i: nat, e: nat, strtod: L.Strtod)
    requires i < e <= |s| && IsStringText(s[i..e])
    ensures Lex(s, i, strtod) == [Grammar.Text(StringValue(s[i..e]))] + Lex(s, e, strtod)
  {
    hide Lex, Scan, Body, GetString, EscapesOk;
    var text := s[i..e];
    SliceSlice(s, i, e, 1, e - i - 1);
    assert text[|text| - 1] == s[e - 1] && text[0] == s[i];
    StringTokenIsExact(s, i, e);
    LexToken(s, i, Scan(s, i), strtod);
  }

  lemma LexSpelledNumber(s: Bytes, i: nat, e: nat, strtod: L.Strtod)
    requires i < e <= |s| && IsNumberText(s[i..e]) && Delimited(s, e)
    ensures Lex(s, i, strtod) == [Grammar.Number(L.GetNumber(s[i..], 0, e - i, strtod))] + Lex(s, e, strtod)
  {
    hide Lex, Scan, NumberEnd, L.GetNumber, IsNumberText;
    WholeNumber(s, i, e);
    ScanNumber(s, i);
    LexToken(s, i, Scan(s, i), strtod);
    GetNumberFrom(s, i, e, strtod);
  }

  /** What follows a number in a spelled text is a delimiter. */
  lemma DelimitedBySpans(s: Bytes, e: nat, spans: seq<Span>, strtod: L.Strtod)
    requires Spelled(s, e, spans, strtod) && (spans != [] ==> Closes(spans[0].lexeme))
    ensures e <= |s| && Delimited(s, e)
  {
    if spans == [] {
      if e < |s| {
        assert s[e..][0] == s[e];
      }
    } else if spans[0].start > e {
      assert s[e..spans[0].start][0] == s[e];
    } else {
      assert s[e..spans[0].end][0] == s[e];
    }
  }

  lemma {:induction false} LexOfSpans(s: Bytes, i: nat, spans: seq<Span>, strtod: L.Strtod)
    requires Spelled(s, i, spans, strtod) && NumbersEnd(Lexemes(spans))
    ensures i <= |s| && Lex(s, i, strtod) == Lexemes(spans) + [End]
    decreases |spans|
  {
    hide Lex, IsToken, AllBlank, Delimited;
    if spans == [] {
      assert s[i..|s|] == s[i..];
      LexBlanks(s, i, |s|, strtod);
      LexEnd(s, strtod);
      LeftUnit([End]);
    } else {
      var t, rest := spans[0], spans[1..];
      LexBlanks(s, i, t.start, strtod);
      assert NumberEndsAt(Lexemes(spans), 0);
      if t.lexeme.Number? {
        DelimitedBySpans(s, t.end, rest, strtod);
      }
      LexSpelled(s, t.start, t.end, t.lexeme, strtod);
      NumbersEndAfter(t.lexeme, Lexemes(rest));
      LexOfSpans(s, t.end, rest, strtod);
      Assoc([t.lexeme], Lexemes(rest), [End]);
    }
  }

  lemma NumbersEndAfter(x: Lexeme, ts: seq<Lexeme>)
    requires NumbersEnd([x] + ts)
    ensures NumbersEnd(ts)
  {
    forall k | 0 <= k < |ts|
      ensures NumberEndsAt(ts, k)
    {
      assert NumberEndsAt([x] + ts, k + 1);
    }
  }

  // ---------- the theorem ----------

  lemma {:induction false} NoEndInLexemes(s: Bytes, i: nat, spans: seq<Span>, strtod: L.Strtod)
    requires Spelled(s, i, spans, strtod)
    ensures End !in Lexemes(spans)
    decreases |spans|
  {
    hide AllBlank;
    if spans != [] {
      NoEndInLexemes(s, spans[0].end, spans[1..], strtod);
    }
  }

  lemma SameBeforeEnd(a: seq<Lexeme>, b: seq<Lexeme>, rest: seq<Lexeme>)
    requires a + [End] == b + ([End] + rest) && End !in a && End !in b
    ensures a == b
  {
    var all := a + [End];
    assert all[|a|] == End && all[|b|] == End;
    assert forall k :: 0 <= k < |a| ==> all[k] == a[k];
    assert forall k :: 0 <= k < |b| ==> all[k] == b[k];
    assert a == all[..|a|] && b == all[..|b|];
  }

  /** For a text without zero bytes: `parse` accepts exactly the JSON texts, with exactly their value. */
  lemma {:induction false} ParseIsJsonText(s: Bytes, j: Json, strtod: L.Strtod)
    requires 0 !in s
    ensures ParseText(s, strtod) == Ok(j) <==> IsJsonText(s, j, strtod)
  {
    hide Lex, Spelled, Lexemes, Yield, Meaning, ParseValue, NumbersEnd;
    if ParseText(s, strtod) == Ok(j) {
      var ts := Lex(s, 0, strtod);
      var t := Derives(ts);
      var rest := ParseValue(ts).value.rest;
      EndIsIn(ts, Yield(t), rest);
      var spans := SpansOf(s, 0, strtod);
      NoEndInLexemes(s, 0, spans, strtod);
      NoEndInYield(t);
      HeadRest(rest);
      SameBeforeEnd(Lexemes(spans), Yield(t), rest[1..]);
    }
    if IsJsonText(s, j, strtod) {
      var spans, t :| Spelled(s, 0, spans, strtod) && Lexemes(spans) == Yield(t) && Meaning(t) == j;
      NumbersEndInYield(t);
      LexOfSpans(s, 0, spans, strtod);
      Grammar.Accepts(t, [End]);
    }
  }

  // ---------- zero bytes ----------

  /** The scanner sees the same up to the first zero byte and there. */
  lemma {:induction false} RunBeforeZero(s: Bytes, c: Bytes, start: nat, l: nat, cursor: nat, m: Option<Marker>)
    requires c == L.CString(s)
    requires cursor < |c| || (cursor == |c| && Scanner.Accepts(l).Some?)
    requires HasMarker(l, m) && (m.Some? ==> m.value.position <= cursor + 1 && m.value.position <= |c|)
    ensures Run(s, start, l, cursor, m) == Run(c, start, l, cursor, m)
    decreases |c| - cursor
  {
    hide Delta, L.CString;
    if Scanner.Accepts(l).None? {
      SameCharacter(s, c, cursor + 1);
      var to := Delta(l, Peek(c, cursor + 1));
      Turn(s, start, l, cursor, m, to);
      Turn(c, start, l, cursor, m, to);
      if to != 5 && to != 14 && to != 32 {
        RunBeforeZero(s, c, start, to, cursor + 1, Mark(l, cursor + 1, m));
      }
    }
  }

  lemma SameCharacter(s: Bytes, c: Bytes, i: nat)
    requires c == L.CString(s) && i <= |c|
    ensures Peek(s, i) == Peek(c, i)
  {}

  lemma {:induction false} ScanBeforeZero(s: Bytes, c: Bytes, i: nat)
    requires c == L.CString(s) && i <= |c|
    ensures Scan(s, i) == Scan(c, i)
    decreases |c| - i
  {
    hide Run, L.CString;
    SameCharacter(s, c, i);
    var l := Start(Peek(c, i));
    if l == 6 {
      ScanBeforeZero(s, c, i + 1);
    } else {
      RunBeforeZero(s, c, i, l, i, None);
    }
  }

  lemma {:induction false} CStringOfSuffix(s: Bytes, i: nat)
    requires i <= |L.CString(s)|
    ensures L.CString(s[i..]) == L.CString(s)[i..]
    decreases i
  {
    if i == 0 {
      assert s[i..] == s;
    } else {
      CStringOfSuffix(s[1..], i - 1);
      assert s[1..][i - 1..] == s[i..];
    }
  }

  lemma {:induction false} NoZeros(c: Bytes)
    requires 0 !in c
    ensures L.CString(c) == c
  {
    if c != [] {
      NoZeros(c[1..]);
      HeadTail(c);
    }
  }

  lemma LexemeBeforeZero(s: Bytes, c: Bytes, t: Token, strtod: L.Strtod)
    requires c == L.CString(s) && Readable(s, t) && Readable(c, t)
    ensures LexemeOf(s, t, strtod) == LexemeOf(c, t, strtod)
  {
    hide L.CString, GetString, EscapesOk, L.FitsInteger;
    if t.kind == ValueString {
      assert s[t.start + 1..t.end - 1] == c[t.start + 1..t.end - 1];
    } else if t.kind == ValueNumber {
      assert s[t.start..t.end] == c[t.start..t.end];
      CStringOfSuffix(s, t.start);
      NoZeros(c[t.start..]);
    }
  }

  lemma {:induction false} LexBeforeZero(s: Bytes, c: Bytes, i: nat, strtod: L.Strtod)
    requires c == L.CString(s) && i <= |c|
    ensures Lex(s, i, strtod) == Lex(c, i, strtod)
    decreases |c| - i
  {
    hide L.CString, Scan, LexemeOf, Readable;
    var t := Scan(c, i);
    ScanBeforeZero(s, c, i);
    LexToken(s, i, t, strtod);
    LexToken(c, i, t, strtod);
    LexemeBeforeZero(s, c, t, strtod);
    if !Stops(t.kind) {
      LexBeforeZero(s, c, t.end, strtod);
    }
  }

  /** For every text: `parse` reads it up to the first zero byte, and accepts it exactly when that is a JSON text. */
  lemma {:induction false} ParseIsJsonTextBeforeZero(s: Bytes, j: Json, strtod: L.Strtod)
    ensures ParseText(s, strtod) == Ok(j) <==> IsJsonText(L.CString(s), j, strtod)
  {
    hide Lex, L.CString, IsJsonText;
    LexBeforeZero(s, L.CString(s), 0, strtod);
    ParseIsJsonText(L.CString(s), j, strtod);
  }

  lemma UnitWithoutZero(b: Bytes)
    requires UnitLength(b) > 0
    ensures 0 !in b[..UnitLength(b)]
  {}

  lemma {:induction false} BodyWithoutZero(b: Bytes)
    requires Body(b)
    ensures 0 !in b
    decreases |b|
  {
    hide UnitLength;
    if b != [] {
      UnitWithoutZero(b);
      BodyWithoutZero(b[UnitLength(b)..]);
      Sequences.Parts(b, UnitLength(b));
    }
  }

  lemma TokenWithoutZero(text: Bytes, rest: Bytes, x: Lexeme, strtod: L.Strtod)
    requires IsToken(text, rest, x, strtod)
    ensures 0 !in text
  {
    hide Body, L.GetNumber, PartsOk, Render, StringValue;
    if x.Text? {
      var body := text[1..|text| - 1];
      BodyWithoutZero(body);
      assert text == [QUOTE] + body + [QUOTE];
    } else if x.Number? {
      var n :| PartsOk(n) && Render(n) == text;
      NumberChars(n);
    }
  }

  lemma {:induction false} SpelledWithoutZero(s: Bytes, i: nat, spans: seq<Span>, strtod: L.Strtod)
    requires Spelled(s, i, spans, strtod)
    ensures i <= |s| && 0 !in s[i..]
    decreases |spans|
  {
    hide IsToken;
    if spans != [] {
      var t := spans[0];
      TokenWithoutZero(s[t.start..t.end], s[t.start..], t.lexeme, strtod);
      SpelledWithoutZero(s, t.end, spans[1..], strtod);
      Slice(s, i, t.start);
      Slice(s, t.start, t.end);
    }
  }

  /** For every text: the JSON texts are exactly the accepted texts without zero bytes. */
  lemma JsonTextsAreAccepted(s: Bytes, j: Json, strtod: L.Strtod)
    ensures IsJsonText(s, j, strtod) <==> ParseText(s, strtod) == Ok(j) && 0 !in s
  {
    hide Spelled, ParseText, Lexemes, Meaning, Yield;
    if IsJsonText(s, j, strtod) {
      var spans, t :| Spelled(s, 0, spans, strtod) && Lexemes(spans) == Yield(t) && Meaning(t) == j;
      SpelledWithoutZero(s, 0, spans, strtod);
      assert s[0..] == s;
    }
    if 0 !in s {
      ParseIsJsonText(s, j, strtod);
    }
  }

  lemma NullIsJsonText(strtod: L.Strtod)
    ensures IsJsonText(NULL_WORD, Null, strtod)
  {
    var spans: seq<Span> := [Span(0, 4, NullWord)];
    var t: Tree := NullTree;
    assert spans[1..] == [] && Lexemes(spans[1..]) == [];
    assert NULL_WORD[0..4] == NULL_WORD && NULL_WORD[0..0] == [] && NULL_WORD[4..] == [];
    assert Spelled(NULL_WORD, 4, spans[1..], strtod);
    assert Spelled(NULL_WORD, 0, spans, strtod) && Lexemes(spans) == Yield(t) && Meaning(t) == Null;
  }

  lemma {:induction false} CStringEnds(a: Bytes, b: Bytes)
    requires 0 !in a
    ensures L.CString(a + ([0] + b)) == a
  {
    if a == [] {
      LeftUnit([0] + b);
    } else {
      CStringEnds(a[1..], b);
      ConcatHead(a, [0] + b);
      HeadTail(a);
    }
  }

  /** "null", a zero byte and anything else behind it is accepted, and is no JSON text for any value. */
  lemma ZeroByteAccepted(rest: Bytes, strtod: L.Strtod)
    ensures var s := NULL_WORD + ([0] + rest);
      ParseText(s, strtod) == Ok(Null) && forall j :: !IsJsonText(s, j, strtod)
  {
    hide IsJsonText, ParseText;
    var s := NULL_WORD + ([0] + rest);
    NullIsJsonText(strtod);
    CStringEnds(NULL_WORD, rest);
    ParseIsJsonTextBeforeZero(s, Null, strtod);
    assert s[4] == 0;
    forall j
      ensures !IsJsonText(s, j, strtod)
    {
      JsonTextsAreAccepted(s, j, strtod);
    }
  }

  // ---------- the values of tokens ----------

  /** The characters that tokens and numbers are made of (RFC 7159, sections 2 and 6). */
  lemma SymbolsAre(c: Byte)
    ensures OPEN_ARRAY == '[' as int && CLOSE_ARRAY == ']' as int && COMMA == ',' as int
    ensures OPEN_OBJECT == '{' as int && CLOSE_OBJECT == '}' as int && COLON == ':' as int && QUOTE == '"' as int
    ensures IsExponent(c) <==> c == 'e' as int || c == 'E' as int
    ensures DOT == '.' as int && MINUS == '-' as int && PLUS == '+' as int
    ensures IsDigit(c) <==> exists d | 0 <= d < 10 :: DecimalIs(c, d)
  {
    DecimalDigit(c);
  }

  /** A string token and its value: a quoted body that consists of the pieces of the string. */
  lemma StringTokenMeans(text: Bytes, rest: Bytes, s: Bytes, strtod: L.Strtod)
    ensures IsToken(text, rest, Grammar.Text(Ok(s)), strtod) <==>
      IsStringText(text) && StringValues.Means(text[1..|text| - 1], s)
  {
    hide Body, GetString, EscapesOk, StringValues.Means;
    if IsStringText(text) {
      BodyEscapes(text[1..|text| - 1]);
      StringValues.GetStringMeans(text[1..|text| - 1], s);
    }
  }

  lemma DigitsThen(a: Bytes, b: Bytes)
    requires AllDigits(a) && (b != [] ==> !IsDigit(b[0]))
    ensures AllDigits(a + b) <==> b == []
  {
    if b != [] {
      assert (a + b)[|a|] == b[0];
    }
  }

  lemma PartsStart(n: Parts)
    requires PartsOk(n)
    ensures n.integer != [] && AllDigits(n.integer) && n.integer[0] != MINUS
    ensures n.fraction != [] ==> !IsDigit(n.fraction[0])
    ensures n.exponent != [] ==> !IsDigit(n.exponent[0])
  {}

  lemma MagnitudeOf(n: Parts)
    requires PartsOk(n)
    ensures L.Magnitude(Render(n)) == n.integer + (n.fraction + n.exponent)
    ensures AllDigits(L.Magnitude(Render(n))) <==> n.fraction == [] && n.exponent == []
    ensures Render(n) != [] && (Render(n)[0] == MINUS <==> n.minus)
  {
    hide PartsOk, AllDigits;
    PartsStart(n);
    var tail := n.fraction + n.exponent;
    var t := n.integer + tail;
    ConcatHead(n.integer, tail);
    if n.minus {
      ConsTail(MINUS, t);
    } else {
      LeftUnit(t);
    }
    if n.fraction == [] {
      LeftUnit(n.exponent);
    } else {
      ConcatHead(n.fraction, n.exponent);
    }
    DigitsThen(n.integer, tail);
  }

  /** The largest number that the integer type for a sign holds. */
  predicate FitsSign(minus: bool, m: nat)
  {
    if minus then m <= 0x8000_0000_0000_0000 else m <= 0xffff_ffff_ffff_ffff
  }

  /**
   A number token and its value. An integer that fits is signed with a minus sign and unsigned without one; everything
   else is what `strtod` makes of the text, up to a zero byte, or null when that is not finite.
   */
  lemma NumberTokenMeans(n: Parts, rest: Bytes, strtod: L.Strtod)
    requires PartsOk(n) && Render(n) <= rest
    ensures 0 < |Render(n)| <= |rest|
    ensures forall m: nat :: n.fraction == [] && n.exponent == [] && Denotes(n.integer, m) && FitsSign(n.minus, m) ==>
      L.GetNumber(rest, 0, |Render(n)|, strtod) == if n.minus then Int(-(m as int)) else UInt(m)
    ensures
      (n.fraction != [] || n.exponent != [] || forall m: nat :: Denotes(n.integer, m) ==> !FitsSign(n.minus, m)) ==>
      var d := strtod(L.CString(rest));
      L.GetNumber(rest, 0, |Render(n)|, strtod) == if d.Some? then Float(d.value) else Null
  {
    hide PartsOk, Render, Denotes, DigitsValue, L.CString, L.Magnitude;
    var t := Render(n);
    MagnitudeOf(n);
    assert rest[0..|t|] == t && rest[0..] == rest;
    if n.fraction == [] && n.exponent == [] {
      RightUnit(n.integer);
      DigitsDenote(n.integer, DigitsValue(n.integer));
      forall m: nat
        ensures Denotes(n.integer, m) <==> m == DigitsValue(n.integer)
      {
        DigitsDenote(n.integer, m);
      }
    }
  }
}

/** Every text that `parse` rejects makes it throw the same exception. */
module ParseErrors {
  import opened ByteStrings
  import opened Wrappers
  import opened JsonValues
  import opened Escaping
  import opened StringTokens
  import opened Scanner
  import opened Grammar
  import opened Parser
  import TextRoundTrip
  import L = Lexer

  predicate TextOk(x: Lexeme)
  {
    x.Text? && x.text.Err? ==> x.text.error == InvalidArgument
  }

  predicate TextsOk(ts: seq<Lexeme>)
  {
    forall k | 0 <= k < |ts| :: TextOk(ts[k])
  }

  lemma TextsAfter(ts: seq<Lexeme>, n: nat)
    requires TextsOk(ts) && n <= |ts|
    ensures TextsOk(ts[n..])
  {}

  lemma TextsJoined(x: Lexeme, ts: seq<Lexeme>)
    requires TextOk(x) && TextsOk(ts)
    ensures TextsOk([x] + ts)
  {}

  lemma LexemeIsOk(s: Bytes, t: Token, strtod: L.Strtod)
    requires Readable(s, t)
    ensures TextOk(LexemeOf(s, t, strtod))
  {
    hide GetString, EscapesOk, L.GetNumber;
    if t.kind == ValueString {
      ThrowsWhenUnpaired(s[t.start + 1..t.end - 1]);
    }
  }

  lemma {:induction false} LexIsOk(s: Bytes, i: nat, strtod: L.Strtod)
    requires i <= |s|
    ensures TextsOk(Lex(s, i, strtod))
    decreases |s| - i
  {
    hide Scan, LexemeOf, Readable, TextOk;
    var t := Scan(s, i);
    TextRoundTrip.LexToken(s, i, t, strtod);
    LexemeIsOk(s, t, strtod);
    if !Stops(t.kind) {
      LexIsOk(s, t.end, strtod);
      TextsJoined(LexemeOf(s, t, strtod), Lex(s, t.end, strtod));
    }
  }

  /** What is left behind a value still has no other error, and neither has a failure. */
  predicate Fine<T>(r: Result<Parsed<T>>)
  {
    if r.Ok? then TextsOk(r.value.rest) else r.error == InvalidArgument
  }

  lemma {:induction false} ValueIsFine(ts: seq<Lexeme>)
    requires TextsOk(ts)
    ensures Fine(ParseValue(ts))
    decreases |ts|, 0
  {
    hide ParseMembers, ParseElems;
    if ts != [] {
      TextsAfter(ts, 1);
      assert TextOk(ts[0]);
      if ts[0].OpenObject? {
        if Head(ts[1..]) == CloseObject {
          TextsAfter(ts, 2);
        } else {
          MembersAreFine(ts[1..], []);
        }
      } else if ts[0].OpenArray? {
        if Head(ts[1..]) == CloseArray {
          TextsAfter(ts, 2);
        } else {
          ElemsAreFine(ts[1..], []);
        }
      }
    }
  }

  lemma {:induction false} PairIsFine(ts: seq<Lexeme>, done: Members<Json>)
    requires TextsOk(ts)
    ensures Fine(ParsePair(ts, done))
    decreases |ts|, 1
  {
    hide ParseValue, Insert;
    if ts != [] && Head(ts[1..]) == Colon {
      TextsAfter(ts, 2);
      ValueIsFine(ts[2..]);
    }
    if ts != [] {
      assert TextOk(ts[0]);
    }
  }

  lemma {:induction false} MembersAreFine(ts: seq<Lexeme>, done: Members<Json>)
    requires TextsOk(ts)
    ensures Fine(ParseMembers(ts, done))
    decreases |ts|, 2
  {
    hide ParsePair;
    PairIsFine(ts, done);
    var p := ParsePair(ts, done);
    if p.Ok? && p.value.rest != [] {
      TextsAfter(p.value.rest, 1);
      if Head(p.value.rest) == Comma {
        MembersAreFine(p.value.rest[1..], p.value.value);
      }
    }
  }

  lemma {:induction false} ElemsAreFine(ts: seq<Lexeme>, done: seq<Json>)
    requires TextsOk(ts)
    ensures Fine(ParseElems(ts, done))
    decreases |ts|, 1
  {
    hide ParseValue;
    ValueIsFine(ts);
    var p := ParseValue(ts);
    if p.Ok? && p.value.rest != [] {
      TextsAfter(p.value.rest, 1);
      if Head(p.value.rest) == Comma {
        ElemsAreFine(p.value.rest[1..], done + [p.value.value]);
      }
    }
  }

  /** For every text: `parse` returns a value or throws `std::invalid_argument`, also for unpaired surrogates. */
  lemma ParseThrowsInvalidArgument(s: Bytes, strtod: L.Strtod)
    ensures ParseText(s, strtod).Err? ==> ParseText(s, strtod).error == InvalidArgument
  {
    hide Lex, ParseValue, TextsOk;
    LexIsOk(s, 0, strtod);
    ValueIsFine(Lex(s, 0, strtod));
  }
}

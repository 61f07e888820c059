/** The string states of the scanner accept exactly the string tokens, and the literal states the literals. */
module StringScan {
  import opened ByteStrings
  import opened Wrappers
  import opened Sequences
  import opened Utf8
  import opened Escaping
  import opened Scanner

  /** One step of a label between the first character of a token and its end. */
  lemma Step(s: Bytes, start: nat, l: nat, p: nat, m: Marker, to: nat)
    requires p < |s| && m.position <= p + 1 && Accepts(l).None? && Marks(l).None?
    requires to == Delta(l, Peek(s, p + 1)) && to != 5 && to != 14
    ensures to != 32 ==> p + 1 < |s| || Accepts(to).Some?
    ensures p + 1 <= |s|
    ensures Run(s, start, l, p, Some(m)) ==
      if to == 32 then Token(m.kind, start, m.position) else Run(s, start, to, p + 1, Some(m))
  {
    hide Delta;
  }

  predicate TailAt(s: Bytes, i: nat)
  {
    i < |s| && IsTail(s[i])
  }

  function Back(start: nat, m: Marker): Token
  {
    Token(m.kind, start, m.position)
  }

  /** Label 36: one more byte of a sequence. */
  lemma OneTail(s: Bytes, start: nat, p: nat, m: Marker)
    requires p < |s| && m.position <= p + 1
    ensures Run(s, start, 36, p, Some(m)) ==
      if TailAt(s, p + 1) then Run(s, start, 30, p + 1, Some(m)) else Back(start, m)
  {
    Step(s, start, 36, p, m, Delta(36, Peek(s, p + 1)));
  }

  /** Label 38: two more bytes. */
  lemma TwoTails(s: Bytes, start: nat, p: nat, m: Marker)
    requires p < |s| && m.position <= p + 1
    ensures Run(s, start, 38, p, Some(m)) ==
      if TailAt(s, p + 1) && TailAt(s, p + 2) then Run(s, start, 30, p + 2, Some(m)) else Back(start, m)
  {
    Step(s, start, 38, p, m, Delta(38, Peek(s, p + 1)));
    if TailAt(s, p + 1) {
      OneTail(s, start, p + 1, m);
    }
  }

  /** A byte from 0x80 on, behind a character of a string: the labels follow RFC 3629. */
  lemma SequenceRun(s: Bytes, start: nat, p: nat, m: Marker)
    requires p + 1 < |s| && m.position <= p + 1 && s[p + 1] >= 0x80
    ensures var n := SequenceLength(s[p + 1..]);
      p + n < |s| &&
      Run(s, start, 30, p, Some(m)) == if n > 0 then Run(s, start, 30, p + n, Some(m)) else Back(start, m)
  {
    hide Run;
    var l := InString(s[p + 1]);
    Step(s, start, 30, p, m, l);
    if l == 36 {
      OneTail(s, start, p + 1, m);
    } else if l == 38 {
      TwoTails(s, start, p + 1, m);
    } else if l != 32 {
      Step(s, start, l, p + 1, m, Delta(l, Peek(s, p + 2)));
      if Delta(l, Peek(s, p + 2)) == 36 {
        OneTail(s, start, p + 2, m);
      } else if Delta(l, Peek(s, p + 2)) == 38 {
        TwoTails(s, start, p + 2, m);
      }
    }
  }

  predicate HexAt(s: Bytes, i: nat)
  {
    i < |s| && IsHex(s[i])
  }

  /** Label 48: four hexadecimal digits. */
  lemma HexRun(s: Bytes, start: nat, p: nat, m: Marker)
    requires p < |s| && m.position <= p + 1
    ensures Run(s, start, 48, p, Some(m)) ==
      if HexAt(s, p + 1) && HexAt(s, p + 2) && HexAt(s, p + 3) && HexAt(s, p + 4) then Run(s, start, 30, p + 4, Some(m))
      else Back(start, m)
  {
    hide Run;
    Step(s, start, 48, p, m, Delta(48, Peek(s, p + 1)));
    if HexAt(s, p + 1) {
      Step(s, start, 57, p + 1, m, Delta(57, Peek(s, p + 2)));
      if HexAt(s, p + 2) {
        Step(s, start, 63, p + 2, m, Delta(63, Peek(s, p + 3)));
        if HexAt(s, p + 3) {
          Step(s, start, 66, p + 3, m, Delta(66, Peek(s, p + 4)));
        }
      }
    }
  }

  lemma EscapeRun(s: Bytes, start: nat, p: nat, m: Marker)
    requires p + 1 < |s| && m.position <= p + 1 && s[p + 1] == BACKSLASH
    ensures var n := EscapeLength(s[p + 1..]);
      p + n < |s| &&
      Run(s, start, 30, p, Some(m)) == if n > 0 then Run(s, start, 30, p + n, Some(m)) else Back(start, m)
  {
    hide Run;
    Step(s, start, 30, p, m, 35);
    Step(s, start, 35, p + 1, m, Delta(35, Peek(s, p + 2)));
    if Delta(35, Peek(s, p + 2)) == 48 {
      HexRun(s, start, p + 2, m);
    }
  }

  /** One character of a string, or one escape. */
  lemma UnitRun(s: Bytes, start: nat, p: nat, m: Marker)
    requires p + 1 < |s| && m.position <= p + 1 && s[p + 1] > 0x1f && s[p + 1] != QUOTE
    ensures var n := UnitLength(s[p + 1..]);
      p + n < |s| &&
      Run(s, start, 30, p, Some(m)) == if n > 0 then Run(s, start, 30, p + n, Some(m)) else Back(start, m)
  {
    hide Run, SequenceLength, EscapeLength, Delta;
    if s[p + 1] == BACKSLASH {
      EscapeRun(s, start, p, m);
    } else if s[p + 1] >= 0x80 {
      SequenceRun(s, start, p, m);
    } else {
      AsciiRun(s, start, p, m);
    }
  }

  /** From the label behind a character of a string, the scanner finds the closing quote, or gives up. */
  lemma {:induction false} BodyRun(s: Bytes, start: nat, p: nat, m: Marker)
    requires p < |s| && m.position <= p + 1
    ensures var end := BodyEnd(s[p + 1..]);
      Run(s, start, 30, p, Some(m)) ==
      if end.Some? then Token(ValueString, start, p + 2 + end.value) else Back(start, m)
    decreases |s| - p
  {
    hide Run, UnitLength, Delta;
    var b := s[p + 1..];
    if b == [] || b[0] == QUOTE || b[0] <= 0x1f {
      LastStep(s, start, p, m);
      NoUnit(b);
    } else {
      UnitRun(s, start, p, m);
      var n := UnitLength(b);
      if n > 0 {
        DropDrop(s, p + 1, n);
        BodyRun(s, start, p + n, m);
      }
    }
  }

  lemma NoUnit(b: Bytes)
    requires b == [] || b[0] == QUOTE || b[0] <= 0x1f
    ensures UnitLength(b) == 0
  {}

  lemma LastStep(s: Bytes, start: nat, p: nat, m: Marker)
    requires p < |s| && m.position <= p + 1 && (p + 1 == |s| || s[p + 1] == QUOTE || s[p + 1] <= 0x1f)
    ensures Run(s, start, 30, p, Some(m)) ==
      if p + 1 < |s| && s[p + 1] == QUOTE then Token(ValueString, start, p + 2) else Back(start, m)
  {
    Step(s, start, 30, p, m, Delta(30, Peek(s, p + 1)));
  }

  lemma AsciiRun(s: Bytes, start: nat, p: nat, m: Marker)
    requires p + 1 < |s| && m.position <= p + 1 && 0x20 <= s[p + 1] <= 0x7f && s[p + 1] != QUOTE
      && s[p + 1] != BACKSLASH
    ensures SequenceLength(s[p + 1..]) == 1
    ensures Run(s, start, 30, p, Some(m)) == Run(s, start, 30, p + 1, Some(m))
  {
    Step(s, start, 30, p, m, 30);
  }

  /** Label 9 sets the marker and goes on like label 30. */
  lemma OpeningQuote(s: Bytes, p: nat)
    requires p < |s|
    ensures Run(s, p, 9, p, None) == Run(s, p, 30, p, Some(Marker(p + 1, ParseError)))
  {
    var m := Marker(p + 1, ParseError);
    Step(s, p, 30, p, m, InString(Peek(s, p + 1)));
  }

  /** What `scan` does at a quote. */
  lemma ScanString(s: Bytes, i: nat)
    requires i < |s| && s[i] == QUOTE
    ensures var end := BodyEnd(s[i + 1..]);
      Scan(s, i) == if end.Some? then Token(ValueString, i, i + 2 + end.value) else Token(ParseError, i, i + 1)
  {
    hide Run, Delta;
    OpeningQuote(s, i);
    BodyRun(s, i, i, Marker(i + 1, ParseError));
  }

  /**
   At a quote, `scan` returns a string token exactly for a quoted run of unescaped, well-formed UTF-8 without
   control characters and of legal escapes; otherwise it reports an error at the quote.
   */
  lemma StringTokenIsExact(s: Bytes, i: nat, e: nat)
    requires i < |s| && s[i] == QUOTE
    ensures Scan(s, i) == Token(ValueString, i, e) <==>
      i + 2 <= e <= |s| && s[e - 1] == QUOTE && Body(s[i + 1..e - 1])
    ensures Scan(s, i).start == i && (Scan(s, i).kind == ValueString || Scan(s, i) == Token(ParseError, i, i + 1))
  {
    hide Scan, BodyEnd, Body;
    ScanString(s, i);
    if i + 2 <= e <= |s| {
      var b := s[i + 1..];
      BodyEndIsExact(b, e - i - 2);
      assert b[..e - i - 2] == s[i + 1..e - 1];
    }
  }

  // ---------- literals ----------

  predicate LetterAt(s: Bytes, i: nat, c: Byte)
  {
    i < |s| && s[i] == c
  }

  predicate TrueAt(s: Bytes, i: nat)
  {
    LetterAt(s, i, 0x74) && LetterAt(s, i + 1, 0x72) && LetterAt(s, i + 2, 0x75) && LetterAt(s, i + 3, 0x65)
  }

  predicate NullAt(s: Bytes, i: nat)
  {
    LetterAt(s, i, 0x6e) && LetterAt(s, i + 1, 0x75) && LetterAt(s, i + 2, 0x6c) && LetterAt(s, i + 3, 0x6c)
  }

  predicate FalseAt(s: Bytes, i: nat)
  {
    LetterAt(s, i, 0x66) && LetterAt(s, i + 1, 0x61) && LetterAt(s, i + 2, 0x6c) && LetterAt(s, i + 3, 0x73) &&
    LetterAt(s, i + 4, 0x65)
  }

  lemma FirstLetter(s: Bytes, p: nat, l: nat, to: nat)
    requires p < |s| && (l == 23 || l == 24 || l == 25) && to == Delta(l, Peek(s, p + 1))
    ensures to != 5 ==> p + 1 < |s| && Accepts(to).None? && Marks(to).None? && to != 14 && to != 32
    ensures Run(s, p, l, p, None) ==
      if to == 5 then Token(ParseError, p, p + 1) else Run(s, p, to, p + 1, Some(Marker(p + 1, ParseError)))
  {}

  lemma Accepted(s: Bytes, start: nat, l: nat, p: nat, m: Marker)
    requires p < |s| && m.position <= p + 1 && m.position <= |s| && Accepts(l).Some?
    ensures Run(s, start, l, p, Some(m)) == Token(Accepts(l).value, start, p + 1)
  {}

  /** `scan` at a `t`, `f` or `n`. */
  lemma ScanTrue(s: Bytes, i: nat)
    requires i < |s| && s[i] == 0x74
    ensures Scan(s, i) == if TrueAt(s, i) then Token(LiteralTrue, i, i + 4) else Token(ParseError, i, i + 1)
  {
    hide Run;
    var m := Marker(i + 1, ParseError);
    FirstLetter(s, i, 25, Delta(25, Peek(s, i + 1)));
    if Delta(25, Peek(s, i + 1)) == 47 {
      Step(s, i, 47, i + 1, m, Delta(47, Peek(s, i + 2)));
      if Delta(47, Peek(s, i + 2)) == 56 {
        Step(s, i, 56, i + 2, m, Delta(56, Peek(s, i + 3)));
        if Delta(56, Peek(s, i + 3)) == 61 {
          Accepted(s, i, 61, i + 3, m);
        }
      }
    }
  }

  lemma ScanNull(s: Bytes, i: nat)
    requires i < |s| && s[i] == 0x6e
    ensures Scan(s, i) == if NullAt(s, i) then Token(LiteralNull, i, i + 4) else Token(ParseError, i, i + 1)
  {
    hide Run;
    var m := Marker(i + 1, ParseError);
    FirstLetter(s, i, 24, Delta(24, Peek(s, i + 1)));
    if Delta(24, Peek(s, i + 1)) == 46 {
      Step(s, i, 46, i + 1, m, Delta(46, Peek(s, i + 2)));
      if Delta(46, Peek(s, i + 2)) == 55 {
        Step(s, i, 55, i + 2, m, Delta(55, Peek(s, i + 3)));
        if Delta(55, Peek(s, i + 3)) == 59 {
          Accepted(s, i, 59, i + 3, m);
        }
      }
    }
  }

  lemma ScanFalse(s: Bytes, i: nat)
    requires i < |s| && s[i] == 0x66
    ensures Scan(s, i) == if FalseAt(s, i) then Token(LiteralFalse, i, i + 5) else Token(ParseError, i, i + 1)
  {
    hide Run;
    var m := Marker(i + 1, ParseError);
    FirstLetter(s, i, 23, Delta(23, Peek(s, i + 1)));
    if Delta(23, Peek(s, i + 1)) == 45 {
      Step(s, i, 45, i + 1, m, Delta(45, Peek(s, i + 2)));
      if Delta(45, Peek(s, i + 2)) == 54 {
        Step(s, i, 54, i + 2, m, Delta(54, Peek(s, i + 3)));
        if Delta(54, Peek(s, i + 3)) == 58 {
          Step(s, i, 58, i + 3, m, Delta(58, Peek(s, i + 4)));
          if Delta(58, Peek(s, i + 4)) == 64 {
            Accepted(s, i, 64, i + 4, m);
          }
        }
      }
    }
  }
}

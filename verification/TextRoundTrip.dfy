/** Printing and parsing: `parse(dump(j))` is `j` exactly when the strings of `j` are well-formed UTF-8. */
module TextRoundTrip {
  import opened ByteStrings
  import opened Wrappers
  import opened Sequences
  import opened Decimals
  import opened JsonValues
  import opened Compare
  import opened Utf8
  import opened Escaping
  import opened StringTokens
  import opened Scanner
  import opened StringScan
  import opened NumberScan
  import opened Printer
  import opened Grammar
  import opened Parser
  import L = Lexer

  // ---------- values that print without loss ----------

  predicate NoFloats(j: Json)
    decreases j
  {
    match j
    case Float(_) => false
    case Arr(es) => forall i | 0 <= i < |es| :: NoFloats(es[i])
    case Obj(ms) => forall i | 0 <= i < |ms| :: NoFloats(ms[i].value)
    case _ => true
  }

  /** Every string and every key is well-formed UTF-8. */
  predicate Utf8Strings(j: Json)
    decreases j, 0
  {
    match j
    case Str(s) => WellFormed(s)
    case Arr(es) => Utf8Elems(es)
    case Obj(ms) => Utf8Members(ms)
    case _ => true
  }

  predicate Utf8Elems(es: seq<Json>)
    decreases es, 1
  {
    es == [] || (Utf8Strings(es[0]) && Utf8Elems(es[1..]))
  }

  predicate Utf8Members(ms: seq<Member<Json>>)
    decreases ms, 1
  {
    ms == [] || (WellFormed(ms[0].key) && Utf8Strings(ms[0].value) && Utf8Members(ms[1..]))
  }

  // ---------- the tree of a value ----------

  function TreeOf(j: Json): Tree
    decreases j, 0
  {
    match j
    case Null => NullTree
    case Bool(b) => BoolTree(b)
    case Str(s) => TextTree(s)
    case Arr(es) => ArrayTree(TreesOf(es))
    case Obj(ms) => ObjectTree(PairsOf(ms))
    case _ => NumberTree(Normal(j))
  }

  function TreesOf(es: seq<Json>): (r: seq<Tree>)
    ensures |r| == |es|
    decreases es, 1
  {
    if es == [] then [] else [TreeOf(es[0])] + TreesOf(es[1..])
  }

  function PairsOf(ms: seq<Member<Json>>): (r: seq<Pair>)
    ensures |r| == |ms|
    decreases ms, 1
  {
    if ms == [] then [] else [Pair(ms[0].key, TreeOf(ms[0].value))] + PairsOf(ms[1..])
  }

  lemma {:induction false} MeaningOfTree(j: Json)
    ensures Meaning(TreeOf(j)) == Normal(j)
    decreases j, 0
  {
    match j
    case Arr(es) => MeaningsOfTrees(es);
    case Obj(ms) =>
      MeaningOfMembers(ms, 0);
      assert ms[0..] == ms;
    case _ =>
  }

  lemma {:induction false} MeaningsOfTrees(es: seq<Json>)
    ensures Meanings(TreesOf(es)) == Normals(es)
    decreases es, 1
  {
    if es == [] {
      NoNormals();
    } else {
      MeaningOfTree(es[0]);
      MeaningsOfTrees(es[1..]);
      NormalsFirst(es);
      ConsTail(TreeOf(es[0]), TreesOf(es[1..]));
    }
  }

  lemma {:induction false} MeaningOfMembers(ms: Members<Json>, i: nat)
    requires i <= |ms|
    ensures MeaningOfPairs(PairsOf(ms[i..]), NormalMembers(ms)[..i]) == NormalMembers(ms)
    decreases ms, |ms| - i
  {
    hide Normal, NormalMembers, Insert, TreeOf, Meaning;
    var ns := NormalMembers(ms);
    if i < |ms| {
      DropStep(ms, i);
      MeaningOfTree(ms[i].value);
      NormalMembersStep(ms, i);
      ConsTail(Pair(ms[i].key, TreeOf(ms[i].value)), PairsOf(ms[i + 1..]));
      MeaningOfMembers(ms, i + 1);
    } else {
      assert ns[..i] == ns && ms[i..] == [];
    }
  }

  // ---------- single tokens ----------

  lemma LexBlank(s: Bytes, i: nat, strtod: L.Strtod)
    requires i < |s| && IsBlank(s[i])
    ensures Lex(s, i, strtod) == Lex(s, i + 1, strtod)
  {
    hide LexemeOf;
  }

  lemma {:induction false} LexSpaces(s: Bytes, i: nat, n: nat, strtod: L.Strtod)
    requires Holds(s, i, Spaces(n))
    ensures i + n <= |s| && Lex(s, i, strtod) == Lex(s, i + n, strtod)
    decreases n
  {
    hide Lex;
    if n > 0 {
      HoldsFirst(s, i, Spaces(n));
      HoldsParts(s, i, [SPACE], Spaces(n - 1));
      LexBlank(s, i, strtod);
      LexSpaces(s, i + 1, n - 1, strtod);
    }
  }

  lemma LexBreak(s: Bytes, i: nat, style: Style, strtod: L.Strtod)
    requires Holds(s, i, Break(style))
    ensures var e := i + |Break(style)|; e <= |s| && Lex(s, i, strtod) == Lex(s, e, strtod)
  {
    hide Lex;
    if style.pretty {
      HoldsFirst(s, i, Break(style));
      LexBlank(s, i, strtod);
    }
  }

  /** Brackets, braces, colon and comma. */
  lemma LexChar(s: Bytes, i: nat, c: Byte, strtod: L.Strtod)
    requires i < |s| && s[i] == c && c in [COMMA, COLON, OPEN_ARRAY, CLOSE_ARRAY, OPEN_OBJECT, CLOSE_OBJECT]
    ensures Lex(s, i, strtod) == [Punctuation(c)] + Lex(s, i + 1, strtod)
  {
    ScanOther(s, i);
  }

  function Punctuation(c: Byte): Lexeme
  {
    match c
    case 0x2c => Comma
    case 0x3a => Colon
    case 0x5b => OpenArray
    case 0x5d => CloseArray
    case 0x7b => OpenObject
    case _ => CloseObject
  }

  /** A token at a position, and what follows it. */
  lemma LexToken(s: Bytes, i: nat, t: Token, strtod: L.Strtod)
    requires i <= |s| && t == Scan(s, i)
    ensures Readable(s, t) && (!Stops(t.kind) ==> t.end <= |s|)
    ensures Lex(s, i, strtod) ==
      [LexemeOf(s, t, strtod)] + if Stops(t.kind) then [] else Lex(s, t.end, strtod)
  {
    hide Scan, LexemeOf, Readable;
    ScannedIsReadable(s, i);
    ScanStaysInside(s, i);
  }

  lemma HoldsAt(s: Bytes, i: nat, part: Bytes, k: nat)
    requires Holds(s, i, part) && k < |part|
    ensures i + k < |s| && s[i + k] == part[k]
  {
    assert s[i..i + |part|][k] == s[i + k];
  }

  lemma LexNull(s: Bytes, i: nat, strtod: L.Strtod)
    requires Holds(s, i, NULL_WORD)
    ensures i + 4 <= |s| && Lex(s, i, strtod) == [NullWord] + Lex(s, i + 4, strtod)
  {
    hide Scan, Lex;
    HoldsAt(s, i, NULL_WORD, 0);
    HoldsAt(s, i, NULL_WORD, 1);
    HoldsAt(s, i, NULL_WORD, 2);
    HoldsAt(s, i, NULL_WORD, 3);
    ScanNull(s, i);
    LexToken(s, i, Scan(s, i), strtod);
  }

  lemma LexBool(s: Bytes, i: nat, b: bool, strtod: L.Strtod)
    requires var word := if b then TRUE_WORD else FALSE_WORD; Holds(s, i, word)
    ensures var word := if b then TRUE_WORD else FALSE_WORD;
      i + |word| <= |s| && Lex(s, i, strtod) == [if b then TrueWord else FalseWord] + Lex(s, i + |word|, strtod)
  {
    hide Scan, Lex;
    var word := if b then TRUE_WORD else FALSE_WORD;
    HoldsAt(s, i, word, 0);
    HoldsAt(s, i, word, 1);
    HoldsAt(s, i, word, 2);
    HoldsAt(s, i, word, 3);
    if b {
      ScanTrue(s, i);
    } else {
      HoldsAt(s, i, word, 4);
      ScanFalse(s, i);
    }
    LexToken(s, i, Scan(s, i), strtod);
  }

  /** A printed string: its token has its value, or the scanner stops with an error. */
  lemma LexString(s: Bytes, i: nat, text: Bytes, strtod: L.Strtod)
    requires Holds(s, i, Quoted(text))
    ensures i + |Quoted(text)| <= |s|
    ensures Lex(s, i, strtod) ==
      if WellFormed(text) then [Grammar.Text(Ok(text))] + Lex(s, i + |Quoted(text)|, strtod) else [Wrong]
  {
    hide Scan, Lex, Escape, WellFormed, BodyEnd, EscapesOk, GetString;
    var e := Escape(text);
    HoldsLength(s, i, Quoted(text));
    HoldsParts(s, i, [QUOTE], e + [QUOTE]);
    HoldsFirst(s, i, [QUOTE]);
    HoldsParts(s, i + 1, e, [QUOTE]);
    HoldsFirst(s, i + 1 + |e|, [QUOTE]);
    var rest := s[i + 2 + |e|..];
    BehindQuote(s, i + 1, e, rest);
    BodyEndOfEscape(text, rest);
    ScanString(s, i);
    LexToken(s, i, Scan(s, i), strtod);
    if WellFormed(text) {
      GetStringOfEscape(text);
      var t := Scan(s, i);
      assert s[t.start + 1..t.end - 1] == e;
    }
  }

  lemma BehindQuote(s: Bytes, i: nat, e: Bytes, rest: Bytes)
    requires Holds(s, i, e) && i + |e| < |s| && s[i + |e|] == QUOTE && rest == s[i + |e| + 1..]
    ensures s[i..] == e + ([QUOTE] + rest)
  {
    Slice(s, i, i + |e|);
    DropStep(s, i + |e|);
  }

  /** What may stand behind a printed value. */
  predicate Delimited(s: Bytes, e: nat)
  {
    e == |s| || (e < |s| && (s[e] == COMMA || s[e] == CLOSE_ARRAY || s[e] == CLOSE_OBJECT || IsBlank(s[e])))
  }

  /** A printed integer: the scanner takes all of it and `get_number` gives it back. */
  lemma LexInteger(s: Bytes, i: nat, n: int, strtod: L.Strtod)
    requires INT64_MIN <= n <= UINT64_MAX
    requires Holds(s, i, IntegerText(n)) && Delimited(s, i + |IntegerText(n)|)
    ensures i + |IntegerText(n)| <= |s|
    ensures Lex(s, i, strtod) ==
      [Grammar.Number(if n < 0 then Int(n) else UInt(n))] + Lex(s, i + |IntegerText(n)|, strtod)
  {
    hide Scan, Lex, IntegerText, L.GetNumber;
    IntegerToken(s, i, n);
    LexToken(s, i, Scan(s, i), strtod);
    IntegerValue(s, i, n, strtod);
  }

  lemma IntegerToken(s: Bytes, i: nat, n: int)
    requires INT64_MIN <= n <= UINT64_MAX
    requires Holds(s, i, IntegerText(n)) && Delimited(s, i + |IntegerText(n)|)
    ensures i + |IntegerText(n)| <= |s|
    ensures Scan(s, i) == Token(ValueNumber, i, i + |IntegerText(n)|)
  {
    hide Scan, ToDecimal, AfterFraction, IntegerEnd, FractionEnd, Delimited;
    var t := IntegerText(n);
    HoldsLength(s, i, t);
    HoldsFirst(s, i, t);
    var a := if n < 0 then i + 1 else i;
    var digits := ToDecimal(if n < 0 then -n else n);
    if n < 0 {
      HoldsParts(s, i, [MINUS], digits);
    }
    PrintedDigits(s, a, digits);
    ScanNumber(s, i);
  }

  lemma PrintedDigits(s: Bytes, a: nat, digits: Bytes)
    requires Holds(s, a, digits) && digits != [] && AllDigits(digits) && (digits[0] == ZERO ==> |digits| == 1)
    requires Delimited(s, a + |digits|)
    ensures DigitAt(s, a)
    ensures var e := a + |digits|;
      e <= |s| && IntegerEnd(s, a) == e && FractionEnd(s, e) == e && AfterFraction(s, e) == e
  {
    HoldsFirst(s, a, digits);
    HoldsDigits(s, a, digits);
  }

  lemma IntegerValue(s: Bytes, i: nat, n: int, strtod: L.Strtod)
    requires INT64_MIN <= n <= UINT64_MAX && Holds(s, i, IntegerText(n))
    ensures i < i + |IntegerText(n)| <= |s|
    ensures L.GetNumber(s, i, i + |IntegerText(n)|, strtod) == if n < 0 then Int(n) else UInt(n)
  {
    hide ToDecimal, DigitsValue;
    var t := IntegerText(n);
    var digits := ToDecimal(if n < 0 then -n else n);
    DecimalValue(if n < 0 then -n else n);
    if n < 0 {
      ConsTail(MINUS, digits);
    }
    assert L.Magnitude(t) == digits;
  }

  // ---------- whole values ----------

  /** Some tokens and then others; or, after an error, none that end the input. */
  predicate Reads(all: seq<Lexeme>, good: bool, first: seq<Lexeme>, after: seq<Lexeme>)
  {
    if good then all == first + after else End !in all
  }

  lemma Chain(
    all: seq<Lexeme>, good: bool, first: seq<Lexeme>, middle: seq<Lexeme>, good': bool, second: seq<Lexeme>,
    after: seq<Lexeme>)
    requires Reads(all, good, first, middle) && Reads(middle, good', second, after) && End !in first
    ensures Reads(all, good && good', first + second, after)
  {
    if good && good' {
      Assoc(first, second, after);
    }
  }

  lemma {:induction false} NoEndInYield(t: Tree)
    ensures End !in Yield(t)
    decreases t, 0
  {
    match t
    case ArrayTree(items) => if items != [] { NoEndInItems(items); }
    case ObjectTree(pairs) => if pairs != [] { NoEndInPairs(pairs); }
    case _ =>
  }

  lemma {:induction false} NoEndInItems(items: seq<Tree>)
    requires items != []
    ensures End !in YieldItems(items)
    decreases items, 1
  {
    NoEndInYield(items[0]);
    if |items| > 1 {
      NoEndInItems(items[1..]);
    }
  }

  lemma {:induction false} NoEndInPairs(pairs: seq<Pair>)
    requires pairs != []
    ensures End !in YieldPairs(pairs)
    decreases pairs, 1
  {
    NoEndInYield(pairs[0].tree);
    if |pairs| > 1 {
      NoEndInPairs(pairs[1..]);
    }
  }

  lemma LexClosing(s: Bytes, k: nat, style: Style, inner: nat, c: Byte, strtod: L.Strtod)
    requires (c == CLOSE_ARRAY || c == CLOSE_OBJECT) && Holds(s, k, Closing(style, inner, c))
    ensures Delimited(s, k) && k + |Closing(style, inner, c)| <= |s|
    ensures Lex(s, k, strtod) == [Punctuation(c)] + Lex(s, k + |Closing(style, inner, c)|, strtod)
  {
    hide Lex, Spaces, Shallower, Punctuation, Break, Delimited, Holds;
    var n := Shallower(style, inner);
    HoldsLength(s, k, Closing(style, inner, c));
    HoldsParts(s, k, Break(style), Spaces(n) + [c]);
    LexBreak(s, k, style, strtod);
    var a := k + |Break(style)|;
    HoldsParts(s, a, Spaces(n), [c]);
    LexSpaces(s, a, n, strtod);
    HoldsFirst(s, a + n, [c]);
    LexChar(s, a + n, c, strtod);
    ClosingDelimits(s, k, style, n, c);
  }

  lemma ClosingDelimits(s: Bytes, k: nat, style: Style, n: nat, c: Byte)
    requires c == CLOSE_ARRAY || c == CLOSE_OBJECT
    requires Holds(s, k, Break(style)) && Holds(s, k + |Break(style)|, Spaces(n))
      && Holds(s, k + |Break(style)| + n, [c])
    ensures Delimited(s, k)
  {
    hide Spaces, Holds;
    if style.pretty {
      HoldsFirst(s, k, Break(style));
    } else if n > 0 {
      FirstSpace(n);
      HoldsFirst(s, k, Spaces(n));
    } else {
      HoldsFirst(s, k, [c]);
    }
  }

  lemma FirstSpace(n: nat)
    requires n > 0
    ensures Spaces(n)[0] == SPACE
  {}

  /** A comma, the line break behind it, and more. */
  lemma LexComma(s: Bytes, k: nat, style: Style, more: Bytes, strtod: L.Strtod) returns (next: nat)
    requires Holds(s, k, [COMMA] + (Break(style) + more))
    ensures Delimited(s, k) && k <= |s|
    ensures Holds(s, next, more) && next + |more| == k + |[COMMA] + (Break(style) + more)| && next + |more| <= |s|
    ensures Lex(s, k, strtod) == [Comma] + Lex(s, next, strtod)
  {
    hide Lex;
    HoldsParts(s, k, [COMMA], Break(style) + more);
    HoldsFirst(s, k, [COMMA]);
    LexChar(s, k, COMMA, strtod);
    HoldsParts(s, k + 1, Break(style), more);
    LexBreak(s, k + 1, style, strtod);
    next := k + 1 + |Break(style)|;
    HoldsLength(s, next, more);
  }

  /** An opening bracket, the line break behind it, and more. */
  lemma LexOpening(s: Bytes, i: nat, c: Byte, style: Style, more: Bytes, strtod: L.Strtod) returns (next: nat)
    requires (c == OPEN_ARRAY || c == OPEN_OBJECT) && Holds(s, i, [c] + (Break(style) + more))
    ensures i <= |s|
    ensures Holds(s, next, more) && next + |more| == i + |[c] + (Break(style) + more)| && next + |more| <= |s|
    ensures Lex(s, i, strtod) == [Punctuation(c)] + Lex(s, next, strtod)
  {
    hide Lex;
    HoldsParts(s, i, [c], Break(style) + more);
    HoldsFirst(s, i, [c]);
    LexChar(s, i, c, strtod);
    HoldsParts(s, i + 1, Break(style), more);
    LexBreak(s, i + 1, style, strtod);
    next := i + 1 + |Break(style)|;
    HoldsLength(s, next, more);
  }

  lemma LexEmpty(s: Bytes, i: nat, open: Byte, close: Byte, strtod: L.Strtod)
    requires (open == OPEN_ARRAY && close == CLOSE_ARRAY) || (open == OPEN_OBJECT && close == CLOSE_OBJECT)
    requires Holds(s, i, [open, close])
    ensures i + 2 <= |s| && Lex(s, i, strtod) == [Punctuation(open), Punctuation(close)] + Lex(s, i + 2, strtod)
  {
    hide Lex;
    HoldsAt(s, i, [open, close], 0);
    HoldsAt(s, i, [open, close], 1);
    LexChar(s, i, open, strtod);
    LexChar(s, i + 1, close, strtod);
  }

  /** The tokens of a printed value are the sentence of its tree, when its strings are well-formed. */
  lemma {:induction false} LexOfDump(s: Bytes, i: nat, j: Json, style: Style, indent: nat, show: Show, strtod: L.Strtod)
    requires NoFloats(j) && Holds(s, i, Dump(j, style, indent, show))
      && Delimited(s, i + |Dump(j, style, indent, show)|)
    ensures i + |Dump(j, style, indent, show)| <= |s|
    ensures Reads(Lex(s, i, strtod), Utf8Strings(j), Yield(TreeOf(j)), Lex(s, i + |Dump(j, style, indent, show)|,
        strtod))
    decreases j, 0
  {
    hide Lex, DumpElems, DumpMembers, IntegerText, Quoted, WellFormed, YieldItems, YieldPairs, TreesOf, PairsOf,
      Holds, Delimited;
    HoldsLength(s, i, Dump(j, style, indent, show));
    match j
    case Null => LexNull(s, i, strtod);
    case Bool(b) => LexBool(s, i, b, strtod);
    case Int(n) => LexInteger(s, i, n, strtod);
    case UInt(n) =>
      UnsignedText(n);
      LexInteger(s, i, n, strtod);
    case Str(text) => LexString(s, i, text, strtod);
    case Arr(es) => LexOfArray(s, i, es, style, indent, show, strtod);
    case Obj(ms) => LexOfObject(s, i, ms, style, indent, show, strtod);
    case _ =>
  }

  lemma UnsignedText(n: nat)
    ensures IntegerText(n) == ToDecimal(n)
  {}

  lemma {:induction false} LexOfArray(
    s: Bytes, i: nat, es: seq<Json>, style: Style, indent: nat, show: Show, strtod: L.Strtod)
    requires NoFloats(Arr(es)) && Holds(s, i, Dump(Arr(es), style, indent, show))
    ensures var e := i + |Dump(Arr(es), style, indent, show)|;
      e <= |s| && Reads(Lex(s, i, strtod), Utf8Elems(es), Yield(ArrayTree(TreesOf(es))), Lex(s, e, strtod))
    decreases es, 2
  {
    hide Lex, DumpElems, YieldItems, Holds;
    if es == [] {
      LexEmpty(s, i, OPEN_ARRAY, CLOSE_ARRAY, strtod);
    } else {
      var inner := Deeper(style, indent);
      var next := LexOpening(s, i, OPEN_ARRAY, style, DumpElems(es, style, inner, show), strtod);
      LexOfElems(s, next, es, style, inner, show, strtod);
      var after := Lex(s, next + |DumpElems(es, style, inner, show)|, strtod);
      Chain(Lex(s, i, strtod), true, [OpenArray], Lex(s, next, strtod), Utf8Elems(es), YieldItems(TreesOf(es)), after);
    }
  }

  lemma {:induction false} LexOfElems(
    s: Bytes, i: nat, es: seq<Json>, style: Style, inner: nat, show: Show, strtod: L.Strtod)
    requires es != [] && (forall k | 0 <= k < |es| :: NoFloats(es[k])) && Holds(s, i, DumpElems(es, style, inner, show))
    ensures var e := i + |DumpElems(es, style, inner, show)|;
      e <= |s| && Reads(Lex(s, i, strtod), Utf8Elems(es), YieldItems(TreesOf(es)), Lex(s, e, strtod))
    decreases es, 1
  {
    hide Lex, Dump, Closing, Yield, TreeOf, Utf8Strings, Holds, NoFloats, Delimited, Spaces, Reads, Break;
    HoldsLength(s, i, DumpElems(es, style, inner, show));
    var text := Dump(es[0], style, inner, show);
    var tail := if |es| == 1 then Closing(style, inner, CLOSE_ARRAY)
      else [COMMA] + (Break(style) + DumpElems(es[1..], style, inner, show));
    var first := TreeOf(es[0]);
    var good := Utf8Strings(es[0]);
    HoldsParts(s, i, Spaces(inner), text + tail);
    LexSpaces(s, i, inner, strtod);
    var a := i + inner;
    HoldsParts(s, a, text, tail);
    var k := a + |text|;
    NoEndInYield(first);
    ConsTail(first, TreesOf(es[1..]));
    if |es| == 1 {
      LexClosing(s, k, style, inner, CLOSE_ARRAY, strtod);
      LexOfDump(s, a, es[0], style, inner, show, strtod);
      var after := Lex(s, k + |tail|, strtod);
      GoodReads([CloseArray], after);
      Chain(Lex(s, a, strtod), good, Yield(first), Lex(s, k, strtod), true, [CloseArray], after);
    } else {
      var next := LexComma(s, k, style, DumpElems(es[1..], style, inner, show), strtod);
      LexOfDump(s, a, es[0], style, inner, show, strtod);
      LexOfElems(s, next, es[1..], style, inner, show, strtod);
      var after := Lex(s, k + |tail|, strtod);
      GoodReads([Comma], Lex(s, next, strtod));
      Chain(Lex(s, k, strtod), true, [Comma], Lex(s, next, strtod), Utf8Elems(es[1..]), YieldItems(TreesOf(es[1..])),
          after);
      Chain(Lex(s, a, strtod), good, Yield(first), Lex(s, k, strtod),
            Utf8Elems(es[1..]), [Comma] + YieldItems(TreesOf(es[1..])), after);
    }
  }

  lemma GoodReads(first: seq<Lexeme>, after: seq<Lexeme>)
    ensures Reads(first + after, true, first, after)
  {}

  lemma {:induction false} LexOfObject(
    s: Bytes, i: nat, ms: Members<Json>, style: Style, indent: nat, show: Show, strtod: L.Strtod)
    requires NoFloats(Obj(ms)) && Holds(s, i, Dump(Obj(ms), style, indent, show))
    ensures var e := i + |Dump(Obj(ms), style, indent, show)|;
      e <= |s| && Reads(Lex(s, i, strtod), Utf8Members(ms), Yield(ObjectTree(PairsOf(ms))), Lex(s, e, strtod))
    decreases ms, 2
  {
    hide Lex, DumpMembers, YieldPairs, Holds;
    if ms == [] {
      LexEmpty(s, i, OPEN_OBJECT, CLOSE_OBJECT, strtod);
    } else {
      var inner := Deeper(style, indent);
      var next := LexOpening(s, i, OPEN_OBJECT, style, DumpMembers(ms, style, inner, show), strtod);
      LexOfMembers(s, next, ms, style, inner, show, strtod);
      var after := Lex(s, next + |DumpMembers(ms, style, inner, show)|, strtod);
      Chain(Lex(s, i, strtod), true, [OpenObject], Lex(s, next, strtod), Utf8Members(ms), YieldPairs(PairsOf(ms)),
          after);
    }
  }

  lemma LexAfterKey(s: Bytes, k: nat, style: Style, strtod: L.Strtod)
    requires Holds(s, k, AfterKey(style))
    ensures var e := k + |AfterKey(style)|; e <= |s| && Lex(s, k, strtod) == [Colon] + Lex(s, e, strtod)
  {
    hide Lex;
    HoldsFirst(s, k, AfterKey(style));
    LexChar(s, k, COLON, strtod);
    if style.pretty {
      HoldsAt(s, k, AfterKey(style), 1);
      LexBlank(s, k + 1, strtod);
    }
  }

  /** A key, its colon and its value. */
  lemma {:induction false} LexOfMember(
    s: Bytes, i: nat, m: Member<Json>, style: Style, inner: nat, show: Show, strtod: L.Strtod, tail: Bytes)
    requires NoFloats(m.value)
    requires Holds(s, i, Quoted(m.key) + (AfterKey(style) + (Dump(m.value, style, inner, show) + tail)))
    requires var k := i + |Quoted(m.key)| + |AfterKey(style)| + |Dump(m.value, style, inner, show)|; Delimited(s, k)
    ensures var k := i + |Quoted(m.key)| + |AfterKey(style)| + |Dump(m.value, style, inner, show)|;
      k <= |s| && Holds(s, k, tail) &&
      Reads(Lex(s, i, strtod), WellFormed(m.key) && Utf8Strings(m.value),
            [Grammar.Text(Ok(m.key)), Colon] + Yield(TreeOf(m.value)), Lex(s, k, strtod))
    decreases m, 1
  {
    hide Lex, Dump, Quoted, AfterKey, Yield, TreeOf, Utf8Strings, WellFormed, Holds, NoFloats, Delimited;
    var text := Dump(m.value, style, inner, show);
    HoldsParts(s, i, Quoted(m.key), AfterKey(style) + (text + tail));
    LexString(s, i, m.key, strtod);
    var a := i + |Quoted(m.key)|;
    HoldsParts(s, a, AfterKey(style), text + tail);
    LexAfterKey(s, a, style, strtod);
    var b := a + |AfterKey(style)|;
    HoldsParts(s, b, text, tail);
    LexOfDump(s, b, m.value, style, inner, show, strtod);
    var after := Lex(s, b + |text|, strtod);
    var key := [Grammar.Text(Ok(m.key)), Colon];
    if WellFormed(m.key) {
      Assoc([key[0]], [Colon], Lex(s, b, strtod));
      Chain(Lex(s, i, strtod), true, key, Lex(s, b, strtod), Utf8Strings(m.value), Yield(TreeOf(m.value)), after);
    }
  }

  lemma {:induction false} LexOfMembers(
    s: Bytes, i: nat, ms: Members<Json>, style: Style, inner: nat, show: Show, strtod: L.Strtod)
    requires ms != [] && (forall k | 0 <= k < |ms| :: NoFloats(ms[k].value))
      && Holds(s, i, DumpMembers(ms, style, inner, show))
    ensures var e := i + |DumpMembers(ms, style, inner, show)|;
      e <= |s| && Reads(Lex(s, i, strtod), Utf8Members(ms), YieldPairs(PairsOf(ms)), Lex(s, e, strtod))
    decreases ms, 1
  {
    hide Lex, Dump, Closing, Quoted, AfterKey, Yield, TreeOf, Utf8Strings, WellFormed, Holds, NoFloats, Delimited,
      Spaces, Reads, Break;
    HoldsLength(s, i, DumpMembers(ms, style, inner, show));
    var m := ms[0];
    var text := Dump(m.value, style, inner, show);
    var tail := if |ms| == 1 then Closing(style, inner, CLOSE_OBJECT)
      else [COMMA] + (Break(style) + DumpMembers(ms[1..], style, inner, show));
    var pair := Quoted(m.key) + (AfterKey(style) + (text + tail));
    HoldsParts(s, i, Spaces(inner), pair);
    LexSpaces(s, i, inner, strtod);
    var a := i + inner;
    var k := a + |Quoted(m.key)| + |AfterKey(style)| + |text|;
    TailOfMember(s, a, Quoted(m.key), AfterKey(style), text, tail);
    var first := [Grammar.Text(Ok(m.key)), Colon];
    var y := Yield(TreeOf(m.value));
    var good := WellFormed(m.key) && Utf8Strings(m.value);
    NoEndInYield(TreeOf(m.value));
    ConsTail(Pair(m.key, TreeOf(m.value)), PairsOf(ms[1..]));
    if |ms| == 1 {
      LexClosing(s, k, style, inner, CLOSE_OBJECT, strtod);
      LexOfMember(s, a, m, style, inner, show, strtod, tail);
      var after := Lex(s, k + |tail|, strtod);
      GoodReads([CloseObject], after);
      Chain(Lex(s, a, strtod), good, first + y, Lex(s, k, strtod), true, [CloseObject], after);
      Assoc(first, y, [CloseObject]);
    } else {
      var more := YieldPairs(PairsOf(ms[1..]));
      var next := LexComma(s, k, style, DumpMembers(ms[1..], style, inner, show), strtod);
      LexOfMember(s, a, m, style, inner, show, strtod, tail);
      LexOfMembers(s, next, ms[1..], style, inner, show, strtod);
      var after := Lex(s, k + |tail|, strtod);
      GoodReads([Comma], Lex(s, next, strtod));
      Chain(Lex(s, k, strtod), true, [Comma], Lex(s, next, strtod), Utf8Members(ms[1..]), more, after);
      Chain(Lex(s, a, strtod), good, first + y, Lex(s, k, strtod), Utf8Members(ms[1..]), [Comma] + more, after);
      Assoc(first, y, [Comma] + more);
    }
  }

  lemma TailOfMember(s: Bytes, a: nat, key: Bytes, colon: Bytes, text: Bytes, tail: Bytes)
    requires Holds(s, a, key + (colon + (text + tail)))
    ensures Holds(s, a + |key| + |colon| + |text|, tail)
  {
    HoldsParts(s, a, key, colon + (text + tail));
    HoldsParts(s, a + |key|, colon, text + tail);
    HoldsParts(s, a + |key| + |colon|, text, tail);
  }

  // ---------- the theorem ----------

  /**
   For every value without floats, every indent and every conversion of floats: parsing the printed text gives
   the value back, with its integers in normal form, exactly when all its strings and keys are well-formed
   UTF-8; otherwise parsing fails.
   */
  lemma {:induction false} ParseOfDump(j: Json, indent: int, show: Show, strtod: L.Strtod)
    requires NoFloats(j)
    ensures Utf8Strings(j) ==> ParseText(Printer.Text(j, indent, show), strtod) == Ok(Normal(j)) && Eq(Normal(j), j)
    ensures !Utf8Strings(j) ==> ParseText(Printer.Text(j, indent, show), strtod).Err?
  {
    hide Dump, Lex, Yield, Meaning, Normal, Eq, Utf8Strings, NoFloats, ParseValue;
    var style := if indent >= 0 then Style(true, indent) else Style(false, 0);
    var s := Printer.Text(j, indent, show);
    assert s[0..0 + |s|] == s;
    LexOfDump(s, 0, j, style, 0, show, strtod);
    LexEnd(s, strtod);
    if Utf8Strings(j) {
      Grammar.Accepts(TreeOf(j), [End]);
      MeaningOfTree(j);
      NormalIsEqual(j);
    } else if ParseText(s, strtod).Ok? {
      var ts := Lex(s, 0, strtod);
      var t := Derives(ts);
      EndIsIn(ts, Yield(t), ParseValue(ts).value.rest);
    }
  }

  lemma LexEnd(s: Bytes, strtod: L.Strtod)
    ensures Lex(s, |s|, strtod) == [End]
  {
    ScanOther(s, |s|);
  }

  lemma EndIsIn(ts: seq<Lexeme>, first: seq<Lexeme>, rest: seq<Lexeme>)
    requires ts == first + rest && Head(rest) == End
    ensures End in ts
  {
    assert ts[|first|] == End;
  }

  /** The byte 0xff is printed as it is, and the parser rejects it. */
  lemma IllFormedTextThrows(indent: int, show: Show, strtod: L.Strtod)
    ensures var j := Str([0xff]);
      NoFloats(j) && !Utf8Strings(j) && ParseText(Printer.Text(j, indent, show), strtod).Err?
  {
    var j := Str([0xff]);
    assert SequenceLength([0xff]) == 0;
    ParseOfDump(j, indent, show, strtod);
  }
}

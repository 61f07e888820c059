/** The layout of a printed value: its tokens in a row, and the white space between two of them. */
module Layout {
  import opened ByteStrings
  import opened Sequences
  import opened Literals
  import opened JsonValues
  import opened Floats
  import opened Decimals
  import opened Printer

  // ---------- tokens ----------

  /** A bracket, a comma or a colon; or a word, a number or a quoted string. */
  datatype Token = Mark(c: char) | Leaf(text: Bytes)

  function Spelling(t: Token): Bytes
  {
    match t
    case Mark(c) => if (c as int) < 128 then [c as int] else []
    case Leaf(text) => text
  }

  function Tokens(j: Json, show: Show): (ts: seq<Token>)
    ensures ts != []
    decreases j, 0
  {
    match j
    case Null => [Leaf(NULL_WORD)]
    case Bool(b) => [Leaf(if b then TRUE_WORD else FALSE_WORD)]
    case Int(i) => [Leaf(IntegerText(i))]
    case UInt(u) => [Leaf(IntegerText(u))]
    case Float(d) => [Leaf(FloatText(d, show))]
    case Str(s) => [Leaf(Quoted(s))]
    case Arr(es) => [Mark('[')] + ElemTokens(es, show) + [Mark(']')]
    case Obj(ms) => [Mark('{')] + MemberTokens(ms, show) + [Mark('}')]
  }

  /** Elements with commas between them. */
  function ElemTokens(es: seq<Json>, show: Show): seq<Token>
    decreases es, 1
  {
    if es == [] then []
    else Tokens(es[0], show) + (if |es| == 1 then [] else [Mark(',')] + ElemTokens(es[1..], show))
  }

  /** Names, colons and values, with commas between them. */
  function MemberTokens(ms: seq<Member<Json>>, show: Show): seq<Token>
    decreases ms, 1
  {
    if ms == [] then []
    else
      [Leaf(Quoted(ms[0].key)), Mark(':')] +
      (Tokens(ms[0].value, show) + (if |ms| == 1 then [] else [Mark(',')] + MemberTokens(ms[1..], show)))
  }

  // ---------- white space ----------

  predicate Opens(t: Token)
  {
    t == Mark('[') || t == Mark('{')
  }

  predicate Closes(t: Token)
  {
    t == Mark(']') || t == Mark('}')
  }

  function NewLine(blanks: int): Bytes
  {
    ['\n' as int] + seq(blanks % 0x1_0000_0000, _ => ' ' as int)
  }

  /**
   The white space between two tokens, with `depth` brackets open between them. In the compact form there is none.
   Otherwise one blank follows a colon. Every element and every member starts a new line, and so does the bracket that
   closes them; a line starts with the indentation for each open bracket. There is nothing else, also not in empty
   brackets.
   */
  function Gap(before: Token, after: Token, depth: int, style: Style): Bytes
  {
    if !style.pretty then []
    else if before == Mark(':') then [' ' as int]
    else if Opens(before) && Closes(after) then []
    else if Opens(before) || before == Mark(',') then NewLine(depth * style.step)
    else if Closes(after) then NewLine((depth - 1) * style.step)
    else []
  }

  function DepthAfter(depth: int, t: Token): int
  {
    if Opens(t) then depth + 1 else if Closes(t) then depth - 1 else depth
  }

  /** The tokens behind another one, each with the white space in front of it. */
  function Lay(before: Token, ts: seq<Token>, depth: int, style: Style): Bytes
    decreases |ts|
  {
    if ts == [] then []
    else
      Gap(before, ts[0], depth, style) +
      (Spelling(ts[0]) + Lay(ts[0], ts[1..], DepthAfter(depth, ts[0]), style))
  }

  /** A whole text. */
  function LayAll(ts: seq<Token>, style: Style): Bytes
    requires ts != []
  {
    Spelling(ts[0]) + Lay(ts[0], ts[1..], DepthAfter(0, ts[0]), style)
  }

  function SpellAll(ts: seq<Token>): Bytes
  {
    if ts == [] then [] else Spelling(ts[0]) + SpellAll(ts[1..])
  }

  /** In the compact form, the text is the tokens and nothing else. */
  lemma {:induction false} CompactIsTokens(before: Token, ts: seq<Token>, depth: int, style: Style)
    requires !style.pretty
    ensures Lay(before, ts, depth, style) == SpellAll(ts)
    decreases |ts|
  {
    if ts != [] {
      CompactIsTokens(ts[0], ts[1..], DepthAfter(depth, ts[0]), style);
      LeftUnit(Spelling(ts[0]) + SpellAll(ts[1..]));
    }
  }

  // ---------- the printer ----------

  /** The indentation of a line with this many open brackets. */
  function Indent(depth: int, style: Style): nat
  {
    if style.pretty then depth * style.step % UINT32 else 0
  }

  lemma IndentSteps(depth: int, style: Style)
    ensures Deeper(style, Indent(depth, style)) == Indent(depth + 1, style)
    ensures Shallower(style, Indent(depth, style)) == Indent(depth - 1, style)
  {
    if style.pretty {
      var x, n: int := depth * style.step, style.step;
      assert (depth + 1) * n == x + n && (depth - 1) * n == x - n;
      ModAdds(x, n);
      ModAdds(x, -n);
    }
  }

  lemma ModAdds(x: int, n: int)
    ensures (x % UINT32 + n) % UINT32 == (x + n) % UINT32
  {
    var q := x / UINT32;
    var y := x % UINT32 + n;
    assert x + n == UINT32 * (q + y / UINT32) + y % UINT32;
    DivModUnique(x + n, UINT32, q + y / UINT32, y % UINT32);
  }

  lemma {:induction false} SpacesAre(n: nat)
    ensures Spaces(n) == seq(n, _ => ' ' as int)
  {
    if n > 0 {
      SpacesAre(n - 1);
    }
  }

  lemma LineStart(depth: int, style: Style)
    ensures Break(style) + Spaces(Indent(depth, style)) == if style.pretty then NewLine(depth * style.step) else []
  {
    SpacesAre(Indent(depth, style));
  }

  /** What the end of a value is followed by does not depend on the value. */
  const CLOSED: Token := Mark(']')

  predicate Ends(t: Token)
  {
    t.Leaf? || Closes(t)
  }

  lemma AfterValue(t: Token, rest: seq<Token>, depth: int, style: Style)
    requires Ends(t)
    ensures Lay(t, rest, depth, style) == Lay(CLOSED, rest, depth, style)
  {}

  lemma FirstToken(j: Json, show: Show)
    ensures !Closes(Tokens(j, show)[0])
  {}

  /** A value in front of other tokens, without the white space in front of it. */
  ghost predicate Lays(j: Json, style: Style, depth: int, show: Show, rest: seq<Token>)
  {
    var ts := Tokens(j, show);
    Spelling(ts[0]) + Lay(ts[0], ts[1..] + rest, DepthAfter(depth, ts[0]), style) ==
      Dump(j, style, Indent(depth, style), show) + Lay(CLOSED, rest, depth, style)
  }

  lemma {:induction false} ValueLays(j: Json, style: Style, depth: int, show: Show, rest: seq<Token>)
    ensures Lays(j, style, depth, show, rest)
    decreases j, 1
  {
    match j
    case Arr(es) => ArrayLays(es, style, depth, show, rest);
    case Obj(ms) => ObjectLays(ms, style, depth, show, rest);
    case _ => LeafLays(j, style, depth, show, rest);
  }

  lemma LeafLays(j: Json, style: Style, depth: int, show: Show, rest: seq<Token>)
    requires !j.Arr? && !j.Obj?
    ensures Lays(j, style, depth, show, rest)
  {
    hide Lay, IntegerText, FloatText, Quoted;
    var ts := Tokens(j, show);
    LeftUnit(rest);
    assert ts[1..] == [];
    AfterValue(ts[0], rest, depth, style);
    if j.UInt? {
      UnsignedText(j.u);
    }
  }

  lemma UnsignedText(u: UInt64)
    ensures IntegerText(u) == ToDecimal(u)
  {}

  lemma LayFirst(before: Token, t: Token, ts: seq<Token>, depth: int, style: Style)
    ensures Lay(before, [t] + ts, depth, style) ==
      Gap(before, t, depth, style) + (Spelling(t) + Lay(t, ts, DepthAfter(depth, t), style))
  {
    ConsTail(t, ts);
  }

  /** A value behind another token and in front of others. */
  lemma ValueBehind(before: Token, j: Json, style: Style, depth: int, show: Show, rest: seq<Token>)
    requires Lays(j, style, depth, show, rest)
    ensures Lay(before, Tokens(j, show) + rest, depth, style) ==
      Gap(before, Tokens(j, show)[0], depth, style) +
      (Dump(j, style, Indent(depth, style), show) + Lay(CLOSED, rest, depth, style))
  {
    hide Lay, Dump, Tokens, Gap;
    var ts := Tokens(j, show);
    HeadTail(ts);
    Assoc([ts[0]], ts[1..], rest);
    LayFirst(before, ts[0], ts[1..] + rest, depth, style);
  }

  /** The gap in front of an element or a member is the line break and the indentation. */
  lemma GapOfItem(before: Token, first: Token, depth: int, style: Style)
    requires (Opens(before) || before == Mark(',')) && !Closes(first)
    ensures Gap(before, first, depth, style) == Break(style) + Spaces(Indent(depth, style))
  {
    LineStart(depth, style);
  }

  /** The closing bracket behind a value, and what follows it. */
  lemma ClosingLays(c: char, rest: seq<Token>, depth: int, style: Style)
    requires c == ']' || c == '}'
    ensures Lay(CLOSED, [Mark(c)] + rest, depth, style) ==
      Closing(style, Indent(depth, style), c as int) + Lay(CLOSED, rest, depth - 1, style)
  {
    hide Lay, Spaces, Indent, Shallower, Break;
    LayFirst(CLOSED, Mark(c), rest, depth, style);
    AfterValue(Mark(c), rest, depth - 1, style);
    IndentSteps(depth, style);
    LineStart(depth - 1, style);
    ClosingGap(c, depth, style);
    var indent := Spaces(Indent(depth - 1, style));
    Assoc(Break(style), indent, [c as int]);
    Assoc(Break(style) + indent, [c as int], Lay(CLOSED, rest, depth - 1, style));
  }

  lemma ClosingGap(c: char, depth: int, style: Style)
    requires c == ']' || c == '}'
    ensures Gap(CLOSED, Mark(c), depth, style) == if style.pretty then NewLine((depth - 1) * style.step) else []
  {}

  lemma CommaLays(rest: seq<Token>, depth: int, style: Style)
    ensures Lay(CLOSED, [Mark(',')] + rest, depth, style) == [COMMA] + Lay(Mark(','), rest, depth, style)
  {
    hide Lay;
    LayFirst(CLOSED, Mark(','), rest, depth, style);
    LeftUnit([COMMA] + Lay(Mark(','), rest, depth, style));
  }

  lemma {:induction false} ElemsLay(
    before: Token, es: seq<Json>, style: Style, depth: int, show: Show, rest: seq<Token>)
    requires es != [] && (Opens(before) || before == Mark(','))
    ensures Lay(before, ElemTokens(es, show) + ([Mark(']')] + rest), depth, style) ==
      Break(style) + (DumpElems(es, style, Indent(depth, style), show) + Lay(CLOSED, rest, depth - 1, style))
    decreases es, 0
  {
    hide Lay, Dump, Tokens, Gap, Spaces, Indent, Break, Closing, Opens, Closes;
    var more := if |es| == 1 then [] else [Mark(',')] + ElemTokens(es[1..], show);
    var follow := more + ([Mark(']')] + rest);
    var ts, inner, end := Tokens(es[0], show), Indent(depth, style), Lay(CLOSED, rest, depth - 1, style);
    var value, tail := Dump(es[0], style, inner, show), Lay(CLOSED, follow, depth, style);
    Assoc(ts, more, [Mark(']')] + rest);
    ValueLays(es[0], style, depth, show, follow);
    ValueBehind(before, es[0], style, depth, show, follow);
    FirstToken(es[0], show);
    GapOfItem(before, ts[0], depth, style);
    Assoc(Break(style), Spaces(inner), value + tail);
    if |es| == 1 {
      LeftUnit([Mark(']')] + rest);
      ClosingLays(']', rest, depth, style);
      Regroup(Spaces(inner), value, Closing(style, inner, CLOSE_ARRAY), end);
    } else {
      var later := DumpElems(es[1..], style, inner, show);
      Assoc([Mark(',')], ElemTokens(es[1..], show), [Mark(']')] + rest);
      CommaLays(ElemTokens(es[1..], show) + ([Mark(']')] + rest), depth, style);
      ElemsLay(Mark(','), es[1..], style, depth, show, rest);
      Assoc(Break(style), later, end);
      Assoc([COMMA], Break(style) + later, end);
      Regroup(Spaces(inner), value, [COMMA] + (Break(style) + later), end);
    }
  }

  lemma Regroup(a: Bytes, b: Bytes, c: Bytes, d: Bytes)
    ensures a + (b + (c + d)) == (a + (b + c)) + d
  {}

  lemma {:induction false} ArrayLays(es: seq<Json>, style: Style, depth: int, show: Show, rest: seq<Token>)
    ensures Lays(Arr(es), style, depth, show, rest)
    decreases es, 2
  {
    hide Lay, DumpElems, Indent, Break, Gap;
    var end := Lay(CLOSED, rest, depth, style);
    var inside := ElemTokens(es, show);
    Brackets('[', ']', inside, rest);
    if es == [] {
      LeftUnit([Mark(']')] + rest);
      LayFirst(Mark('['), Mark(']'), rest, depth + 1, style);
      EmptyGap('[', ']', depth + 1, style);
      AfterValue(Mark(']'), rest, depth, style);
      Assoc([OPEN_ARRAY], [CLOSE_ARRAY], end);
    } else {
      IndentSteps(depth, style);
      ElemsLay(Mark('['), es, style, depth + 1, show, rest);
      var body := DumpElems(es, style, Indent(depth + 1, style), show);
      Assoc(Break(style), body, end);
      Assoc([OPEN_ARRAY], Break(style) + body, end);
    }
  }

  lemma Brackets(open: char, close: char, inside: seq<Token>, rest: seq<Token>)
    ensures var ts := [Mark(open)] + inside + [Mark(close)];
      ts[0] == Mark(open) && ts[1..] + rest == inside + ([Mark(close)] + rest)
  {
    Assoc([Mark(open)], inside, [Mark(close)]);
    ConsTail(Mark(open), inside + [Mark(close)]);
    Assoc(inside, [Mark(close)], rest);
  }

  lemma EmptyGap(open: char, close: char, depth: int, style: Style)
    requires (open == '[' || open == '{') && (close == ']' || close == '}')
    ensures Gap(Mark(open), Mark(close), depth, style) == []
  {}

  lemma KeyLays(before: Token, key: Bytes, rest: seq<Token>, depth: int, style: Style)
    requires Opens(before) || before == Mark(',')
    ensures Lay(before, [Leaf(Quoted(key)), Mark(':')] + rest, depth, style) ==
      Break(style) + (Spaces(Indent(depth, style)) + (Quoted(key) + ([COLON] + Lay(Mark(':'), rest, depth, style))))
  {
    hide Lay, Quoted, Spaces, Indent, Break;
    var name := Leaf(Quoted(key));
    var colon := [Mark(':')] + rest;
    assert [name, Mark(':')] + rest == [name] + colon;
    LayFirst(before, name, colon, depth, style);
    GapOfItem(before, name, depth, style);
    LayFirst(name, Mark(':'), rest, depth, style);
    LeftUnit([COLON] + Lay(Mark(':'), rest, depth, style));
    Assoc(Break(style), Spaces(Indent(depth, style)),
      Quoted(key) + ([COLON] + Lay(Mark(':'), rest, depth, style)));
  }

  lemma GapOfColon(first: Token, depth: int, style: Style)
    ensures [COLON] + Gap(Mark(':'), first, depth, style) == AfterKey(style)
  {}

  /** A value behind its name. */
  lemma ValueOfKey(j: Json, style: Style, depth: int, show: Show, rest: seq<Token>)
    requires Lays(j, style, depth, show, rest)
    ensures [COLON] + Lay(Mark(':'), Tokens(j, show) + rest, depth, style) ==
      AfterKey(style) + (Dump(j, style, Indent(depth, style), show) + Lay(CLOSED, rest, depth, style))
  {
    hide Lay, Dump, Tokens, Gap, Lays;
    ValueBehind(Mark(':'), j, style, depth, show, rest);
    GapOfColon(Tokens(j, show)[0], depth, style);
    Assoc([COLON], Gap(Mark(':'), Tokens(j, show)[0], depth, style),
      Dump(j, style, Indent(depth, style), show) + Lay(CLOSED, rest, depth, style));
  }

  lemma {:induction false} MembersLay(
    before: Token, ms: seq<Member<Json>>, style: Style, depth: int, show: Show, rest: seq<Token>)
    requires ms != [] && (Opens(before) || before == Mark(','))
    ensures Lay(before, MemberTokens(ms, show) + ([Mark('}')] + rest), depth, style) ==
      Break(style) + (DumpMembers(ms, style, Indent(depth, style), show) + Lay(CLOSED, rest, depth - 1, style))
    decreases ms, 0
  {
    hide Lay, Dump, Tokens, Gap, Spaces, Indent, Break, Closing, Opens, Closes, Quoted, AfterKey;
    var more := if |ms| == 1 then [] else [Mark(',')] + MemberTokens(ms[1..], show);
    var follow := more + ([Mark('}')] + rest);
    var ts, inner, end := Tokens(ms[0].value, show), Indent(depth, style), Lay(CLOSED, rest, depth - 1, style);
    var name := [Leaf(Quoted(ms[0].key)), Mark(':')];
    var value, tail := Dump(ms[0].value, style, inner, show), Lay(CLOSED, follow, depth, style);
    Assoc(name, ts + more, [Mark('}')] + rest);
    Assoc(ts, more, [Mark('}')] + rest);
    KeyLays(before, ms[0].key, ts + follow, depth, style);
    ValueLays(ms[0].value, style, depth, show, follow);
    ValueOfKey(ms[0].value, style, depth, show, follow);
    if |ms| == 1 {
      LeftUnit([Mark('}')] + rest);
      ClosingLays('}', rest, depth, style);
      RegroupMember(Spaces(inner), Quoted(ms[0].key), AfterKey(style), value, Closing(style, inner, CLOSE_OBJECT), end);
    } else {
      var later := DumpMembers(ms[1..], style, inner, show);
      Assoc([Mark(',')], MemberTokens(ms[1..], show), [Mark('}')] + rest);
      CommaLays(MemberTokens(ms[1..], show) + ([Mark('}')] + rest), depth, style);
      MembersLay(Mark(','), ms[1..], style, depth, show, rest);
      Assoc(Break(style), later, end);
      Assoc([COMMA], Break(style) + later, end);
      RegroupMember(Spaces(inner), Quoted(ms[0].key), AfterKey(style), value, [COMMA] + (Break(style) + later), end);
    }
  }

  lemma RegroupMember(a: Bytes, b: Bytes, c: Bytes, d: Bytes, e: Bytes, f: Bytes)
    ensures a + (b + (c + (d + (e + f)))) == (a + (b + (c + (d + e)))) + f
  {}

  lemma {:induction false} ObjectLays(
    ms: seq<Member<Json>>, style: Style, depth: int, show: Show, rest: seq<Token>)
    requires Sorted(ms)
    ensures Lays(Obj(ms), style, depth, show, rest)
    decreases ms, 2
  {
    hide Lay, DumpMembers, Indent, Break, Gap, Sorted;
    var end := Lay(CLOSED, rest, depth, style);
    var inside := MemberTokens(ms, show);
    Brackets('{', '}', inside, rest);
    if ms == [] {
      LeftUnit([Mark('}')] + rest);
      LayFirst(Mark('{'), Mark('}'), rest, depth + 1, style);
      EmptyGap('{', '}', depth + 1, style);
      AfterValue(Mark('}'), rest, depth, style);
      Assoc([OPEN_OBJECT], [CLOSE_OBJECT], end);
    } else {
      IndentSteps(depth, style);
      MembersLay(Mark('{'), ms, style, depth + 1, show, rest);
      var body := DumpMembers(ms, style, Indent(depth + 1, style), show);
      Assoc(Break(style), body, end);
      Assoc([OPEN_OBJECT], Break(style) + body, end);
    }
  }

  // ---------- the theorem ----------

  /** For every value: `dump` writes its tokens with the white space of the layout, or in the compact form with none. */
  lemma TextIsLayout(j: Json, indent: int, show: Show)
    ensures indent >= 0 ==> Text(j, indent, show) == LayAll(Tokens(j, show), Style(true, indent))
    ensures indent < 0 ==> Text(j, indent, show) == SpellAll(Tokens(j, show))
  {
    hide Lay, Dump, Tokens;
    var style := if indent >= 0 then Style(true, indent) else Style(false, 0);
    var ts := Tokens(j, show);
    ValueLays(j, style, 0, show, []);
    RightUnit(ts[1..]);
    NothingLays(0, style);
    RightUnit(Dump(j, style, 0, show));
    if indent < 0 {
      CompactIsTokens(ts[0], ts[1..], DepthAfter(0, ts[0]), style);
    }
  }

  lemma NothingLays(depth: int, style: Style)
    ensures Lay(CLOSED, [], depth, style) == [] && Indent(0, style) == 0
  {}

  /** The words and the two zeros, letter by letter. */
  lemma WordsAre(d: Double, show: Show)
    ensures Spells(NULL_WORD, "null") && Spells(TRUE_WORD, "true") && Spells(FALSE_WORD, "false")
    ensures DoubleValue(d) == 0.0 ==> Spells(FloatText(d, show), if d[0] >= 128 then "-0.0" else "0.0")
    ensures DoubleValue(d) != 0.0 ==> FloatText(d, show) == show(d)
  {
    hide DoubleValue;
  }
}

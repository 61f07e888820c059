/** `dump`: the text of a value. */
module Printer {
  import opened ByteStrings
  import opened Sequences
  import opened Decimals
  import opened JsonValues
  import opened Floats
  import opened Escaping

  const UINT32 := 0x1_0000_0000
  const NEWLINE: Byte := 10
  const SPACE: Byte := 32
  const COMMA: Byte := 0x2c
  const COLON: Byte := 0x3a
  const OPEN_ARRAY: Byte := 0x5b
  const CLOSE_ARRAY: Byte := 0x5d
  const OPEN_OBJECT: Byte := 0x7b
  const CLOSE_OBJECT: Byte := 0x7d

  /** `o << number_float` with 15 digits, for numbers that are not zero. */
  type Show = Double -> Bytes

  /** `pretty_print` and `indent_step` */
  datatype Style = Style(pretty: bool, step: nat)

  function Spaces(n: nat): (r: Bytes)
    ensures |r| == n
  {
    if n == 0 then [] else [SPACE] + Spaces(n - 1)
  }

  function Break(style: Style): Bytes
  {
    if style.pretty then [NEWLINE] else []
  }

  /** `new_indent += indent_step`, in unsigned arithmetic. */
  function Deeper(style: Style, indent: nat): nat
  {
    if style.pretty then (indent + style.step) % UINT32 else indent
  }

  /** `new_indent -= indent_step` */
  function Shallower(style: Style, indent: nat): nat
  {
    if style.pretty then (indent - style.step) % UINT32 else indent
  }

  /** A closing bracket stands below the start of the line that opens it, whatever wraps. */
  lemma ClosingAligns(style: Style, indent: nat)
    requires indent < UINT32
    ensures Shallower(style, Deeper(style, indent)) == indent
  {
    if style.pretty {
      var q := (indent + style.step) / UINT32;
      DivModUnique(Deeper(style, indent) - style.step, UINT32, -q, indent);
    }
  }

  function Quoted(s: Bytes): Bytes
  {
    [QUOTE] + (Escape(s) + [QUOTE])
  }

  function IntegerText(i: int): Bytes
  {
    if i < 0 then [MINUS] + ToDecimal(-i) else ToDecimal(i)
  }

  function FloatText(d: Double, show: Show): Bytes
  {
    if DoubleValue(d) == 0.0 then (if d[0] >= 128 then [MINUS, 0x30, 0x2e, 0x30] else [0x30, 0x2e, 0x30]) else show(d)
  }

  /** `dump`, with the indentation of the line it starts on. */
  function Dump(j: Json, style: Style, indent: nat, show: Show): (r: Bytes)
    decreases j, 0
  {
    match j
    case Null => NULL_WORD
    case Bool(b) => if b then TRUE_WORD else FALSE_WORD
    case Int(i) => IntegerText(i)
    case UInt(u) => ToDecimal(u)
    case Float(d) => FloatText(d, show)
    case Str(s) => Quoted(s)
    case Arr(es) =>
      if es == [] then [OPEN_ARRAY, CLOSE_ARRAY]
      else [OPEN_ARRAY] + (Break(style) + DumpElems(es, style, Deeper(style, indent), show))
    case Obj(ms) =>
      if ms == [] then [OPEN_OBJECT, CLOSE_OBJECT]
      else [OPEN_OBJECT] + (Break(style) + DumpMembers(ms, style, Deeper(style, indent), show))
  }

  /** The last line of an array or object. */
  function Closing(style: Style, inner: nat, c: Byte): Bytes
  {
    Break(style) + (Spaces(Shallower(style, inner)) + [c])
  }

  /** The elements, each on its indentation, and the closing bracket. */
  function DumpElems(es: seq<Json>, style: Style, inner: nat, show: Show): Bytes
    requires es != []
    decreases es, 1
  {
    Spaces(inner) +
    (Dump(es[0], style, inner, show) +
     (if |es| == 1 then Closing(style, inner, CLOSE_ARRAY)
      else [COMMA] + (Break(style) + DumpElems(es[1..], style, inner, show))))
  }

  function AfterKey(style: Style): Bytes
  {
    [COLON] + if style.pretty then [SPACE] else []
  }

  function DumpMembers(ms: seq<Member<Json>>, style: Style, inner: nat, show: Show): Bytes
    requires ms != []
    decreases ms, 1
  {
    Spaces(inner) +
    (Quoted(ms[0].key) +
     (AfterKey(style) +
      (Dump(ms[0].value, style, inner, show) +
       (if |ms| == 1 then Closing(style, inner, CLOSE_OBJECT)
        else [COMMA] + (Break(style) + DumpMembers(ms[1..], style, inner, show))))))
  }

  /** `dump(indent)`: a negative indent gives the compact form. */
  function Text(j: Json, indent: int, show: Show): Bytes
  {
    if indent >= 0 then Dump(j, Style(true, indent), 0, show) else Dump(j, Style(false, 0), 0, show)
  }

  // ---------- the loops ----------

  /** `std::ostream& o` */
  class Stream {
    var data: Bytes

    constructor ()
      ensures data == []
    {
      data := [];
    }

    method Write(s: Bytes)
      modifies this
      ensures data == old(data) + s
    {
      data := data + s;
    }

    /** Writes what stands in front of something that is still to be written. */
    method WriteBefore(s: Bytes, ghost rest: Bytes)
      modifies this
      ensures data + rest == old(data) + (s + rest)
    {
      Assoc(data, s, rest);
      Write(s);
    }
  }

  method PrintString(o: Stream, s: Bytes)
    modifies o
    ensures o.data == old(o.data) + Quoted(s)
  {
    var escaped := EscapeString(s);
    o.WriteBefore([QUOTE], escaped + [QUOTE]);
    o.WriteBefore(escaped, [QUOTE]);
    o.Write([QUOTE]);
  }

  /** `dump` into a stream. */
  method Print(j: Json, o: Stream, style: Style, indent: nat, show: Show)
    modifies o
    ensures o.data == old(o.data) + Dump(j, style, indent, show)
    decreases j, 2
  {
    match j
    case Null => o.Write(NULL_WORD);
    case Bool(b) => o.Write(if b then TRUE_WORD else FALSE_WORD);
    case Int(i) => o.Write(IntegerText(i));
    case UInt(u) => o.Write(ToDecimal(u));
    case Float(d) => o.Write(FloatText(d, show));
    case Str(s) => PrintString(o, s);
    case Arr(es) =>
      if es == [] {
        o.Write([OPEN_ARRAY, CLOSE_ARRAY]);
        return;
      }
      PrintArray(es, o, style, indent, show);
    case Obj(ms) =>
      if ms == [] {
        o.Write([OPEN_OBJECT, CLOSE_OBJECT]);
        return;
      }
      PrintObject(ms, o, style, indent, show);
  }

  /** What is still to be written in front of element `i`. */
  function ElemsFrom(es: seq<Json>, i: nat, style: Style, inner: nat, show: Show): Bytes
    requires i <= |es| && es != []
    decreases es, 2
  {
    if i == 0 then DumpElems(es, style, inner, show)
    else if i == |es| then Closing(style, inner, CLOSE_ARRAY)
    else [COMMA] + (Break(style) + DumpElems(es[i..], style, inner, show))
  }

  lemma ElemsStep(es: seq<Json>, i: nat, style: Style, inner: nat, show: Show)
    requires i < |es|
    ensures DumpElems(es[i..], style, inner, show) ==
      Spaces(inner) + (Dump(es[i], style, inner, show) + ElemsFrom(es, i + 1, style, inner, show))
  {
    hide Dump, Closing, Spaces, Break;
    DropStep(es, i);
  }

  /** The separator in front of an element. */
  method Separate(o: Stream, style: Style, i: nat, ghost rest: Bytes)
    modifies o
    ensures o.data + rest == old(o.data) + if i == 0 then rest else [COMMA] + (Break(style) + rest)
  {
    if i != 0 {
      o.WriteBefore([COMMA], Break(style) + rest);
      o.WriteBefore(Break(style), rest);
    }
  }

  method PrintElem(es: seq<Json>, i: nat, o: Stream, style: Style, inner: nat, show: Show)
    requires i < |es|
    modifies o
    ensures o.data + ElemsFrom(es, i + 1, style, inner, show) == old(o.data) + ElemsFrom(es, i, style, inner, show)
    decreases es, 0
  {
    hide Dump, DumpElems, Closing, Spaces, Break;
    ghost var more, value := ElemsFrom(es, i + 1, style, inner, show), Dump(es[i], style, inner, show);
    ElemsStep(es, i, style, inner, show);
    assert i == 0 ==> es[i..] == es;
    Separate(o, style, i, DumpElems(es[i..], style, inner, show));
    o.WriteBefore(Spaces(inner), value + more);
    Assoc(o.data, value, more);
    Print(es[i], o, style, inner, show);
  }

  /** The line break, and the change of the indentation, behind an opening bracket or in front of a closing one. */
  method BreakLine(o: Stream, style: Style, ghost rest: Bytes)
    modifies o
    ensures o.data + rest == old(o.data) + (Break(style) + rest)
  {
    if style.pretty {
      o.WriteBefore([NEWLINE], rest);
    } else {
      LeftUnit(rest);
    }
  }

  method PrintClosing(o: Stream, style: Style, inner: nat, c: Byte)
    modifies o
    ensures o.data == old(o.data) + Closing(style, inner, c)
  {
    hide Spaces;
    BreakLine(o, style, Spaces(Shallower(style, inner)) + [c]);
    var newIndent := if style.pretty then (inner - style.step) % UINT32 else inner;
    o.WriteBefore(Spaces(newIndent), [c]);
    o.Write([c]);
  }

  method PrintArray(es: seq<Json>, o: Stream, style: Style, indent: nat, show: Show)
    requires es != []
    modifies o
    ensures o.data == old(o.data) + Dump(Arr(es), style, indent, show)
    decreases es, 1
  {
    hide DumpElems, Closing, Spaces, Break;
    var newIndent := if style.pretty then (indent + style.step) % UINT32 else indent;
    ghost var all := DumpElems(es, style, newIndent, show);
    o.WriteBefore([OPEN_ARRAY], Break(style) + all);
    BreakLine(o, style, all);
    for i := 0 to |es|
      invariant o.data + ElemsFrom(es, i, style, newIndent, show) == old(o.data) + ([OPEN_ARRAY] + (Break(style) + all))
    {
      PrintElem(es, i, o, style, newIndent, show);
    }
    PrintClosing(o, style, newIndent, CLOSE_ARRAY);
  }

  function MembersFrom(ms: seq<Member<Json>>, i: nat, style: Style, inner: nat, show: Show): Bytes
    requires i <= |ms| && ms != []
    decreases ms, 2
  {
    if i == 0 then DumpMembers(ms, style, inner, show)
    else if i == |ms| then Closing(style, inner, CLOSE_OBJECT)
    else [COMMA] + (Break(style) + DumpMembers(ms[i..], style, inner, show))
  }

  lemma MembersStep(ms: seq<Member<Json>>, i: nat, style: Style, inner: nat, show: Show)
    requires i < |ms|
    ensures DumpMembers(ms[i..], style, inner, show) ==
      Spaces(inner) +
      (Quoted(ms[i].key) +
       (AfterKey(style) + (Dump(ms[i].value, style, inner, show) + MembersFrom(ms, i + 1, style, inner, show))))
  {
    hide Dump, Closing, Spaces, Break, Quoted, AfterKey;
    DropStep(ms, i);
  }

  method PrintMember(ms: Members<Json>, i: nat, o: Stream, style: Style, inner: nat, show: Show)
    requires i < |ms|
    modifies o
    ensures o.data + MembersFrom(ms, i + 1, style, inner, show) == old(o.data) + MembersFrom(ms, i, style, inner, show)
    decreases ms, 0
  {
    hide Dump, DumpMembers, Closing, Spaces, Break, Quoted, AfterKey;
    var m := ms[i];
    ghost var more, value := MembersFrom(ms, i + 1, style, inner, show), Dump(m.value, style, inner, show);
    MembersStep(ms, i, style, inner, show);
    assert i == 0 ==> ms[i..] == ms;
    Separate(o, style, i, DumpMembers(ms[i..], style, inner, show));
    o.WriteBefore(Spaces(inner), Quoted(m.key) + (AfterKey(style) + (value + more)));
    Assoc(o.data, Quoted(m.key), AfterKey(style) + (value + more));
    PrintString(o, m.key);
    o.WriteBefore(AfterKey(style), value + more);
    Assoc(o.data, value, more);
    Print(m.value, o, style, inner, show);
  }

  method PrintObject(ms: Members<Json>, o: Stream, style: Style, indent: nat, show: Show)
    requires ms != []
    modifies o
    ensures o.data == old(o.data) + Dump(Obj(ms), style, indent, show)
    decreases ms, 1
  {
    hide DumpMembers, Closing, Spaces, Break;
    var newIndent := if style.pretty then (indent + style.step) % UINT32 else indent;
    ghost var all := DumpMembers(ms, style, newIndent, show);
    o.WriteBefore([OPEN_OBJECT], Break(style) + all);
    BreakLine(o, style, all);
    for i := 0 to |ms|
      invariant o.data + MembersFrom(ms, i, style, newIndent, show) ==
        old(o.data) + ([OPEN_OBJECT] + (Break(style) + all))
    {
      PrintMember(ms, i, o, style, newIndent, show);
    }
    PrintClosing(o, style, newIndent, CLOSE_OBJECT);
  }
}

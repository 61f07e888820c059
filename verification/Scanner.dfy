/**
 The scanner that re2c generated. Its states carry the numbers of the labels in the source: `l` stands for
 `basic_json_parser_l`.
 */
module Scanner {
  import opened ByteStrings
  import opened Wrappers
  import opened Decimals
  import opened Escaping

  datatype TokenType =
    | LiteralTrue
    | LiteralFalse
    | LiteralNull
    | ValueString
    | ValueNumber
    | BeginArray
    | BeginObject
    | EndArray
    | EndObject
    | NameSeparator
    | ValueSeparator
    | ParseError
    | EndOfInput

  /** A token and the part of the text it covers: `m_start` and `m_cursor` after `scan`. */
  datatype Token = Token(kind: TokenType, start: nat, end: nat)

  /** The character at a position; a zero byte stands behind the text, and nothing is ever read behind it. */
  function Peek(s: Bytes, i: nat): Byte
    requires i <= |s|
  {
    if i < |s| then s[i] else 0
  }

  /** The characters with bit 32 in `yybm`. */
  predicate IsBlank(c: Byte)
  {
    c == 9 || c == 10 || c == 13 || c == 32
  }

  /** The label for the first character of a token. */
  function Start(c: Byte): nat
  {
    if IsBlank(c) then 6
    else if c == 0 then 2
    else if c == QUOTE then 9
    else if c == 0x2c then 10
    else if c == MINUS then 12
    else if c == ZERO then 13
    else if IsDigit(c) then 15
    else if c == 0x3a then 17
    else if c == 0x5b then 19
    else if c == 0x5d then 21
    else if c == 0x66 then 23
    else if c == 0x6e then 24
    else if c == 0x74 then 25
    else if c == 0x7b then 26
    else if c == 0x7d then 28
    else 4
  }

  /** Label 31: the next character of a string. */
  function InString(c: Byte): nat
  {
    if c <= 0x1f then 32
    else if c == QUOTE then 33
    else if c == BACKSLASH then 35
    else if c <= 0x7f then 30
    else if c <= 0xc1 then 32
    else if c <= 0xdf then 36
    else if c == 0xe0 then 37
    else if c == 0xed then 39
    else if c <= 0xef then 38
    else if c == 0xf0 then 40
    else if c <= 0xf3 then 41
    else if c == 0xf4 then 42
    else 32
  }

  predicate IsExponent(c: Byte)
  {
    c == 0x45 || c == 0x65
  }

  /** Where label `l` goes when it sees `c`: on to another label, to a result (5 or 14), or back to the marker (32). */
  function Delta(l: nat, c: Byte): (r: nat)
    ensures c == 0 ==> r == 5 || r == 14 || r == 32
  {
    match l
    case 9 => if c <= 0x1f || 0x80 <= c <= 0xc1 || c > 0xf4 then 5 else InString(c)
    case 12 => if c == ZERO then 13 else if IsDigit(c) then 15 else 5
    case 13 => if c == 0x2e then 43 else if IsExponent(c) then 44 else 14
    case 15 => if IsDigit(c) then 15 else if c == 0x2e then 43 else if IsExponent(c) then 44 else 14
    case 23 => if c == 0x61 then 45 else 5
    case 24 => if c == 0x75 then 46 else 5
    case 25 => if c == 0x72 then 47 else 5
    case 30 => InString(c)
    case 35 => if ShortMeaning(c).Some? then 30 else if c == LETTER_U then 48 else 32
    case 36 => if 0x80 <= c <= 0xbf then 30 else 32
    case 37 => if 0xa0 <= c <= 0xbf then 36 else 32
    case 38 => if 0x80 <= c <= 0xbf then 36 else 32
    case 39 => if 0x80 <= c <= 0x9f then 36 else 32
    case 40 => if 0x90 <= c <= 0xbf then 38 else 32
    case 41 => if 0x80 <= c <= 0xbf then 38 else 32
    case 42 => if 0x80 <= c <= 0x8f then 38 else 32
    case 43 => if IsDigit(c) then 49 else 32
    case 44 => if c == PLUS || c == MINUS then 51 else if IsDigit(c) then 52 else 32
    case 45 => if c == 0x6c then 54 else 32
    case 46 => if c == 0x6c then 55 else 32
    case 47 => if c == 0x75 then 56 else 32
    case 48 => if IsHex(c) then 57 else 32
    case 49 => if IsDigit(c) then 49 else if IsExponent(c) then 44 else 14
    case 51 => if IsDigit(c) then 52 else 32
    case 52 => if IsDigit(c) then 52 else 14
    case 54 => if c == 0x73 then 58 else 32
    case 55 => if c == 0x6c then 59 else 32
    case 56 => if c == 0x65 then 61 else 32
    case 57 => if IsHex(c) then 63 else 32
    case 58 => if c == 0x65 then 64 else 32
    case 63 => if IsHex(c) then 66 else 32
    case 66 => if IsHex(c) then 30 else 32
    case _ => 32
  }

  /** The labels that accept the current character and end the token. */
  function Accepts(l: nat): Option<TokenType>
  {
    match l
    case 2 => Some(EndOfInput)
    case 4 => Some(ParseError)
    case 10 => Some(ValueSeparator)
    case 17 => Some(NameSeparator)
    case 19 => Some(BeginArray)
    case 21 => Some(EndArray)
    case 26 => Some(BeginObject)
    case 28 => Some(EndObject)
    case 33 => Some(ValueString)
    case 59 => Some(LiteralNull)
    case 61 => Some(LiteralTrue)
    case 64 => Some(LiteralFalse)
    case _ => None
  }

  /** The labels that set `m_marker`, with what `yyaccept` says to accept there. */
  function Marks(l: nat): Option<TokenType>
  {
    match l
    case 9 => Some(ParseError)
    case 23 => Some(ParseError)
    case 24 => Some(ParseError)
    case 25 => Some(ParseError)
    case 13 => Some(ValueNumber)
    case 15 => Some(ValueNumber)
    case 49 => Some(ValueNumber)
    case _ => None
  }

  /** A position to go back to and what is accepted there; None while `m_marker` is null. */
  datatype Marker = Marker(position: nat, kind: TokenType)

  function Mark(l: nat, next: nat, marker: Option<Marker>): Option<Marker>
  {
    if Marks(l).Some? then Some(Marker(next, Marks(l).value)) else marker
  }

  /** Label 12 is the only one that is reached before a marker is set and sets none; it never goes back. */
  predicate HasMarker(l: nat, marker: Option<Marker>)
  {
    Accepts(l).Some? || Marks(l).Some? || l == 12 || marker.Some?
  }

  /** Runs from label `l`, whose character is at `cursor`, to the end of the token. */
  function Run(s: Bytes, start: nat, l: nat, cursor: nat, marker: Option<Marker>): (t: Token)
    requires cursor < |s| || (cursor == |s| && Accepts(l).Some?)
    requires HasMarker(l, marker)
    requires marker.Some? ==> marker.value.position <= cursor + 1 && marker.value.position <= |s|
    ensures t.start == start
    ensures t.end <= |s| + 1
    ensures marker.Some? ==> marker.value.position <= t.end
    ensures marker.None? ==> cursor < t.end
    decreases |s| - cursor
  {
    if Accepts(l).Some? then Token(Accepts(l).value, start, cursor + 1) else
    var next, to := cursor + 1, Delta(l, Peek(s, cursor + 1));
    var marker' := Mark(l, next, marker);
    if to == 5 then Token(ParseError, start, next)
    else if to == 14 then Token(ValueNumber, start, next)
    else if to == 32 then Token(marker'.value.kind, start, marker'.value.position)
    else Run(s, start, to, next, marker')
  }

  /** One turn through a label that does not accept. */
  lemma Turn(s: Bytes, start: nat, l: nat, p: nat, m: Option<Marker>, to: nat)
    requires p < |s| && Accepts(l).None? && HasMarker(l, m)
    requires m.Some? ==> m.value.position <= p + 1 && m.value.position <= |s|
    requires to == Delta(l, Peek(s, p + 1))
    ensures to == 5 ==> Run(s, start, l, p, m) == Token(ParseError, start, p + 1)
    ensures to == 14 ==> Run(s, start, l, p, m) == Token(ValueNumber, start, p + 1)
    ensures to == 32 ==>
      var m' := Mark(l, p + 1, m);
      m'.Some? && Run(s, start, l, p, m) == Token(m'.value.kind, start, m'.value.position)
    ensures to != 5 && to != 14 && to != 32 ==>
      (p + 1 < |s| || Accepts(to).Some?) && HasMarker(to, Mark(l, p + 1, m)) && p + 1 <= |s| &&
      Run(s, start, l, p, m) == Run(s, start, to, p + 1, Mark(l, p + 1, m))
  {}

  /** `scan`: skips blanks, then runs through one token. */
  function Scan(s: Bytes, i: nat): (t: Token)
    requires i <= |s|
    ensures i <= t.start < t.end <= |s| + 1
    decreases |s| - i
  {
    var l := Start(Peek(s, i));
    if l == 6 then Scan(s, i + 1) else Run(s, i, l, i, None)
  }

  /** Only the end of the input is behind the text. */
  lemma {:induction false} RunStaysInside(s: Bytes, start: nat, l: nat, cursor: nat, marker: Option<Marker>)
    requires cursor < |s| || (cursor == |s| && Accepts(l).Some?)
    requires HasMarker(l, marker)
    requires marker.Some? ==> marker.value.position <= cursor + 1 && marker.value.position <= |s|
    requires marker.Some? ==> marker.value.kind != EndOfInput
    ensures var t := Run(s, start, l, cursor, marker);
      t.end <= |s| || (cursor == |s| && t == Token(Accepts(l).value, start, |s| + 1))
    decreases |s| - cursor
  {
    if Accepts(l).None? {
      var to := Delta(l, Peek(s, cursor + 1));
      if to != 5 && to != 14 && to != 32 {
        RunStaysInside(s, start, to, cursor + 1, Mark(l, cursor + 1, marker));
      }
    }
  }

  lemma {:induction false} ScanStaysInside(s: Bytes, i: nat)
    requires i <= |s|
    ensures var t := Scan(s, i); t.end <= |s| || (t.kind == EndOfInput && t.start == |s|)
    decreases |s| - i
  {
    var l := Start(Peek(s, i));
    if l == 6 {
      ScanStaysInside(s, i + 1);
    } else {
      RunStaysInside(s, i, l, i, None);
    }
  }
}

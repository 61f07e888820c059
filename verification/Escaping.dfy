/** `escape_string`, and `get_string` of the lexer, which undoes it. */
module Escaping {
  import opened ByteStrings
  import opened Wrappers
  import opened Sequences
  import opened Utf8

  const QUOTE: Byte := 0x22
  const BACKSLASH: Byte := 0x5c
  const LETTER_U: Byte := 0x75

  // ---------- escaping ----------

  /** The letter of a two-character escape for a byte, if it has one. */
  function ShortEscape(c: Byte): Option<Byte>
  {
    match c
    case 0x22 => Some(QUOTE)
    case 0x5c => Some(BACKSLASH)
    case 0x08 => Some(0x62)
    case 0x0c => Some(0x66)
    case 0x0a => Some(0x6e)
    case 0x0d => Some(0x72)
    case 0x09 => Some(0x74)
    case _ => None
  }

  function ExtraOf(c: Byte): nat
  {
    if ShortEscape(c).Some? then 1 else if c <= 0x1f then 5 else 0
  }

  /** `extra_space` */
  function ExtraSpace(s: Bytes): nat
  {
    if s == [] then 0 else ExtraOf(s[0]) + ExtraSpace(s[1..])
  }

  /** `hexify` */
  function HexDigit(n: nat): Byte
    requires n < 16
  {
    if n < 10 then 0x30 + n else 0x57 + n
  }

  function EscapeChar(c: Byte): (r: Bytes)
    ensures |r| == 1 + ExtraOf(c)
  {
    if ShortEscape(c).Some? then [BACKSLASH, ShortEscape(c).value]
    else if c <= 0x1f then [BACKSLASH, LETTER_U, 0x30, 0x30, HexDigit(c / 16), HexDigit(c % 16)]
    else [c]
  }

  function Escape(s: Bytes): (r: Bytes)
    ensures |r| == |s| + ExtraSpace(s)
  {
    if s == [] then [] else EscapeChar(s[0]) + Escape(s[1..])
  }

  lemma {:induction false} NothingToEscape(s: Bytes)
    requires ExtraSpace(s) == 0
    ensures Escape(s) == s
  {
    if s != [] {
      NothingToEscape(s[1..]);
      HeadTail(s);
    }
  }

  /** The characters behind the backslash of an escaped byte. */
  function AfterBackslash(c: Byte): (r: Bytes)
    requires ExtraOf(c) > 0
    ensures |r| == ExtraOf(c)
  {
    EscapeChar(c)[1..]
  }

  /** Writes one byte, escaped, into a buffer that is filled with backslashes from `pos` on. */
  method WriteEscaped(result: array<Byte>, pos: nat, c: Byte) returns (next: nat)
    requires pos + 1 + ExtraOf(c) <= result.Length
    requires forall k :: pos <= k < result.Length ==> result[k] == BACKSLASH
    modifies result
    ensures next == pos + 1 + ExtraOf(c)
    ensures result[..next] == old(result[..pos]) + EscapeChar(c)
    ensures forall k :: next <= k < result.Length ==> result[k] == BACKSLASH
  {
    if ShortEscape(c).Some? {
      if c != BACKSLASH {
        result[pos + 1] := ShortEscape(c).value;
      }
      next := pos + 2;
      assert result[..next] == old(result[..pos]) + [BACKSLASH, ShortEscape(c).value];
    } else if c <= 0x1f {
      next := pos;
      ghost var tail := AfterBackslash(c);
      ghost var start := old(result[..pos]) + [BACKSLASH];
      assert result[..pos + 1] == start;
      RightUnit(start);
      assert tail[..0] == [];
      for m := 0 to 5
        invariant next == pos + m
        invariant result[..next + 1] == start + tail[..m]
        invariant forall k :: next < k < result.Length ==> result[k] == BACKSLASH
      {
        ghost var before := result[..next + 1];
        TakeStep(tail, m);
        Assoc(start, tail[..m], [tail[m]]);
        next := next + 1;
        result[next] := match m
          case 0 => LETTER_U
          case 1 => 0x30
          case 2 => 0x30
          case 3 => HexDigit(c / 16)
          case _ => HexDigit(c % 16);
        assert result[..next + 1] == before + [tail[m]];
      }
      next := next + 1;
      assert tail[..5] == tail;
      Assoc(old(result[..pos]), [BACKSLASH], tail);
      HeadTail(EscapeChar(c));
    } else {
      result[pos] := c;
      next := pos + 1;
      assert result[..next] == old(result[..pos]) + [c];
    }
  }

  /** `escape_string`: a buffer of exactly the right size is filled in place. */
  method EscapeString(s: Bytes) returns (r: Bytes)
    ensures r == Escape(s)
  {
    var space := ExtraSpace(s);
    if space == 0 {
      NothingToEscape(s);
      return s;
    }
    var result := new Byte[|s| + space](_ => BACKSLASH);
    var pos: nat := 0;
    LeftUnit(Escape(s));
    assert s[0..] == s;
    for i := 0 to |s|
      invariant pos <= result.Length
      invariant result[..pos] + Escape(s[i..]) == Escape(s)
      invariant forall k :: pos <= k < result.Length ==> result[k] == BACKSLASH
    {
      DropStep(s, i);
      Assoc(result[..pos], EscapeChar(s[i]), Escape(s[i + 1..]));
      pos := WriteEscaped(result, pos, s[i]);
    }
    RightUnit(result[..pos]);
    assert s[|s|..] == [];
    assert pos == result.Length;
    r := result[..];
  }

  // ---------- reading escapes ----------

  predicate IsHex(c: Byte)
  {
    0x30 <= c <= 0x39 || 0x41 <= c <= 0x46 || 0x61 <= c <= 0x66
  }

  function HexValue(c: Byte): (n: nat)
    requires IsHex(c)
    ensures n < 16
  {
    if c <= 0x39 then c - 0x30 else if c <= 0x46 then c - 0x37 else c - 0x57
  }

  /** The byte that a two-character escape stands for. */
  function ShortMeaning(c: Byte): Option<Byte>
  {
    match c
    case 0x22 => Some(QUOTE)
    case 0x5c => Some(BACKSLASH)
    case 0x2f => Some(0x2f)
    case 0x62 => Some(0x08)
    case 0x66 => Some(0x0c)
    case 0x6e => Some(0x0a)
    case 0x72 => Some(0x0d)
    case 0x74 => Some(0x09)
    case _ => None
  }

  /** The length of the legal escape at the front of a text, or 0 (RFC 7159, section 7). */
  function EscapeLength(b: Bytes): (n: nat)
    ensures n <= |b|
    ensures n == 0 || (n == 2 && b[0] == BACKSLASH && ShortMeaning(b[1]).Some?)
      || (n == 6 && b[0] == BACKSLASH && b[1] == LETTER_U && IsHex(b[2]) && IsHex(b[3]) && IsHex(b[4]) && IsHex(b[5]))
  {
    if |b| < 2 || b[0] != BACKSLASH then 0
    else if ShortMeaning(b[1]).Some? then 2
    else if b[1] == LETTER_U && |b| >= 6 && IsHex(b[2]) && IsHex(b[3]) && IsHex(b[4]) && IsHex(b[5]) then 6
    else 0
  }

  /** Every backslash starts a legal escape. */
  predicate EscapesOk(b: Bytes)
  {
    if b == [] then true
    else if b[0] != BACKSLASH then EscapesOk(b[1..])
    else EscapeLength(b) > 0 && EscapesOk(b[EscapeLength(b)..])
  }

  /** The number in a unicode escape: `strtoul` of four hexadecimal digits. */
  function Hex4(b: Bytes): nat
    requires EscapeLength(b) == 6
  {
    ((HexValue(b[2]) * 16 + HexValue(b[3])) * 16 + HexValue(b[4])) * 16 + HexValue(b[5])
  }

  /** The number in the unicode escape that follows a unicode escape. */
  function NextHex4(b: Bytes): (r: Option<nat>)
    requires EscapeLength(b) == 6 && EscapesOk(b[6..])
    ensures r.Some? ==> |b| >= 12 && EscapesOk(b[12..])
  {
    if |b| < 8 || b[6] != BACKSLASH || b[7] != LETTER_U then None
    else
      assert EscapeLength(b[6..]) == 6 && b[6..][6..] == b[12..];
      Some(Hex4(b[6..]))
  }

  function Cons(u: Bytes, r: Result<Bytes>): Result<Bytes>
  {
    if r.Ok? then Ok(u + r.value) else r
  }

  /** `get_string`: the value of what stands between the quotes. */
  function GetString(b: Bytes): Result<Bytes>
    requires EscapesOk(b)
    decreases |b|
  {
    if b == [] then Ok([])
    else if b[0] != BACKSLASH then Cons([b[0]], GetString(b[1..]))
    else if EscapeLength(b) == 2 then Cons([ShortMeaning(b[1]).value], GetString(b[2..]))
    else
      var cp := Hex4(b);
      if IsHigh(cp) then
        if NextHex4(b).None? then Err(InvalidArgument)
        else
          var u :- ToUnicode(cp, NextHex4(b).value);
          Cons(u, GetString(b[12..]))
      else if IsLow(cp) then Err(InvalidArgument)
      else
        var u :- ToUnicode(cp, 0);
        Cons(u, GetString(b[6..]))
  }

  /** Bytes without a backslash are copied. */
  lemma {:induction false} RawChunk(u: Bytes, b: Bytes)
    requires BACKSLASH !in u && EscapesOk(b)
    ensures EscapesOk(u + b) && GetString(u + b) == Cons(u, GetString(b))
  {
    if u == [] {
      LeftUnit(b);
      if GetString(b).Ok? {
        LeftUnit(GetString(b).value);
      }
    } else {
      RawChunk(u[1..], b);
      ConcatHead(u, b);
      HeadTail(u);
      if GetString(b).Ok? {
        Assoc([u[0]], u[1..], GetString(b).value);
      }
    }
  }

  // ---------- escaping and reading back ----------

  lemma HexReadsBack(n: nat)
    requires n < 16
    ensures IsHex(HexDigit(n)) && HexValue(HexDigit(n)) == n
  {}

  /** One escaped byte in front of anything is read as that byte. */
  lemma EscapedCharReads(c: Byte, b: Bytes)
    requires EscapesOk(b)
    ensures EscapesOk(EscapeChar(c) + b) && GetString(EscapeChar(c) + b) == Cons([c], GetString(b))
  {
    var u := EscapeChar(c);
    PartsOfConcat(u, b);
    if c <= 0x1f && ShortEscape(c).None? {
      HexReadsBack(c / 16);
      HexReadsBack(c % 16);
      assert EscapeLength(u + b) == 6 && Hex4(u + b) == c;
    } else if ShortEscape(c).Some? {
      assert EscapeLength(u + b) == 2;
    }
  }

  /** `get_string` of the escaped string between quotes is the string, for every byte string. */
  lemma {:induction false} GetStringOfEscape(s: Bytes)
    ensures EscapesOk(Escape(s)) && GetString(Escape(s)) == Ok(s)
  {
    if s != [] {
      GetStringOfEscape(s[1..]);
      EscapedCharReads(s[0], Escape(s[1..]));
      HeadTail(s);
    }
  }

  // ---------- string tokens ----------

  /** The length of the next character of a string token as the scanner accepts it, or 0. */
  function UnitLength(b: Bytes): (n: nat)
    ensures n <= |b|
  {
    if b == [] || b[0] <= 0x1f || b[0] == QUOTE then 0
    else if b[0] == BACKSLASH then EscapeLength(b)
    else SequenceLength(b)
  }

  /** Unescaped characters that are well-formed UTF-8 and no control characters, and legal escapes. */
  predicate Body(b: Bytes)
    decreases |b|
  {
    b == [] || (UnitLength(b) > 0 && Body(b[UnitLength(b)..]))
  }

  /** The position of the closing quote behind such characters. */
  function BodyEnd(b: Bytes): (r: Option<nat>)
    ensures r.Some? ==> r.value < |b| && b[r.value] == QUOTE
    decreases |b|
  {
    if b == [] then None
    else if b[0] == QUOTE then Some(0)
    else if UnitLength(b) == 0 then None
    else
      var r := BodyEnd(b[UnitLength(b)..]);
      if r.Some? then Some(UnitLength(b) + r.value) else None
  }

  lemma UnitExtends(b: Bytes, c: Bytes)
    requires UnitLength(b) > 0
    ensures UnitLength(b + c) == UnitLength(b)
  {
    assert forall i :: 0 <= i < |b| ==> (b + c)[i] == b[i];
  }

  lemma UnitIsPrefix(b: Bytes, n: nat)
    requires 0 < UnitLength(b) <= n <= |b|
    ensures UnitLength(b[..n]) == UnitLength(b)
  {
    assert forall i :: 0 <= i < n ==> b[..n][i] == b[i];
  }

  /** The closing quote is the only one that has a body in front of it. */
  lemma {:induction false} BodyEndIsExact(b: Bytes, k: nat)
    ensures BodyEnd(b) == Some(k) <==> k < |b| && b[k] == QUOTE && Body(b[..k])
    decreases |b|
  {
    if b != [] && b[0] != QUOTE && k < |b| && b[k] == QUOTE {
      var n := UnitLength(b);
      if n > 0 {
        if k < n {
          QuoteIsNoUnitPart(b, k);
        } else {
          BodyEndIsExact(b[n..], k - n);
          UnitIsPrefix(b, k);
          assert b[n..][..k - n] == b[..k][n..];
        }
      } else if UnitLength(b[..k]) > 0 {
        UnitExtends(b[..k], b[k..]);
        Parts(b, k);
      }
    }
  }

  /** A quote inside the first unit is the second character of an escape. */
  lemma QuoteIsNoUnitPart(b: Bytes, k: nat)
    requires k < UnitLength(b) && b[k] == QUOTE
    ensures k == 1 && b[0] == BACKSLASH && UnitLength(b[..k]) == 0
  {}
}

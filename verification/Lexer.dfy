/** The lexer: `scan` as a loop over labels, and the values of its tokens. */
module Lexer {
  import opened ByteStrings
  import opened Wrappers
  import opened Sequences
  import opened Decimals
  import opened JsonValues
  import opened Scanner

  /** The text in front of the first zero byte, where C strings end. */
  function CString(s: Bytes): (r: Bytes)
    ensures r <= s && 0 !in r
    ensures |r| < |s| ==> s[|r|] == 0
  {
    if s == [] || s[0] == 0 then [] else [s[0]] + CString(s[1..])
  }

  /** `std::strtod` at the start of a token; None stands for a result that is not finite. */
  type Strtod = Bytes -> Option<Double>

  // ---------- numbers ----------

  /** The digits of an integer token, without its sign. */
  function Magnitude(t: Bytes): Bytes
  {
    if t != [] && t[0] == MINUS then t[1..] else t
  }

  /** The largest magnitude that the integer type can hold. */
  function MaxMagnitude(t: Bytes): nat
  {
    if t != [] && t[0] == MINUS then INT64_MAX + 1 else UINT64_MAX
  }

  predicate FitsInteger(t: Bytes)
  {
    AllDigits(Magnitude(t)) && DigitsValue(Magnitude(t)) <= MaxMagnitude(t)
  }

  /**
   `get_number`: the exact value of an integer that fits, unsigned without a sign and signed with one;
   everything else takes the floating-point path.
   */
  function GetNumber(s: Bytes, start: nat, cursor: nat, strtod: Strtod): Json
    requires start < cursor <= |s|
  {
    var t := s[start..cursor];
    if FitsInteger(t) then
      var n: int := DigitsValue(Magnitude(t));
      if t[0] == MINUS then Int(-n) else UInt(n)
    else
      var d := strtod(CString(s[start..]));
      if d.Some? then Float(d.value) else Null
  }

  lemma {:induction false} DigitsGrow(ds: Bytes, k: nat)
    requires k <= |ds| && AllDigits(ds)
    ensures DigitsValue(ds[..k]) <= DigitsValue(ds)
    decreases |ds|
  {
    if k == |ds| {
      assert ds[..k] == ds;
    } else {
      DigitsGrow(ds[..|ds| - 1], k);
      TakeTake(ds, |ds| - 1, k);
    }
  }

  lemma NextDigit(ds: Bytes, k: nat)
    requires k < |ds| && AllDigits(ds[..k]) && IsDigit(ds[k])
    ensures AllDigits(ds[..k + 1]) && DigitsValue(ds[..k + 1]) == DigitsValue(ds[..k]) * 10 + (ds[k] - ZERO)
  {
    TakeStep(ds, k);
    TakeTake(ds, k + 1, k);
  }

  /** The overflow test with its terms moved around is exact. */
  lemma OverflowTest(value: nat, digit: nat, max: nat)
    requires digit <= 9 <= max
    ensures value > (max - digit) / 10 <==> value * 10 + digit > max
  {}

  datatype NumberType = Unsigned | Integer | FloatingPoint

  /** The counting loop of `get_number`; no intermediate value exceeds the maximum. */
  method GetNumberLoop(s: Bytes, start: nat, cursor: nat, strtod: Strtod) returns (r: Json)
    requires start < cursor <= |s|
    ensures r == GetNumber(s, start, cursor, strtod)
  {
    hide DigitsValue;
    ghost var t := s[start..cursor];
    ghost var ds := Magnitude(t);
    var curptr, value, max, kind := start, 0, UINT64_MAX, Unsigned;
    if s[curptr] == MINUS {
      kind, max, curptr := Integer, INT64_MAX + 1, curptr + 1;
    }
    ghost var first := curptr;
    assert ds == s[first..cursor] && max == MaxMagnitude(t);
    assert ds[..0] == [];
    NoDigits();
    while curptr < cursor
      invariant first <= curptr <= cursor && 0 <= value <= max
      invariant kind == FloatingPoint ==> !FitsInteger(t)
      invariant kind != FloatingPoint ==> AllDigits(ds[..curptr - first]) && value == DigitsValue(ds[..curptr - first])
      invariant kind != FloatingPoint ==> kind == if t[0] == MINUS then Integer else Unsigned
    {
      assert s[curptr] == ds[curptr - first];
      if !IsDigit(s[curptr]) {
        if s[curptr] == 0x2e {
          kind, curptr := FloatingPoint, curptr + 1;
          continue;
        }
        kind := FloatingPoint;
        break;
      }
      if kind != FloatingPoint {
        var digit := s[curptr] - ZERO;
        OverflowTest(value, digit, max);
        NextDigit(ds, curptr - first);
        if value > (max - digit) / 10 {
          if AllDigits(ds) {
            DigitsGrow(ds, curptr - first + 1);
          }
          kind := FloatingPoint;
        } else {
          value := value * 10 + digit;
        }
      }
      curptr := curptr + 1;
    }
    if kind != FloatingPoint {
      assert ds[..curptr - first] == ds;
      if kind == Unsigned {
        r := UInt(value);
      } else if value == max {
        r := Int(INT64_MIN);
      } else {
        r := Int(-value);
      }
    } else {
      var d := strtod(CString(s[start..]));
      r := if d.Some? then Float(d.value) else Null;
    }
  }

  lemma NoDigits()
    ensures DigitsValue([]) == 0
  {}

  // ---------- the lexer ----------

  /** The first label of a token. */
  lemma StartRun(s: Bytes, i: nat)
    requires i <= |s| && !IsBlank(Peek(s, i))
    ensures var l := Start(Peek(s, i));
      (i < |s| || Accepts(l).Some?) && HasMarker(l, None) && Scanner.Scan(s, i) == Run(s, i, l, i, None)
  {
    hide Run;
  }

  lemma BlankStep(s: Bytes, i: nat)
    requires i <= |s| && IsBlank(Peek(s, i))
    ensures i < |s| && Scanner.Scan(s, i) == Scanner.Scan(s, i + 1)
  {
    hide Run;
  }

  lemma Accepted(s: Bytes, start: nat, l: nat, i: nat, m: Option<Marker>)
    requires Accepts(l).Some? && i <= |s|
    requires m.Some? ==> m.value.position <= i
    ensures HasMarker(l, m) && Run(s, start, l, i, m) == Token(Accepts(l).value, start, i + 1)
  {
    hide Delta;
  }

  class Lexer {
    const text: Bytes
    const strtod: Strtod
    var m_start: nat
    var m_marker: Option<Marker>
    var m_cursor: nat
    var lastTokenType: TokenType

    constructor (text: Bytes, strtod: Strtod)
      ensures this.text == text && this.strtod == strtod && m_cursor == 0 && Valid()
    {
      this.text := text;
      this.strtod := strtod;
      m_start, m_marker, m_cursor, lastTokenType := 0, None, 0, EndOfInput;
    }

    ghost predicate Valid()
      reads this
    {
      m_cursor <= |text| + 1
    }

    /** The blanks of label 6. */
    method SkipBlanks()
      requires m_cursor <= |text| && IsBlank(Peek(text, m_cursor))
      modifies this`m_cursor
      ensures old(m_cursor) < m_cursor <= |text|
      ensures Scanner.Scan(text, m_cursor) == Scanner.Scan(text, old(m_cursor))
    {
      hide Scanner.Scan;
      BlankStep(text, m_cursor);
      m_cursor := m_cursor + 1;
      while IsBlank(Peek(text, m_cursor))
        invariant old(m_cursor) < m_cursor <= |text|
        invariant Scanner.Scan(text, m_cursor) == Scanner.Scan(text, old(m_cursor))
        decreases |text| - m_cursor
      {
        BlankStep(text, m_cursor);
        m_cursor := m_cursor + 1;
      }
    }

    /** `scan` */
    method Scan() returns (kind: TokenType)
      requires m_cursor <= |text|
      modifies this
      ensures Valid() && kind == lastTokenType
      ensures Token(kind, m_start, m_cursor) == Scanner.Scan(text, old(m_cursor))
    {
      hide Delta, Start, Run, Scanner.Scan, HasMarker, Accepts, Marks;
      while IsBlank(Peek(text, m_cursor))
        invariant m_cursor <= |text|
        invariant Scanner.Scan(text, m_cursor) == Scanner.Scan(text, old(m_cursor))
        decreases |text| - m_cursor
      {
        m_start := m_cursor;
        SkipBlanks();
      }
      m_marker := None;
      m_start := m_cursor;
      var l := Start(Peek(text, m_cursor));
      StartRun(text, m_cursor);
      while Accepts(l).None?
        invariant m_start <= m_cursor
        invariant m_cursor < |text| || (m_cursor == |text| && Accepts(l).Some?)
        invariant HasMarker(l, m_marker) && (m_marker.Some? ==> m_marker.value.position <= m_cursor)
        invariant Run(text, m_start, l, m_cursor, m_marker) == Scanner.Scan(text, old(m_cursor))
        decreases |text| - m_cursor
      {
        m_cursor := m_cursor + 1;
        var to := Delta(l, Peek(text, m_cursor));
        Turn(text, m_start, l, m_cursor - 1, m_marker, to);
        m_marker := Mark(l, m_cursor, m_marker);
        if to == 5 || to == 14 {
          lastTokenType := if to == 5 then ParseError else ValueNumber;
          return lastTokenType;
        } else if to == 32 {
          m_cursor := m_marker.value.position;
          lastTokenType := m_marker.value.kind;
          return lastTokenType;
        }
        l := to;
      }
      Accepted(text, m_start, l, m_cursor, m_marker);
      m_cursor := m_cursor + 1;
      lastTokenType := Accepts(l).value;
      kind := lastTokenType;
    }
  }
}

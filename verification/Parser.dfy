/** The parser over the lexer: `parse` of a text. */
module Parser {
  import opened ByteStrings
  import opened Wrappers
  import opened Sequences
  import opened Decimals
  import opened JsonValues
  import opened Escaping
  import opened StringTokens
  import opened Scanner
  import opened StringScan
  import opened NumberScan
  import Grammar
  import L = Lexer

  // ---------- the tokens of a text ----------

  /** What `get_string` and `get_number` may rely on. */
  predicate Readable(s: Bytes, t: Token)
  {
    && (t.kind == ValueString ==>
      t.start + 2 <= t.end <= |s| && s[t.end - 1] == QUOTE && EscapesOk(s[t.start + 1..t.end - 1]))
    && (t.kind == ValueNumber ==> t.start < t.end <= |s|)
  }

  lemma StringIsReadable(s: Bytes, i: nat)
    requires i < |s| && s[i] == QUOTE
    ensures Readable(s, Scan(s, i))
  {
    hide Scan, Body, UnitLength, EscapesOk, BodyEnd;
    var t := Scan(s, i);
    StringTokenIsExact(s, i, t.end);
    if t.kind == ValueString {
      BodyEscapes(s[i + 1..t.end - 1]);
    }
  }

  lemma {:induction false} ScannedIsReadable(s: Bytes, i: nat)
    requires i <= |s|
    ensures Readable(s, Scan(s, i))
    decreases |s| - i
  {
    hide EscapesOk, Run, Delta;
    var c := Peek(s, i);
    if IsBlank(c) {
      ScannedIsReadable(s, i + 1);
    } else if c == QUOTE {
      StringIsReadable(s, i);
    } else if c == MINUS || IsDigit(c) {
      ScanNumber(s, i);
    } else if c == 0x74 {
      ScanTrue(s, i);
    } else if c == 0x66 {
      ScanFalse(s, i);
    } else if c == 0x6e {
      ScanNull(s, i);
    } else {
      ScanOther(s, i);
    }
  }

  /** The characters that are tokens by themselves, the end of the input, and errors. */
  lemma ScanOther(s: Bytes, i: nat)
    requires i <= |s| && Accepts(Start(Peek(s, i))).Some?
    ensures Scan(s, i) == Token(Accepts(Start(Peek(s, i))).value, i, i + 1)
  {}

  /** A token with its value. */
  function LexemeOf(s: Bytes, t: Token, strtod: L.Strtod): Grammar.Lexeme
    requires Readable(s, t)
  {
    match t.kind
    case LiteralTrue => Grammar.TrueWord
    case LiteralFalse => Grammar.FalseWord
    case LiteralNull => Grammar.NullWord
    case ValueString => Grammar.Text(GetString(s[t.start + 1..t.end - 1]))
    case ValueNumber => Grammar.Number(L.GetNumber(s, t.start, t.end, strtod))
    case BeginArray => Grammar.OpenArray
    case BeginObject => Grammar.OpenObject
    case EndArray => Grammar.CloseArray
    case EndObject => Grammar.CloseObject
    case NameSeparator => Grammar.Colon
    case ValueSeparator => Grammar.Comma
    case ParseError => Grammar.Wrong
    case EndOfInput => Grammar.End
  }

  /** The kind of a token tells the lexeme. */
  predicate Shows(kind: TokenType, x: Grammar.Lexeme)
  {
    match kind
    case LiteralTrue => x == Grammar.TrueWord
    case LiteralFalse => x == Grammar.FalseWord
    case LiteralNull => x == Grammar.NullWord
    case ValueString => x.Text?
    case ValueNumber => x.Number?
    case BeginArray => x == Grammar.OpenArray
    case BeginObject => x == Grammar.OpenObject
    case EndArray => x == Grammar.CloseArray
    case EndObject => x == Grammar.CloseObject
    case NameSeparator => x == Grammar.Colon
    case ValueSeparator => x == Grammar.Comma
    case ParseError => x == Grammar.Wrong
    case EndOfInput => x == Grammar.End
  }

  /** The tokens behind which the parser never asks for another one. */
  predicate Stops(kind: TokenType)
  {
    kind == EndOfInput || kind == ParseError
  }

  /** The tokens of a text from a position on, up to the end of the input or the first error. */
  function Lex(s: Bytes, i: nat, strtod: L.Strtod): (ts: seq<Grammar.Lexeme>)
    requires i <= |s|
    ensures ts != []
    decreases |s| - i
  {
    var t := Scan(s, i);
    ScannedIsReadable(s, i);
    ScanStaysInside(s, i);
    [LexemeOf(s, t, strtod)] + if Stops(t.kind) then [] else Lex(s, t.end, strtod)
  }

  /** `parse` of a text. */
  function ParseText(s: Bytes, strtod: L.Strtod): Result<Json>
  {
    Grammar.Parse(Lex(s, 0, strtod))
  }

  // ---------- the parser ----------

  class Parser {
    const lexer: L.Lexer
    var lastToken: TokenType

    constructor (text: Bytes, strtod: L.Strtod)
      ensures fresh(lexer) && lexer.text == text && lexer.strtod == strtod && lexer.m_cursor == 0
    {
      lexer := new L.Lexer(text, strtod);
      lastToken := EndOfInput;
    }

    /** The last token has been scanned and can be read. */
    ghost predicate Valid()
      reads this, lexer
    {
      && Readable(lexer.text, Current())
      && (!Stops(lastToken) ==> lexer.m_cursor <= |lexer.text|)
    }

    ghost function Current(): Token
      reads this, lexer
    {
      Token(lastToken, lexer.m_start, lexer.m_cursor)
    }

    /** The last token and all that are still to come. */
    ghost function Pending(): (ts: seq<Grammar.Lexeme>)
      requires Valid()
      reads this, lexer
      ensures ts != [] && ts[0] == LexemeOf(lexer.text, Current(), lexer.strtod) && Shows(lastToken, ts[0])
    {
      [LexemeOf(lexer.text, Current(), lexer.strtod)] +
      if Stops(lastToken) then [] else Lex(lexer.text, lexer.m_cursor, lexer.strtod)
    }

    method GetToken()
      requires lexer.m_cursor <= |lexer.text|
      modifies this, lexer
      ensures Valid() && Pending() == Lex(lexer.text, old(lexer.m_cursor), lexer.strtod)
    {
      ScannedIsReadable(lexer.text, lexer.m_cursor);
      ScanStaysInside(lexer.text, lexer.m_cursor);
      lastToken := lexer.Scan();
    }

    /** Moves on from a token that is not the last one. */
    method Next()
      requires Valid() && !Stops(lastToken)
      modifies this, lexer
      ensures Valid() && Pending() == old(Pending())[1..]
    {
      GetToken();
    }

    /** `m_lexer.get_string()` */
    method StringValue() returns (r: Result<Bytes>)
      requires Valid() && lastToken == ValueString
      ensures Pending()[0] == Grammar.Text(r)
    {
      r := GetStringLoop(lexer.text, lexer.m_start, lexer.m_cursor);
    }

    /** `m_lexer.get_number(result)` */
    method NumberValue() returns (r: Json)
      requires Valid() && lastToken == ValueNumber
      ensures Pending()[0] == Grammar.Number(r)
    {
      r := L.GetNumberLoop(lexer.text, lexer.m_start, lexer.m_cursor, lexer.strtod);
    }

    /** A part of the parser did what its function says; after an exception nothing is promised. */
    ghost predicate Did<T>(spec: Result<Grammar.Parsed<T>>, r: Result<T>)
      requires Valid()
      reads this, lexer
    {
      if spec.Ok? then r == Ok(spec.value.value) && Pending() == spec.value.rest else r.Err?
    }

    /** `parse_internal` */
    method ParseInternal() returns (r: Result<Json>)
      requires Valid()
      modifies this, lexer
      ensures Valid() && Did(Grammar.ParseValue(old(Pending())), r)
      decreases |Pending()|, 1
    {
      hide Lex, Scan, Pending, Readable, LexemeOf, GetString, L.GetNumber, Grammar.ParseMembers, Grammar.ParseElems;
      match lastToken
      case BeginObject => r := ParseObject();
      case BeginArray => r := ParseArray();
      case LiteralNull =>
        Next();
        r := Ok(Null);
      case ValueString =>
        var s :- StringValue();
        Next();
        r := Ok(Str(s));
      case LiteralTrue =>
        Next();
        r := Ok(Bool(true));
      case LiteralFalse =>
        Next();
        r := Ok(Bool(false));
      case ValueNumber =>
        var j := NumberValue();
        Next();
        r := Ok(j);
      case _ =>
        r := Err(InvalidArgument);
    }

    /** `case begin_object` */
    method ParseObject() returns (r: Result<Json>)
      requires Valid() && lastToken == BeginObject
      modifies this, lexer
      ensures Valid() && Did(Grammar.ParseValue(old(Pending())), r)
      decreases |Pending()|, 0
    {
      hide Lex, Scan, Pending, Readable, LexemeOf, GetString, L.GetNumber, Grammar.ParseMembers, Grammar.ParseElems;
      ghost var ts := Pending();
      Next();
      if lastToken == EndObject {
        assert ts[1..][1..] == ts[2..];
        Next();
        return Ok(Obj([]));
      }
      if lastToken == ValueSeparator {
        return Err(InvalidArgument);
      }
      var ms :- Pairs();
      r := Ok(Obj(ms));
    }

    /** `case begin_array` */
    method ParseArray() returns (r: Result<Json>)
      requires Valid() && lastToken == BeginArray
      modifies this, lexer
      ensures Valid() && Did(Grammar.ParseValue(old(Pending())), r)
      decreases |Pending()|, 0
    {
      hide Lex, Scan, Pending, Readable, LexemeOf, GetString, L.GetNumber, Grammar.ParseMembers, Grammar.ParseElems;
      ghost var ts := Pending();
      Next();
      if lastToken == EndArray {
        assert ts[1..][1..] == ts[2..];
        Next();
        return Ok(Arr([]));
      }
      if lastToken == ValueSeparator {
        return Err(InvalidArgument);
      }
      var es :- Items();
      r := Ok(Arr(es));
    }

    /** One key, its colon and its value. */
    method OnePair(done: Members<Json>) returns (r: Result<Members<Json>>)
      requires Valid()
      modifies this, lexer
      ensures Valid() && Did(Grammar.ParsePair(old(Pending()), done), r)
      decreases |Pending()|, 2
    {
      hide Lex, Scan, Pending, Readable, LexemeOf, GetString, L.GetNumber, Grammar.ParseValue, Insert;
      ghost var ts := Pending();
      if |ts| > 1 {
        assert ts[1..][1..] == ts[2..];
      }
      if lastToken != ValueString {
        return Err(InvalidArgument);
      }
      var key :- StringValue();
      Next();
      if lastToken != NameSeparator {
        return Err(InvalidArgument);
      }
      Next();
      var value :- ParseInternal();
      r := Ok(Insert(done, key, value));
    }

    /** The pairs of an object: `do ... while (last_token == value_separator)`, and the closing brace. */
    method Pairs() returns (r: Result<Members<Json>>)
      requires Valid()
      modifies this, lexer
      ensures Valid() && Did(Grammar.ParseMembers(old(Pending()), []), r)
      decreases |Pending()|, 3
    {
      hide Lex, Scan, Pending, Readable, LexemeOf, GetString, L.GetNumber, Grammar.ParsePair, Grammar.ParseValue,
        Insert;
      var result: Members<Json> := [];
      result :- OnePair(result);
      while lastToken == ValueSeparator
        invariant Valid() && |Pending()| <= |old(Pending())|
        invariant Grammar.ParseMembers(old(Pending()), []) ==
          if lastToken == ValueSeparator then Grammar.ParseMembers(Pending()[1..], result)
          else if lastToken == EndObject then Ok(Grammar.Parsed(result, Pending()[1..]))
          else Err(InvalidArgument)
        decreases |Pending()|
      {
        Next();
        result :- OnePair(result);
      }
      if lastToken != EndObject {
        return Err(InvalidArgument);
      }
      Next();
      r := Ok(result);
    }

    /** The elements of an array, and the closing bracket. */
    method Items() returns (r: Result<seq<Json>>)
      requires Valid()
      modifies this, lexer
      ensures Valid() && Did(Grammar.ParseElems(old(Pending()), []), r)
      decreases |Pending()|, 3
    {
      hide Lex, Scan, Pending, Readable, LexemeOf, GetString, L.GetNumber, Grammar.ParseValue;
      var result: seq<Json> := [];
      var first :- ParseInternal();
      result := [first];
      LeftUnit(result);
      while lastToken == ValueSeparator
        invariant Valid() && |Pending()| <= |old(Pending())|
        invariant Grammar.ParseElems(old(Pending()), []) ==
          if lastToken == ValueSeparator then Grammar.ParseElems(Pending()[1..], result)
          else if lastToken == EndArray then Ok(Grammar.Parsed(result, Pending()[1..]))
          else Err(InvalidArgument)
        decreases |Pending()|
      {
        Next();
        var value :- ParseInternal();
        result := result + [value];
      }
      if lastToken != EndArray {
        return Err(InvalidArgument);
      }
      Next();
      r := Ok(result);
    }

    /** `parse` */
    method Parse() returns (r: Result<Json>)
      requires lexer.m_cursor == 0
      modifies this, lexer
      ensures ParseText(lexer.text, lexer.strtod).Ok? ==> r == ParseText(lexer.text, lexer.strtod)
      ensures ParseText(lexer.text, lexer.strtod).Err? ==> r.Err?
    {
      hide Lex, Scan, Pending, Readable, LexemeOf, GetString, Grammar.ParseValue;
      GetToken();
      var result :- ParseInternal();
      if lastToken != EndOfInput {
        return Err(InvalidArgument);
      }
      r := Ok(result);
    }
  }
}

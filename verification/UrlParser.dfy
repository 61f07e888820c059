/** Query strings: `UrlParser`. */
module UrlParser {
  import opened ByteStrings
  import opened Wrappers
  import opened Sequences
  import opened Escaping
  import opened Binary

  const PERCENT: Byte := 0x25
  const AMPERSAND: Byte := 0x26
  const EQUALS: Byte := 0x3d
  const QUESTION: Byte := 0x3f

  // ---------- percent decoding ----------

  /** The byte of two hexadecimal digits: `char((high << 4) | low)`. */
  function HexByte(high: Byte, low: Byte): Byte
    requires IsHex(high) && IsHex(low)
  {
    HexValue(high) * 16 + HexValue(low)
  }

  /** `percent_decode`: what does not continue as an escape is copied, what ends inside one is dropped. */
  function PercentDecode(s: Bytes): Bytes
    decreases |s|
  {
    if s == [] then []
    else if s[0] != PERCENT then [s[0]] + PercentDecode(s[1..])
    else if |s| == 1 then []
    else if !IsHex(s[1]) then [PERCENT, s[1]] + PercentDecode(s[2..])
    else if |s| == 2 then []
    else if !IsHex(s[2]) then [PERCENT, s[1], s[2]] + PercentDecode(s[3..])
    else [HexByte(s[1], s[2])] + PercentDecode(s[3..])
  }

  datatype State = General | FirstPercentEncodedDigit | SecondPercentEncodedDigit

  /** What has been read of an escape. */
  function Begun(state: State, first: Byte): Bytes
  {
    match state
    case General => []
    case FirstPercentEncodedDigit => [PERCENT]
    case SecondPercentEncodedDigit => [PERCENT, first]
  }

  lemma Generally(c: Byte, rest: Bytes)
    ensures c != PERCENT ==> PercentDecode([c] + rest) == [c] + PercentDecode(rest)
  {}

  lemma AfterPercent(c: Byte, rest: Bytes)
    requires !IsHex(c)
    ensures PercentDecode([PERCENT] + ([c] + rest)) == [PERCENT, c] + PercentDecode(rest)
  {
    assert ([PERCENT] + ([c] + rest))[2..] == rest;
  }

  lemma AfterDigit(first: Byte, c: Byte, rest: Bytes)
    requires IsHex(first)
    ensures PercentDecode([PERCENT, first] + ([c] + rest)) ==
      (if IsHex(c) then [HexByte(first, c)] else [PERCENT, first, c]) + PercentDecode(rest)
  {
    assert ([PERCENT, first] + ([c] + rest))[3..] == rest;
  }

  /** The loop of `percent_decode` with its three states. */
  method PercentDecodeLoop(s: Bytes) returns (result: Bytes)
    ensures result == PercentDecode(s)
  {
    hide PercentDecode, HexByte;
    var state := General;
    var firstChar: Byte, secondChar: Byte := 0, 0;
    result := [];
    LeftUnit(PercentDecode(s));
    LeftUnit(s);
    assert s[0..] == s;
    for i := 0 to |s|
      invariant state == SecondPercentEncodedDigit ==> IsHex(firstChar)
      invariant result + PercentDecode(Begun(state, firstChar) + s[i..]) == PercentDecode(s)
    {
      ghost var rest := s[i + 1..];
      DropStep(s, i);
      LeftUnit(rest);
      LeftUnit(s[i..]);
      match state
      case General =>
        if s[i] != PERCENT {
          Generally(s[i], rest);
          Assoc(result, [s[i]], PercentDecode(rest));
          result := result + [s[i]];
        } else {
          state, firstChar, secondChar := FirstPercentEncodedDigit, 0, 0;
        }
      case FirstPercentEncodedDigit =>
        firstChar := s[i];
        if IsHex(firstChar) {
          Assoc([PERCENT], [firstChar], rest);
          assert [PERCENT] + [firstChar] == [PERCENT, firstChar];
          state := SecondPercentEncodedDigit;
        } else {
          AfterPercent(firstChar, rest);
          Assoc(result, [PERCENT, firstChar], PercentDecode(rest));
          result := result + [PERCENT, firstChar];
          state := General;
        }
      case SecondPercentEncodedDigit =>
        secondChar := s[i];
        AfterDigit(firstChar, secondChar, rest);
        if IsHex(secondChar) {
          Assoc(result, [HexByte(firstChar, secondChar)], PercentDecode(rest));
          result := result + [HexByte(firstChar, secondChar)];
        } else {
          Assoc(result, [PERCENT, firstChar, secondChar], PercentDecode(rest));
          result := result + [PERCENT, firstChar, secondChar];
        }
        state := General;
    }
    RightUnit(Begun(state, firstChar));
    DroppedAtEnd(state, firstChar);
    RightUnit(result);
  }

  lemma DroppedAtEnd(state: State, first: Byte)
    requires state == SecondPercentEncodedDigit ==> IsHex(first)
    ensures PercentDecode(Begun(state, first)) == []
  {}

  /** A percent encoding of a text (RFC 3986, section 2.1): bytes as they are, other than '%' and '&', or escaped. */
  predicate Encodes(e: Bytes, v: Bytes)
    decreases |e|
  {
    if v == [] then e == []
    else if e == [] then false
    else if e[0] == PERCENT then
      && |e| >= 3
      && IsHex(e[1]) && IsHex(e[2])
      && HexByte(e[1], e[2]) == v[0]
      && Encodes(e[3..], v[1..])
    else
      && e[0] != AMPERSAND
      && e[0] == v[0]
      && Encodes(e[1..], v[1..])
  }

  /** Decoding undoes every encoding, and no encoding holds a raw ampersand. */
  lemma {:induction false} DecodeOfEncoding(e: Bytes, v: Bytes)
    requires Encodes(e, v)
    ensures PercentDecode(e) == v && AMPERSAND !in e
    decreases |e|
  {
    if v != [] {
      HeadTail(v);
      if e[0] == PERCENT {
        DecodeOfEncoding(e[3..], v[1..]);
        assert e == [e[0], e[1], e[2]] + e[3..];
      } else {
        DecodeOfEncoding(e[1..], v[1..]);
        HeadTail(e);
      }
    }
  }

  /** Every byte escaped. */
  function EscapeAll(v: Bytes): Bytes
  {
    if v == [] then [] else [PERCENT, HexDigit(v[0] / 16), HexDigit(v[0] % 16)] + EscapeAll(v[1..])
  }

  /** Every byte string has an encoding. */
  lemma {:induction false} EscapeAllEncodes(v: Bytes)
    ensures Encodes(EscapeAll(v), v)
  {
    if v != [] {
      EscapeAllEncodes(v[1..]);
      HexReadsBack(v[0] / 16);
      HexReadsBack(v[0] % 16);
      var e := EscapeAll(v);
      assert e[3..] == EscapeAll(v[1..]);
    }
  }

  // ---------- queries ----------

  /** The position of a byte, or the length of the text. */
  function Until(s: Bytes, c: Byte): (n: nat)
    ensures n <= |s| && c !in s[..n]
    ensures n < |s| ==> s[n] == c
  {
    if s == [] || s[0] == c then 0 else 1 + Until(s[1..], c)
  }

  type Params = map<Bytes, Bytes>

  /** The pairs of a query: a name up to '=', a value up to '&'; a rest without '=' is ignored. */
  function ParseQuery(q: Bytes, done: Params): Params
    decreases |q|
  {
    var n := Until(q, EQUALS);
    if n == |q| then done
    else
      var rest := q[n + 1..];
      var m := Until(rest, AMPERSAND);
      var done' := done[q[..n] := PercentDecode(rest[..m])];
      if m == |rest| then done' else ParseQuery(rest[m + 1..], done')
  }

  /** What follows the first question mark, or everything when there is none. */
  function QueryOf(url: Bytes): Bytes
  {
    var n := Until(url, QUESTION);
    if n == |url| then url else url[n + 1..]
  }

  /** `parse` */
  function ParseUrl(url: Bytes): Params
  {
    ParseQuery(QueryOf(url), map[])
  }

  /** A name and an encoded value. */
  datatype Field = Field(name: Bytes, encoded: Bytes, value: Bytes)

  /** name=value pairs joined by '&'. */
  function Render(fields: seq<Field>): Bytes
  {
    if fields == [] then []
    else if |fields| == 1 then RenderOne(fields[0])
    else RenderOne(fields[0]) + ([AMPERSAND] + Render(fields[1..]))
  }

  function RenderOne(f: Field): Bytes
  {
    f.name + ([EQUALS] + f.encoded)
  }

  /** A field that a query can hold; its value is decoded, whether it was a proper encoding or not. */
  predicate FieldOk(f: Field)
  {
    EQUALS !in f.name && AMPERSAND !in f.encoded && f.value == PercentDecode(f.encoded)
  }

  predicate FieldsOk(fields: seq<Field>)
  {
    forall i | 0 <= i < |fields| :: FieldOk(fields[i])
  }

  /** What is ignored behind the last pair: a text without '=', behind '&' when a pair stands before it. */
  predicate IsTail(fields: seq<Field>, tail: Bytes)
  {
    tail != [] ==> EQUALS !in tail && (fields != [] ==> tail[0] == AMPERSAND)
  }

  /** The query consists of these fields and an ignored rest. */
  ghost predicate Consists(q: Bytes, fields: seq<Field>, tail: Bytes)
  {
    FieldsOk(fields) && IsTail(fields, tail) && q == Render(fields) + tail
  }

  /** Every text is a field's value in each of its encodings. */
  lemma EncodedField(f: Field)
    requires EQUALS !in f.name && Encodes(f.encoded, f.value)
    ensures FieldOk(f)
  {
    DecodeOfEncoding(f.encoded, f.value);
  }

  /** The values by name; a later one replaces an earlier one. */
  function Collect(fields: seq<Field>, done: Params): Params
  {
    if fields == [] then done else Collect(fields[1..], done[fields[0].name := fields[0].value])
  }

  function LastValue(fields: seq<Field>, name: Bytes): Option<Bytes>
  {
    if fields == [] then None
    else
      var later := LastValue(fields[1..], name);
      if later.Some? then later else if fields[0].name == name then Some(fields[0].value) else None
  }

  predicate NameIsNotIn(fields: seq<Field>, name: Bytes)
  {
    forall i | 0 <= i < |fields| :: fields[i].name != name
  }

  /** The last field of a name. */
  predicate IsLast(fields: seq<Field>, k: nat, name: Bytes)
  {
    k < |fields| && fields[k].name == name && NameIsNotIn(fields[k + 1..], name)
  }

  lemma {:induction false} LastValueIsLast(fields: seq<Field>, name: Bytes)
    ensures NameIsNotIn(fields, name) ==> LastValue(fields, name) == None
    ensures forall k: nat :: IsLast(fields, k, name) ==> LastValue(fields, name) == Some(fields[k].value)
    decreases |fields|
  {
    hide NameIsNotIn;
    if fields != [] {
      LastValueIsLast(fields[1..], name);
      if NameIsNotIn(fields, name) {
        NotInRest(fields, name);
      }
      forall k: nat | IsLast(fields, k, name)
        ensures LastValue(fields, name) == Some(fields[k].value)
      {
        if k > 0 {
          DropDrop(fields, 1, k);
          assert IsLast(fields[1..], k - 1, name);
        }
      }
    }
  }

  lemma NotInRest(fields: seq<Field>, name: Bytes)
    requires fields != [] && NameIsNotIn(fields, name)
    ensures fields[0].name != name && NameIsNotIn(fields[1..], name)
  {}

  function Lookup(params: Params, name: Bytes): Option<Bytes>
  {
    if name in params then Some(params[name]) else None
  }

  lemma {:induction false} LastFieldWins(fields: seq<Field>, done: Params, name: Bytes)
    ensures Lookup(Collect(fields, done), name) ==
      if LastValue(fields, name).Some? then LastValue(fields, name) else Lookup(done, name)
    decreases |fields|
  {
    if fields != [] {
      LastFieldWins(fields[1..], done[fields[0].name := fields[0].value], name);
    }
  }

  lemma {:induction false} UntilStops(a: Bytes, c: Byte, b: Bytes)
    requires c !in a && (b == [] || b[0] == c)
    ensures Until(a + b, c) == |a|
  {
    if a == [] {
      LeftUnit(b);
    } else {
      UntilStops(a[1..], c, b);
      ConcatHead(a, b);
    }
  }

  lemma FirstPair(q: Bytes, n: nat, rest: Bytes, m: nat, done: Params)
    requires n == Until(q, EQUALS) < |q| && rest == q[n + 1..] && m == Until(rest, AMPERSAND)
    ensures var done' := done[q[..n] := PercentDecode(rest[..m])];
      ParseQuery(q, done) == if m == |rest| then done' else ParseQuery(rest[m + 1..], done')
  {
    hide PercentDecode, Until;
  }

  /** One field and what follows it. */
  lemma ParseField(f: Field, rest: Bytes, done: Params)
    requires FieldOk(f) && (rest == [] || rest[0] == AMPERSAND)
    ensures ParseQuery(RenderOne(f) + rest, done) ==
      if rest == [] then done[f.name := f.value] else ParseQuery(rest[1..], done[f.name := f.value])
  {
    hide PercentDecode, Until, ParseQuery;
    var tail := f.encoded + rest;
    Assoc(f.name, [EQUALS] + f.encoded, rest);
    Assoc([EQUALS], f.encoded, rest);
    Assoc(f.name, [EQUALS], tail);
    var q := f.name + ([EQUALS] + tail);
    UntilStops(f.name, EQUALS, [EQUALS] + tail);
    PartsOfConcat(f.name, [EQUALS] + tail);
    PartsOfConcat(f.name + [EQUALS], tail);
    UntilStops(f.encoded, AMPERSAND, rest);
    PartsOfConcat(f.encoded, rest);
    FirstPair(q, |f.name|, tail, |f.encoded|, done);
    if rest != [] {
      DropDrop(tail, |f.encoded|, 1);
    }
  }

  /** Parsing a query gives exactly the last value of each name in it. */
  lemma {:induction false} ParseOfRender(q: Bytes, fields: seq<Field>, tail: Bytes, done: Params)
    requires Consists(q, fields, tail)
    ensures ParseQuery(q, done) == Collect(fields, done)
    decreases |fields|
  {
    hide ParseQuery, RenderOne, FieldOk;
    if fields == [] {
      LeftUnit(tail);
      NoPairs(tail, done);
    } else {
      var f := fields[0];
      if |fields| == 1 {
        ParseField(f, tail, done);
        if tail != [] {
          NoPairs(tail[1..], done[f.name := f.value]);
        }
      } else {
        var rest := Render(fields[1..]) + tail;
        Assoc(RenderOne(f), [AMPERSAND] + Render(fields[1..]), tail);
        Assoc([AMPERSAND], Render(fields[1..]), tail);
        ParseField(f, [AMPERSAND] + rest, done);
        ConsTail(AMPERSAND, rest);
        ParseOfRender(rest, fields[1..], tail, done[f.name := f.value]);
      }
    }
  }

  lemma NoPairs(q: Bytes, done: Params)
    requires EQUALS !in q
    ensures ParseQuery(q, done) == done
  {}

  /** Every query consists of fields and an ignored rest. */
  lemma {:induction false} FieldsOf(q: Bytes) returns (fields: seq<Field>, tail: Bytes)
    ensures Consists(q, fields, tail)
    decreases |q|
  {
    hide PercentDecode, Render, Until, FieldOk;
    var n := Until(q, EQUALS);
    if n == |q| {
      assert q[..n] == q;
      fields, tail := [], q;
      LeftUnit(q);
      NoFields();
    } else {
      var rest := q[n + 1..];
      var m := Until(rest, AMPERSAND);
      var f := Field(q[..n], rest[..m], PercentDecode(rest[..m]));
      NewField(f);
      FieldThenRest(q, n, m, f);
      if m == |rest| || EQUALS !in rest[m + 1..] {
        fields, tail := [f], rest[m..];
        OneField(f, tail);
      } else {
        var later: seq<Field>;
        later, tail := FieldsOf(rest[m + 1..]);
        LaterFields(later, tail);
        fields := [f] + later;
        ConsTail(f, later);
        MoreFields(f, later, rest[m + 1..], tail, rest[m..]);
      }
    }
  }

  lemma NewField(f: Field)
    requires EQUALS !in f.name && AMPERSAND !in f.encoded && f.value == PercentDecode(f.encoded)
    ensures FieldOk(f)
  {}

  lemma NoFields()
    ensures Render([]) == []
  {}

  /** A query up to its first field, and the rest. */
  lemma FieldThenRest(q: Bytes, n: nat, m: nat, f: Field)
    requires n == Until(q, EQUALS) < |q| && m == Until(q[n + 1..], AMPERSAND)
    requires f.name == q[..n] && f.encoded == q[n + 1..][..m]
    ensures q == RenderOne(f) + q[n + 1..][m..]
    ensures m < |q[n + 1..]| ==> q[n + 1..][m..] == [AMPERSAND] + q[n + 1..][m + 1..]
  {
    hide Until, PercentDecode;
    var rest := q[n + 1..];
    Parts(q, n);
    DropStep(q, n);
    Parts(rest, m);
    Assoc([EQUALS], f.encoded, rest[m..]);
    Assoc(f.name, [EQUALS] + f.encoded, rest[m..]);
    if m < |rest| {
      DropStep(rest, m);
    }
  }

  lemma OneField(f: Field, tail: Bytes)
    requires FieldOk(f) && (tail == [] || (tail[0] == AMPERSAND && EQUALS !in tail[1..]))
    ensures Consists(RenderOne(f) + tail, [f], tail)
  {
    hide FieldOk, RenderOne;
    if tail != [] {
      HeadTail(tail);
    }
  }

  /** A query with '=' in it has a field. */
  lemma LaterFields(fields: seq<Field>, tail: Bytes)
    requires IsTail(fields, tail) && EQUALS in Render(fields) + tail
    ensures fields != []
  {}

  lemma MoreFields(f: Field, later: seq<Field>, q: Bytes, tail: Bytes, rest: Bytes)
    requires FieldOk(f) && later != [] && Consists(q, later, tail) && rest == [AMPERSAND] + q
    ensures Consists(RenderOne(f) + rest, [f] + later, tail)
  {
    hide FieldOk, RenderOne;
    var fields := [f] + later;
    assert fields[1..] == later;
    Assoc([AMPERSAND], Render(later), tail);
    Assoc(RenderOne(f), [AMPERSAND] + Render(later), tail);
  }

  lemma QueryBehindPath(path: Bytes, q: Bytes)
    requires QUESTION !in path
    ensures ParseUrl(path + ([QUESTION] + q)) == ParseQuery(q, map[])
  {
    hide ParseQuery, Until;
    UntilStops(path, QUESTION, [QUESTION] + q);
    Assoc(path, [QUESTION], q);
    PartsOfConcat(path + [QUESTION], q);
  }

  lemma BareQuery(q: Bytes)
    requires QUESTION !in q
    ensures ParseUrl(q) == ParseQuery(q, map[])
  {
    hide ParseQuery;
    UntilStops(q, QUESTION, []);
    RightUnit(q);
  }

  /** The same for a URL with a path in front of the query, and for a bare query without question marks. */
  lemma {:induction false} ParseUrlOfRender(path: Bytes, fields: seq<Field>)
    requires QUESTION !in path && FieldsOk(fields)
    ensures ParseUrl(path + ([QUESTION] + Render(fields))) == Collect(fields, map[])
    ensures QUESTION !in Render(fields) ==> ParseUrl(Render(fields)) == Collect(fields, map[])
  {
    hide ParseQuery, ParseUrl, Render, FieldOk, Collect;
    RightUnit(Render(fields));
    ParseOfRender(Render(fields), fields, [], map[]);
    QueryBehindPath(path, Render(fields));
    if QUESTION !in Render(fields) {
      BareQuery(Render(fields));
    }
  }

  /** A value or the empty string. */
  function OrEmpty(r: Option<Bytes>): Bytes
  {
    if r.Some? then r.value else []
  }

  /** What the map holds for a name is the last value of that name in the query, however the query is taken apart. */
  lemma LookupInUrl(url: Bytes, name: Bytes)
    ensures forall fields, tail :: Consists(QueryOf(url), fields, tail) ==>
      Lookup(ParseUrl(url), name) == LastValue(fields, name)
  {
    hide ParseQuery, QueryOf, Consists, Collect, LastValue;
    forall fields: seq<Field>, tail: Bytes | Consists(QueryOf(url), fields, tail)
      ensures Lookup(ParseUrl(url), name) == LastValue(fields, name)
    {
      ParseOfRender(QueryOf(url), fields, tail, map[]);
      LastFieldWins(fields, map[], name);
    }
  }

  // ---------- the class ----------

  const NPOS := SIZE_T - 1

  /** `find_first_of(c, from)` */
  function FindFirstOf(s: Bytes, c: Byte, from: nat): (pos: nat)
    requires |s| <= MAX_SIZE
    ensures pos == NPOS || from <= pos < |s|
    ensures pos == if from <= |s| && Until(s[from..], c) < |s| - from then from + Until(s[from..], c) else NPOS
    decreases |s| - from
  {
    if from >= |s| then NPOS
    else if s[from] == c then from
    else
      assert s[from..][1..] == s[from + 1..];
      FindFirstOf(s, c, from + 1)
  }

  /** Where a separator is found, in the text from `pos` on. */
  lemma FoundAt(url: Bytes, c: Byte, pos: nat)
    requires pos <= |url| <= MAX_SIZE
    ensures var n, end := Until(url[pos..], c), FindFirstOf(url, c, pos);
      && (end == NPOS <==> n == |url| - pos)
      && (end != NPOS ==> end == pos + n && url[pos..][n + 1..] == url[end + 1..])
      && (var last := if end == NPOS then |url| else end;
          pos <= last <= |url| && last == pos + n && url[pos..][..n] == url[pos..last])
  {
    hide Until, FindFirstOf;
    var n := Until(url[pos..], c);
    DropDrop(url, pos, n);
    if pos + n < |url| {
      DropDrop(url, pos, n + 1);
    }
  }

  /** The end of a value that starts at `pos`. */
  function ValueEnd(url: Bytes, pos: nat): (last: nat)
    requires pos <= |url| <= MAX_SIZE
    ensures pos <= last <= |url|
  {
    var found := FindFirstOf(url, AMPERSAND, pos);
    if found == NPOS then |url| else found
  }

  /** One turn of the loop of `parse`, from behind a separator. */
  lemma QueryTurn(url: Bytes, pos: nat, done: Params, end: nat, last: nat)
    requires pos <= |url| <= MAX_SIZE && end == FindFirstOf(url, EQUALS, pos) != NPOS
    requires last == ValueEnd(url, end + 1)
    ensures pos <= end && ParseQuery(url[pos..], done) ==
      var done' := done[url[pos..end] := PercentDecode(url[end + 1..last])];
      if last == |url| then done' else ParseQuery(url[last + 1..], done')
  {
    hide PercentDecode, Until, FindFirstOf, ParseQuery;
    FoundAt(url, EQUALS, pos);
    FoundAt(url, AMPERSAND, end + 1);
    var q, rest := url[pos..], url[end + 1..];
    FirstPair(q, Until(q, EQUALS), rest, Until(rest, AMPERSAND), done);
  }

  lemma NoMorePairs(url: Bytes, pos: nat, done: Params)
    requires pos <= |url| <= MAX_SIZE && FindFirstOf(url, EQUALS, pos) == NPOS
    ensures ParseQuery(url[pos..], done) == done
  {
    hide Until, FindFirstOf;
    FoundAt(url, EQUALS, pos);
  }

  /** `++pos`, which wraps from npos to 0. */
  function Increment(pos: nat): nat
  {
    (pos + 1) % SIZE_T
  }

  lemma Incremented(pos: nat)
    ensures pos <= MAX_SIZE ==> Increment(pos) == pos + 1
    ensures Increment(NPOS) == 0
  {}

  lemma StartOfQuery(url: Bytes, pos: nat)
    requires |url| <= MAX_SIZE && pos == FindFirstOf(url, QUESTION, 0)
    ensures ParseUrl(url) == ParseQuery(if pos == NPOS then url else url[pos + 1..], map[])
  {
    hide ParseQuery, Until, FindFirstOf;
    FoundAt(url, QUESTION, 0);
    assert url[0..] == url;
  }

  class UrlParser {
    const url: Bytes
    var params: Params

    /** The parameters are those of the URL. */
    ghost predicate Valid()
      reads this
    {
      params == ParseUrl(url)
    }

    constructor (url: Bytes)
      requires |url| <= MAX_SIZE
      ensures this.url == url && Valid()
    {
      this.url := url;
      params := map[];
      new;
      Parse();
    }

    /** `parse`: the position starts at npos, that is -1, when there is no question mark. */
    method Parse()
      requires |url| <= MAX_SIZE && params == map[]
      modifies this
      ensures Valid()
    {
      hide ParseUrl, ParseQuery, PercentDecode, Until, Increment, FindFirstOf;
      var pos: nat := FindFirstOf(url, QUESTION, 0);
      StartOfQuery(url, pos);
      while pos < |url| || pos == NPOS
        invariant pos == NPOS || pos <= |url|
        invariant ParseUrl(url) ==
          if pos == NPOS then ParseQuery(url, params)
          else if pos < |url| then ParseQuery(url[pos + 1..], params)
          else params
        decreases if pos == NPOS then |url| + 1 else |url| - pos
      {
        Incremented(pos);
        pos := Increment(pos);
        var end: nat := FindFirstOf(url, EQUALS, pos);
        if end == NPOS {
          NoMorePairs(url, pos, params);
          return;
        }
        QueryTurn(url, pos, params, end, ValueEnd(url, end + 1));
        var name := url[pos..end];
        pos := end;
        Incremented(pos);
        pos := Increment(pos);
        end := FindFirstOf(url, AMPERSAND, pos);
        if end == NPOS {
          end := |url|;
        }
        var value := url[pos..end];
        pos := end;
        var decoded := PercentDecodeLoop(value);
        params := params[name := decoded];
      }
    }

    /**
     `param`: for every way to take the query of the URL apart into fields, the last value of that name, or the empty
     string when no field has it.
     */
    function Param(name: Bytes): (r: Bytes)
      requires Valid()
      reads this
      ensures forall fields, tail :: Consists(QueryOf(url), fields, tail) ==> r == OrEmpty(LastValue(fields, name))
    {
      LookupInUrl(url, name);
      if name in params then params[name] else []
    }
  }

  /** A parser of a path, a question mark and fields answers each name with its last value, or the empty string. */
  lemma ParamOfRender(p: UrlParser, path: Bytes, fields: seq<Field>, name: Bytes)
    requires p.Valid() && QUESTION !in path && FieldsOk(fields) && p.url == path + ([QUESTION] + Render(fields))
    ensures p.Param(name) == OrEmpty(LastValue(fields, name))
  {
    hide ParseQuery, Render, FieldsOk, LastValue;
    UntilStops(path, QUESTION, [QUESTION] + Render(fields));
    Assoc(path, [QUESTION], Render(fields));
    PartsOfConcat(path + [QUESTION], Render(fields));
    RightUnit(Render(fields));
    assert Consists(QueryOf(p.url), fields, []);
  }

  /** A name is answered with the value of the last field that has it, and with the empty string when none has. */
  lemma ParamIsLast(p: UrlParser, fields: seq<Field>, tail: Bytes, name: Bytes)
    requires p.Valid() && Consists(QueryOf(p.url), fields, tail)
    ensures NameIsNotIn(fields, name) ==> p.Param(name) == []
    ensures forall k: nat :: IsLast(fields, k, name) ==> p.Param(name) == fields[k].value
  {
    hide Consists, QueryOf, NameIsNotIn, IsLast;
    assert p.Param(name) == OrEmpty(LastValue(fields, name));
    LastValueIsLast(fields, name);
  }
}

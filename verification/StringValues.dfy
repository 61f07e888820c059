/** String tokens and their values, by the letters and numbers of RFC 7159, section 7, and RFC 3629, section 3. */
module StringValues {
  import opened ByteStrings
  import opened Wrappers
  import opened Sequences
  import opened Literals
  import opened Utf8
  import opened Escaping

  // ---------- what tokens are made of ----------

  /** The two-character escapes: the letter behind the backslash, and the byte it stands for. */
  predicate IsShort(letter: Byte, c: Byte)
  {
    || (letter == '"' as int && c == '"' as int)
    || (letter == '\\' as int && c == '\\' as int)
    || (letter == '/' as int && c == '/' as int)
    || (letter == 'b' as int && c == 8)
    || (letter == 't' as int && c == 9)
    || (letter == 'n' as int && c == 10)
    || (letter == 'f' as int && c == 12)
    || (letter == 'r' as int && c == 13)
  }

  /** Four hexadecimal digits and the number they spell. */
  predicate HexNumber(d: Bytes, n: nat)
  {
    && |d| == 4
    && n < 0x1_0000
    && HexIs(d[0], n / 0x1000)
    && HexIs(d[1], n / 0x100 % 16)
    && HexIs(d[2], n / 0x10 % 16)
    && HexIs(d[3], n % 16)
  }

  /** The bytes of a code point (RFC 3629, section 3): the fewest whose payload bits hold it. */
  predicate Utf8Is(cp: nat, u: Bytes)
  {
    match |u|
    case 1 => cp < 0x80 && u[0] == cp
    case 2 =>
      && 0x80 <= cp < 0x800
      && 0xc0 <= u[0] < 0xe0 && 0x80 <= u[1] < 0xc0
      && cp == (u[0] as int - 0xc0) * 0x40 + (u[1] as int - 0x80)
    case 3 =>
      && 0x800 <= cp < 0x1_0000
      && 0xe0 <= u[0] < 0xf0 && 0x80 <= u[1] < 0xc0 && 0x80 <= u[2] < 0xc0
      && cp == (u[0] as int - 0xe0) * 0x1000 + (u[1] as int - 0x80) * 0x40 + (u[2] as int - 0x80)
    case 4 =>
      && 0x1_0000 <= cp <= 0x10_ffff
      && 0xf0 <= u[0] < 0xf8 && 0x80 <= u[1] < 0xc0 && 0x80 <= u[2] < 0xc0 && 0x80 <= u[3] < 0xc0
      && cp == (u[0] as int - 0xf0) * 0x4_0000 + (u[1] as int - 0x80) * 0x1000
             + (u[2] as int - 0x80) * 0x40 + (u[3] as int - 0x80)
    case _ => false
  }

  /** A part of a token, with what it stands for. */
  datatype Piece =
    | Raw(c: Byte)
    | Short(letter: Byte, c: Byte)
    | Unicode(digits: Bytes, cp: nat, u: Bytes)
    | Pair(digits: Bytes, high: nat, digits2: Bytes, low: nat, u: Bytes)

  /** A raw byte is no backslash; a unicode escape is no surrogate, or one of a pair (RFC 2781, section 2.2). */
  predicate PieceOk(p: Piece)
  {
    match p
    case Raw(c) => c != '\\' as int
    case Short(letter, c) => IsShort(letter, c)
    case Unicode(digits, cp, u) => HexNumber(digits, cp) && !(0xd800 <= cp < 0xe000) && Utf8Is(cp, u)
    case Pair(digits, high, digits2, low, u) =>
      && HexNumber(digits, high) && 0xd800 <= high < 0xdc00
      && HexNumber(digits2, low) && 0xdc00 <= low < 0xe000
      && Utf8Is(0x1_0000 + (high - 0xd800) * 0x400 + (low - 0xdc00), u)
  }

  function Spelling(p: Piece): Bytes
  {
    match p
    case Raw(c) => [c]
    case Short(letter, _) => ['\\' as int, letter]
    case Unicode(digits, _, _) => ['\\' as int, 'u' as int] + digits
    case Pair(digits, _, digits2, _, _) => ['\\' as int, 'u' as int] + digits + (['\\' as int, 'u' as int] + digits2)
  }

  function Value(p: Piece): Bytes
  {
    match p
    case Raw(c) => [c]
    case Short(_, c) => [c]
    case Unicode(_, _, u) => u
    case Pair(_, _, _, _, u) => u
  }

  function SpellAll(ps: seq<Piece>): Bytes
  {
    if ps == [] then [] else Spelling(ps[0]) + SpellAll(ps[1..])
  }

  function ValueAll(ps: seq<Piece>): Bytes
  {
    if ps == [] then [] else Value(ps[0]) + ValueAll(ps[1..])
  }

  predicate AllOk(ps: seq<Piece>)
  {
    forall i | 0 <= i < |ps| :: PieceOk(ps[i])
  }

  /** The body of a token means a string: both consist of the same pieces. */
  ghost predicate Means(b: Bytes, s: Bytes)
  {
    exists ps :: AllOk(ps) && SpellAll(ps) == b && ValueAll(ps) == s
  }

  // ---------- the tables ----------

  lemma HexMeans(c: Byte, n: int)
    ensures IsHex(c) && HexValue(c) == n <==> HexIs(c, n)
  {
    if HexIs(c, n) {
      assert n < 10 ==> c == 48 + n;
      assert n >= 10 ==> c == 87 + n || c == 55 + n;
    }
  }

  lemma ShortMeans(letter: Byte, c: Byte)
    ensures ShortMeaning(letter) == Some(c) <==> IsShort(letter, c)
  {}

  lemma AppendMeans(cp: nat, u: Bytes)
    requires IsScalar(cp)
    ensures Append(cp) == Ok(u) <==> Utf8Is(cp, u)
  {
    ReadsBack(cp);
    if Utf8Is(cp, u) {
      ShortestForm(u, cp);
    }
  }

  lemma Hex4Means(b: Bytes, n: nat)
    requires |b| >= 6 && b[0] == BACKSLASH && b[1] == LETTER_U
    ensures EscapeLength(b) == 6 && Hex4(b) == n <==> HexNumber(b[2..6], n)
  {
    hide HexIs, HexValue, IsHex;
    var d := b[2..6];
    assert d[0] == b[2] && d[1] == b[3] && d[2] == b[4] && d[3] == b[5];
    if HexNumber(d, n) {
      HexMeans(d[0], n / 0x1000);
      HexMeans(d[1], n / 0x100 % 16);
      HexMeans(d[2], n / 0x10 % 16);
      HexMeans(d[3], n % 16);
      JoinedDigits(n);
    } else if EscapeLength(b) == 6 {
      NotTheNumber(d, n);
    }
  }

  /** Four digits that are no spelling of a number have another value. */
  lemma NotTheNumber(d: Bytes, n: nat)
    requires |d| == 4 && IsHex(d[0]) && IsHex(d[1]) && IsHex(d[2]) && IsHex(d[3]) && !HexNumber(d, n)
    ensures ((HexValue(d[0]) * 16 + HexValue(d[1])) * 16 + HexValue(d[2])) * 16 + HexValue(d[3]) != n
  {
    hide HexIs, HexValue, IsHex;
    DigitsOf(HexValue(d[0]), HexValue(d[1]), HexValue(d[2]), HexValue(d[3]));
    HexMeans(d[0], HexValue(d[0]));
    HexMeans(d[1], HexValue(d[1]));
    HexMeans(d[2], HexValue(d[2]));
    HexMeans(d[3], HexValue(d[3]));
  }

  lemma JoinedDigits(n: nat)
    ensures ((n / 0x1000 * 16 + n / 0x100 % 16) * 16 + n / 0x10 % 16) * 16 + n % 16 == n
  {
    assert n / 0x100 == n / 0x10 / 0x10 && n / 0x1000 == n / 0x10 / 0x10 / 0x10;
  }

  lemma DigitsOf(w: nat, x: nat, y: nat, z: nat)
    requires w < 16 && x < 16 && y < 16 && z < 16
    ensures var n := ((w * 16 + x) * 16 + y) * 16 + z;
      n < 0x1_0000 && n / 0x1000 == w && n / 0x100 % 16 == x && n / 0x10 % 16 == y && n % 16 == z
  {}

  // ---------- pieces and get_string ----------

  /** What one piece in front of a body does to its value. */
  lemma PieceReads(p: Piece, rest: Bytes)
    requires PieceOk(p) && EscapesOk(rest)
    ensures EscapesOk(Spelling(p) + rest) && GetString(Spelling(p) + rest) == Cons(Value(p), GetString(rest))
  {
    hide HexNumber, Utf8Is, IsShort;
    var b := Spelling(p) + rest;
    match p
    case Raw(c) => RawChunk([c], rest);
    case Short(letter, c) =>
      ShortMeans(letter, c);
      assert b[2..] == rest;
      assert EscapeLength(b) == 2;
    case Unicode(digits, cp, u) => UnicodeReads(digits, cp, u, rest);
    case Pair(digits, high, digits2, low, u) => PairReads(p, rest);
  }

  lemma EscapeFront(digits: Bytes, n: nat, rest: Bytes)
    requires HexNumber(digits, n)
    ensures var b := [BACKSLASH, LETTER_U] + digits + rest;
      EscapeLength(b) == 6 && Hex4(b) == n && n < 0x1_0000 && b[6..] == rest && b[0] == BACKSLASH
  {
    var b := [BACKSLASH, LETTER_U] + digits + rest;
    assert b[2..6] == digits;
    Hex4Means(b, n);
  }

  lemma UnicodeReads(digits: Bytes, cp: nat, u: Bytes, rest: Bytes)
    requires PieceOk(Unicode(digits, cp, u)) && EscapesOk(rest)
    ensures var b := [BACKSLASH, LETTER_U] + digits + rest;
      EscapesOk(b) && GetString(b) == Cons(u, GetString(rest))
  {
    hide HexNumber, Utf8Is, Hex4;
    EscapeFront(digits, cp, rest);
    AppendMeans(cp, u);
  }

  lemma PairReads(p: Piece, rest: Bytes)
    requires p.Pair? && PieceOk(p) && EscapesOk(rest)
    ensures EscapesOk(Spelling(p) + rest) && GetString(Spelling(p) + rest) == Cons(p.u, GetString(rest))
  {
    hide HexNumber, Utf8Is, Hex4;
    var second := [BACKSLASH, LETTER_U] + p.digits2 + rest;
    var b := [BACKSLASH, LETTER_U] + p.digits + second;
    assert Spelling(p) + rest == b;
    EscapeFront(p.digits2, p.low, rest);
    EscapeFront(p.digits, p.high, second);
    assert b[12..] == second[6..];
    PairsAreSupplementary(p.high, p.low);
    AppendMeans(PairValue(p.high, p.low), p.u);
  }

  lemma {:induction false} PiecesRead(ps: seq<Piece>)
    requires AllOk(ps)
    ensures EscapesOk(SpellAll(ps)) && GetString(SpellAll(ps)) == Ok(ValueAll(ps))
  {
    hide PieceOk, EscapesOk, GetString, Spelling, Value;
    if ps == [] {
      NothingReads();
    } else {
      PiecesRead(ps[1..]);
      PieceReads(ps[0], SpellAll(ps[1..]));
    }
  }

  lemma NothingReads()
    ensures EscapesOk([]) && GetString([]) == Ok([])
  {}

  /** The first piece of a body that is read. */
  lemma FirstPiece(b: Bytes) returns (p: Piece, rest: Bytes)
    requires b != [] && EscapesOk(b) && GetString(b).Ok?
    ensures PieceOk(p) && b == Spelling(p) + rest && |rest| < |b|
    ensures EscapesOk(rest) && GetString(rest).Ok? && GetString(b).value == Value(p) + GetString(rest).value
  {
    hide HexNumber, Utf8Is, Hex4, IsShort;
    if b[0] != BACKSLASH {
      p, rest := Raw(b[0]), b[1..];
      HeadTail(b);
    } else if EscapeLength(b) == 2 {
      p, rest := Short(b[1], ShortMeaning(b[1]).value), b[2..];
      ShortMeans(b[1], p.c);
      assert b == [b[0], b[1]] + rest;
    } else {
      Hex4Means(b, Hex4(b));
      if IsHigh(Hex4(b)) {
        p, rest := FirstPair(b);
      } else {
        var u := Append(Hex4(b)).value;
        p, rest := Unicode(b[2..6], Hex4(b), u), b[6..];
        assert Hex4(b) <= 0xffff by { Hex4Bound(b); }
        AppendMeans(Hex4(b), u);
        assert b == [b[0], b[1]] + b[2..6] + rest;
      }
    }
  }

  lemma Hex4Bound(b: Bytes)
    requires EscapeLength(b) == 6
    ensures Hex4(b) <= 0xffff
  {}

  lemma FirstPair(b: Bytes) returns (p: Piece, rest: Bytes)
    requires EscapesOk(b) && GetString(b).Ok? && EscapeLength(b) == 6 && IsHigh(Hex4(b))
    ensures PieceOk(p) && b == Spelling(p) + rest && |rest| < |b|
    ensures EscapesOk(rest) && GetString(rest).Ok? && GetString(b).value == Value(p) + GetString(rest).value
  {
    hide HexNumber, Utf8Is, Hex4;
    var second := b[6..];
    var high, low := Hex4(b), NextHex4(b).value;
    var u := ToUnicode(high, low).value;
    p, rest := Pair(b[2..6], high, b[8..12], low, u), b[12..];
    Hex4Means(b, high);
    Hex4Means(second, low);
    assert second[2..6] == b[8..12];
    PairsAreSupplementary(high, low);
    AppendMeans(PairValue(high, low), u);
    assert b == [b[0], b[1]] + b[2..6] + ([b[6], b[7]] + b[8..12]) + rest;
  }

  lemma {:induction false} PiecesOf(b: Bytes) returns (ps: seq<Piece>)
    requires EscapesOk(b) && GetString(b).Ok?
    ensures AllOk(ps) && SpellAll(ps) == b && ValueAll(ps) == GetString(b).value
    decreases |b|
  {
    hide PieceOk, EscapesOk, GetString, Spelling, Value;
    if b == [] {
      ps := [];
      NothingReads();
    } else {
      var p, rest := FirstPiece(b);
      var more := PiecesOf(rest);
      ps := [p] + more;
      ConsTail(p, more);
    }
  }

  /** For every body and every string: `get_string` returns the string exactly when the body means it. */
  lemma GetStringMeans(b: Bytes, s: Bytes)
    ensures EscapesOk(b) && GetString(b) == Ok(s) <==> Means(b, s)
  {
    hide EscapesOk, GetString, AllOk, SpellAll, ValueAll;
    if EscapesOk(b) && GetString(b) == Ok(s) {
      var ps := PiecesOf(b);
    }
    if Means(b, s) {
      var ps :| AllOk(ps) && SpellAll(ps) == b && ValueAll(ps) == s;
      PiecesRead(ps);
    }
  }

  // ---------- the escapes that are written ----------

  /** The escape of a byte: a letter for seven of them, six characters for the other control characters. */
  predicate IsEscapeOf(c: Byte, e: Bytes)
  {
    if c == '"' as int then Spells(e, "\\\"")
    else if c == '\\' as int then Spells(e, "\\\\")
    else if c == 8 then Spells(e, "\\b")
    else if c == 9 then Spells(e, "\\t")
    else if c == 10 then Spells(e, "\\n")
    else if c == 12 then Spells(e, "\\f")
    else if c == 13 then Spells(e, "\\r")
    else if c < 32 then Spells(e, "\\u00" + ["0123456789abcdef"[c / 16]] + ["0123456789abcdef"[c % 16]])
    else e == [c]
  }

  lemma EscapeCharIs(c: Byte)
    ensures IsEscapeOf(c, EscapeChar(c))
  {}

  /** An escaped string is the escapes of its bytes, one after the other. */
  lemma {:induction false} EscapeOfConcat(a: Bytes, b: Bytes)
    ensures Escape(a + b) == Escape(a) + Escape(b)
  {
    hide EscapeChar;
    if a == [] {
      LeftUnit(b);
      LeftUnit(Escape(b));
    } else {
      ConcatHead(a, b);
      EscapeOfConcat(a[1..], b);
      Assoc(EscapeChar(a[0]), Escape(a[1..]), Escape(b));
    }
  }

  /** `escape_string` of a text with one more byte. */
  lemma EscapeIs(s: Bytes, c: Byte)
    ensures Escape([]) == []
    ensures exists e :: IsEscapeOf(c, e) && Escape(s + [c]) == Escape(s) + e
  {
    hide EscapeChar, IsEscapeOf;
    var one: Bytes := [c];
    EscapeOfConcat(s, one);
    EscapeCharIs(c);
    assert one[1..] == [];
    RightUnit(EscapeChar(c));
    assert Escape(one) == EscapeChar(c);
  }

  lemma EscapeIsUnique(c: Byte, e: Bytes, f: Bytes)
    requires IsEscapeOf(c, e) && IsEscapeOf(c, f)
    ensures e == f
  {}

  // ---------- what the scanner accepts between quotes ----------

  /** The characters of RFC 7159, section 7: unescaped ones, and three kinds of escapes. */
  datatype Character =
    | Unescaped(cp: nat, u: Bytes)
    | Letter(letter: Byte, c: Byte)
    | Code(digits: Bytes, n: nat)

  predicate CharacterOk(x: Character)
  {
    match x
    case Unescaped(cp, u) =>
      && Utf8Is(cp, u) && cp >= 0x20 && !(0xd800 <= cp < 0xe000)
      && cp != '"' as int && cp != '\\' as int
    case Letter(letter, c) => IsShort(letter, c)
    case Code(digits, n) => HexNumber(digits, n)
  }

  function CharacterBytes(x: Character): Bytes
  {
    match x
    case Unescaped(_, u) => u
    case Letter(letter, _) => ['\\' as int, letter]
    case Code(digits, _) => ['\\' as int, 'u' as int] + digits
  }

  function AllBytes(xs: seq<Character>): Bytes
  {
    if xs == [] then [] else CharacterBytes(xs[0]) + AllBytes(xs[1..])
  }

  predicate CharactersOk(xs: seq<Character>)
  {
    forall i | 0 <= i < |xs| :: CharacterOk(xs[i])
  }

  lemma CharacterIsUnit(x: Character, rest: Bytes)
    requires CharacterOk(x)
    ensures UnitLength(CharacterBytes(x) + rest) == |CharacterBytes(x)| > 0
  {
    hide HexNumber, Utf8Is, IsShort;
    var u := CharacterBytes(x);
    match x
    case Unescaped(cp, _) =>
      UnescapedIsUnit(cp, u);
      UnitExtends(u, rest);
    case Letter(letter, c) => ShortMeans(letter, c);
    case Code(digits, n) => EscapeFront(digits, n, rest);
  }

  lemma UnescapedIsUnit(cp: nat, u: Bytes)
    requires CharacterOk(Unescaped(cp, u))
    ensures UnitLength(u) == |u| > 0
  {
    AppendMeans(cp, u);
    ReadsBack(cp);
  }

  /** The first character of a body. */
  lemma UnitIsCharacter(b: Bytes) returns (x: Character)
    requires UnitLength(b) > 0
    ensures CharacterOk(x) && CharacterBytes(x) == b[..UnitLength(b)]
  {
    hide HexNumber, Utf8Is, IsShort, Hex4;
    if b[0] != BACKSLASH {
      WritesBack(b);
      AppendMeans(CodePoint(b), b[..UnitLength(b)]);
      x := Unescaped(CodePoint(b), b[..UnitLength(b)]);
      LargeCodePoint(b);
    } else if EscapeLength(b) == 2 {
      ShortMeans(b[1], ShortMeaning(b[1]).value);
      x := Letter(b[1], ShortMeaning(b[1]).value);
      assert b[..2] == [b[0], b[1]];
    } else {
      Hex4Means(b, Hex4(b));
      x := Code(b[2..6], Hex4(b));
      assert b[..6] == [b[0], b[1]] + b[2..6];
    }
  }

  /** More than one byte stands for more than 127. */
  lemma LargeCodePoint(b: Bytes)
    requires SequenceLength(b) > 0
    ensures if SequenceLength(b) == 1 then CodePoint(b) == b[0] else CodePoint(b) >= 0x80
  {}

  lemma {:induction false} CharactersOf(b: Bytes) returns (xs: seq<Character>)
    requires Body(b)
    ensures CharactersOk(xs) && AllBytes(xs) == b
    decreases |b|
  {
    hide UnitLength, CharacterOk, CharacterBytes;
    if b == [] {
      xs := [];
    } else {
      var x := UnitIsCharacter(b);
      var more := CharactersOf(b[UnitLength(b)..]);
      xs := [x] + more;
      ConsTail(x, more);
      Parts(b, UnitLength(b));
    }
  }

  lemma {:induction false} CharactersAreBody(xs: seq<Character>)
    requires CharactersOk(xs)
    ensures Body(AllBytes(xs))
  {
    hide UnitLength, CharacterOk, CharacterBytes;
    if xs != [] {
      CharacterIsUnit(xs[0], AllBytes(xs[1..]));
      CharactersAreBody(xs[1..]);
      PartsOfConcat(CharacterBytes(xs[0]), AllBytes(xs[1..]));
    }
  }

  /** Between the quotes of a token stand exactly the characters of RFC 7159. */
  lemma BodyIsCharacters(b: Bytes)
    ensures Body(b) <==> exists xs :: CharactersOk(xs) && AllBytes(xs) == b
  {
    hide Body, CharactersOk, AllBytes;
    if Body(b) {
      var xs := CharactersOf(b);
    }
    forall xs | CharactersOk(xs) && AllBytes(xs) == b
      ensures Body(b)
    {
      CharactersAreBody(xs);
    }
  }
}

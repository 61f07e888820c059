/** `percent_decode` on every text, stated by the digits of RFC 3986, section 2.1. */
module PercentCodes {
  import opened ByteStrings
  import opened Sequences
  import opened Literals
  import opened Escaping
  import opened StringValues
  import opened UrlParser

  predicate IsDigitOfHex(c: Byte)
  {
    exists n | 0 <= n < 16 :: HexIs(c, n)
  }

  /** A part of a text: a byte, the code of a byte, or a percent sign that starts no code, with what follows it. */
  datatype Part =
    | Plain(c: Byte)
    | Code(high: Byte, low: Byte, c: Byte)
    | NoFirst(c: Byte)
    | NoSecond(high: Byte, c: Byte)

  predicate PartOk(p: Part)
  {
    match p
    case Plain(c) => c != '%' as int
    case Code(high, low, c) => HexIs(high, c / 16) && HexIs(low, c % 16)
    case NoFirst(c) => !IsDigitOfHex(c)
    case NoSecond(high, c) => IsDigitOfHex(high) && !IsDigitOfHex(c)
  }

  function Written(p: Part): Bytes
  {
    match p
    case Plain(c) => [c]
    case Code(high, low, _) => ['%' as int, high, low]
    case NoFirst(c) => ['%' as int, c]
    case NoSecond(high, c) => ['%' as int, high, c]
  }

  /** A code stands for its byte, everything else for itself. */
  function Decoded(p: Part): Bytes
  {
    match p
    case Code(_, _, c) => [c]
    case _ => Written(p)
  }

  function WrittenAll(ps: seq<Part>): Bytes
  {
    if ps == [] then [] else Written(ps[0]) + WrittenAll(ps[1..])
  }

  function DecodedAll(ps: seq<Part>): Bytes
  {
    if ps == [] then [] else Decoded(ps[0]) + DecodedAll(ps[1..])
  }

  /** A code that the text ends in: it is dropped. */
  predicate CutOff(tail: Bytes)
  {
    tail == [] || (tail[0] == '%' as int && (|tail| == 1 || (|tail| == 2 && IsDigitOfHex(tail[1]))))
  }

  ghost predicate ConsistsOf(s: Bytes, ps: seq<Part>, tail: Bytes)
  {
    (forall i | 0 <= i < |ps| :: PartOk(ps[i])) && CutOff(tail) && s == WrittenAll(ps) + tail
  }

  lemma DigitOfHex(c: Byte)
    ensures IsDigitOfHex(c) <==> IsHex(c)
  {
    hide HexIs;
    if IsHex(c) {
      HexMeans(c, HexValue(c));
    }
    if IsDigitOfHex(c) {
      var n :| 0 <= n < 16 && HexIs(c, n);
      HexMeans(c, n);
    }
  }

  /** A byte, in each choice of case of its two digits. */
  lemma CodeDecodes(c: Byte, high: Byte, low: Byte, rest: Bytes)
    requires HexIs(high, c / 16) && HexIs(low, c % 16)
    ensures PercentDecode(['%' as int, high, low] + rest) == [c] + PercentDecode(rest)
  {
    hide HexIs;
    HexMeans(high, c / 16);
    HexMeans(low, c % 16);
    var s := ['%' as int, high, low] + rest;
    assert s[3..] == rest;
  }

  lemma PartDecodes(p: Part, rest: Bytes)
    requires PartOk(p)
    ensures PercentDecode(Written(p) + rest) == Decoded(p) + PercentDecode(rest)
  {
    hide HexIs, IsDigitOfHex;
    var s := Written(p) + rest;
    match p
    case Plain(c) => Generally(c, rest);
    case Code(high, low, c) => CodeDecodes(c, high, low, rest);
    case NoFirst(c) =>
      DigitOfHex(c);
      assert s[2..] == rest;
    case NoSecond(high, c) =>
      DigitOfHex(high);
      DigitOfHex(c);
      assert s[3..] == rest;
  }

  lemma TailIsDropped(tail: Bytes)
    requires CutOff(tail)
    ensures PercentDecode(tail) == []
  {
    hide IsDigitOfHex;
    if |tail| == 2 {
      DigitOfHex(tail[1]);
    }
  }

  /** However a text is taken apart, it is decoded to what its parts stand for. */
  lemma {:induction false} PartsDecode(s: Bytes, ps: seq<Part>, tail: Bytes)
    requires ConsistsOf(s, ps, tail)
    ensures PercentDecode(s) == DecodedAll(ps)
    decreases |ps|
  {
    hide PartOk, PercentDecode, CutOff;
    if ps == [] {
      LeftUnit(tail);
      TailIsDropped(tail);
    } else {
      var rest := WrittenAll(ps[1..]) + tail;
      Assoc(Written(ps[0]), WrittenAll(ps[1..]), tail);
      PartDecodes(ps[0], rest);
      PartsDecode(rest, ps[1..], tail);
    }
  }

  /** Every text can be taken apart. */
  lemma {:induction false} PartsOf(s: Bytes) returns (ps: seq<Part>, tail: Bytes)
    ensures ConsistsOf(s, ps, tail)
    decreases |s|
  {
    hide PartOk, CutOff;
    if s == [] || (s[0] == '%' as int && (|s| == 1 || (|s| == 2 && IsHex(s[1])))) {
      ps, tail := [], s;
      EndsCutOff(s);
      LeftUnit(s);
    } else {
      var p, rest := FirstPart(s);
      var more: seq<Part>;
      more, tail := PartsOf(rest);
      ps := [p] + more;
      ConsTail(p, more);
      Assoc(Written(p), WrittenAll(more), tail);
    }
  }

  lemma EndsCutOff(s: Bytes)
    requires s == [] || (s[0] == '%' as int && (|s| == 1 || (|s| == 2 && IsHex(s[1]))))
    ensures CutOff(s)
  {
    hide IsDigitOfHex;
    if |s| == 2 {
      DigitOfHex(s[1]);
    }
  }

  lemma FirstPart(s: Bytes) returns (p: Part, rest: Bytes)
    requires s != [] && !(s[0] == '%' as int && (|s| == 1 || (|s| == 2 && IsHex(s[1]))))
    ensures PartOk(p) && s == Written(p) + rest && |rest| < |s|
  {
    hide HexIs, IsDigitOfHex, HexValue;
    if s[0] != '%' as int {
      p, rest := Plain(s[0]), s[1..];
    } else if !IsHex(s[1]) {
      DigitOfHex(s[1]);
      p, rest := NoFirst(s[1]), s[2..];
    } else if !IsHex(s[2]) {
      DigitOfHex(s[1]);
      DigitOfHex(s[2]);
      p, rest := NoSecond(s[1], s[2]), s[3..];
    } else {
      var c := HexByte(s[1], s[2]);
      HexMeans(s[1], c / 16);
      HexMeans(s[2], c % 16);
      p, rest := Part.Code(s[1], s[2], c), s[3..];
    }
  }
}

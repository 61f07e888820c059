/** Decimal numbers: what `stoi` reads of a text, stated by the digits and their places. */
module Numerals {
  import opened ByteStrings
  import opened Wrappers
  import opened Sequences
  import opened Literals
  import opened Decimals

  function Pow10(k: nat): nat
  {
    if k == 0 then 1 else 10 * Pow10(k - 1)
  }

  /** Decimal digits and the number they spell: each digit counts for its place. */
  predicate Denotes(ds: Bytes, n: nat)
    decreases |ds|
  {
    if ds == [] then n == 0
    else exists d | 0 <= d < 10 ::
      DecimalIs(ds[0], d) && n >= d * Pow10(|ds| - 1) && Denotes(ds[1..], n - d * Pow10(|ds| - 1))
  }

  lemma DigitIs(c: Byte, d: int)
    ensures IsDigit(c) && c - ZERO == d <==> DecimalIs(c, d)
  {}

  /** The value without the first digit. */
  lemma {:induction false} FirstPlace(ds: Bytes)
    requires ds != [] && AllDigits(ds)
    ensures DigitsValue(ds) == (ds[0] - ZERO) * Pow10(|ds| - 1) + DigitsValue(ds[1..])
    decreases |ds|
  {
    if |ds| == 1 {
      assert ds[..0] == [] && ds[1..] == [];
      assert DigitsValue(ds[..0]) == 0;
    } else {
      var init, rest := ds[..|ds| - 1], ds[1..];
      FirstPlace(init);
      assert init[1..] == rest[..|rest| - 1];
      Tens(ds[0] - ZERO, Pow10(|ds| - 2));
    }
  }

  lemma Tens(d: int, p: int)
    ensures d * p * 10 == d * (10 * p)
  {}

  /** The value of digits is the number they spell, and nothing else spells a number. */
  lemma {:induction false} DigitsDenote(ds: Bytes, n: nat)
    ensures AllDigits(ds) && DigitsValue(ds) == n <==> Denotes(ds, n)
    decreases |ds|
  {
    hide DigitsValue, DecimalIs;
    if ds == [] {
      NoValue();
    } else {
      forall d | 0 <= d < 10 && DecimalIs(ds[0], d) && n >= d * Pow10(|ds| - 1)
        ensures Denotes(ds[1..], n - d * Pow10(|ds| - 1)) <==> AllDigits(ds) && DigitsValue(ds) == n
      {
        DigitIs(ds[0], d);
        DigitsDenote(ds[1..], n - d * Pow10(|ds| - 1));
        HeadTail(ds);
        if AllDigits(ds) || AllDigits(ds[1..]) {
          DigitsSplit(ds);
          FirstPlace(ds);
        }
      }
      if AllDigits(ds) {
        FirstPlace(ds);
        DigitIs(ds[0], ds[0] - ZERO);
      }
    }
  }

  lemma NoValue()
    ensures DigitsValue([]) == 0
  {}

  lemma DigitsSplit(ds: Bytes)
    requires ds != [] && IsDigit(ds[0]) && (AllDigits(ds) || AllDigits(ds[1..]))
    ensures AllDigits(ds) && AllDigits(ds[1..])
  {
    HeadTail(ds);
  }

  // ---------- to_string ----------

  /** Digits without a leading zero. */
  predicate Plain(ds: Bytes)
  {
    ds != [] && (|ds| > 1 ==> ds[0] != '0' as int)
  }

  lemma {:induction false} PlainIsLarge(ds: Bytes)
    requires AllDigits(ds) && Plain(ds) && |ds| > 1
    ensures DigitsValue(ds) >= 10
  {
    FirstPlace(ds);
    assert Pow10(|ds| - 1) == 10 * Pow10(|ds| - 2);
    AtLeast(ds[0] - ZERO, 10 * Pow10(|ds| - 2));
    OneOrMore(|ds| - 2);
  }

  lemma AtLeast(d: int, p: int)
    requires d >= 1 && p >= 0
    ensures d * p >= p
  {}

  lemma {:induction false} OneOrMore(k: nat)
    ensures Pow10(k) >= 1
  {
    if k > 0 {
      OneOrMore(k - 1);
    }
  }

  lemma {:induction false} PlainIsDecimal(ds: Bytes)
    requires AllDigits(ds) && Plain(ds)
    ensures ds == ToDecimal(DigitsValue(ds))
    decreases |ds|
  {
    if |ds| == 1 {
      assert ds[..0] == [];
      assert DigitsValue(ds[..0]) == 0;
    } else {
      var init, last := ds[..|ds| - 1], ds[|ds| - 1] - ZERO;
      PlainIsDecimal(init);
      PlainIsLarge(ds);
      var high: nat := DigitsValue(init);
      DivModUnique(DigitsValue(ds), 10, high, last);
    }
  }

  /** The decimal text of a number is the only one without leading zeros that denotes it. */
  lemma DecimalIsPlain(ds: Bytes, n: nat)
    ensures ds == ToDecimal(n) <==> Denotes(ds, n) && Plain(ds)
  {
    hide Denotes, DigitsValue;
    DecimalValue(n);
    DigitsDenote(ds, n);
    DigitsDenote(ToDecimal(n), n);
    if AllDigits(ds) && Plain(ds) {
      PlainIsDecimal(ds);
    }
  }

  // ---------- stoi ----------

  /** White space, a sign, digits, and what follows them. */
  datatype Numeral = Numeral(spaces: Bytes, sign: Bytes, digits: Bytes, rest: Bytes)

  predicate IsDecimal(c: Byte)
  {
    exists d | 0 <= d < 10 :: DecimalIs(c, d)
  }

  predicate NumeralOk(x: Numeral)
  {
    && (forall i | 0 <= i < |x.spaces| :: x.spaces[i] == ' ' as int || 9 <= x.spaces[i] <= 13)
    && (x.sign == [] || x.sign == ['+' as int] || x.sign == ['-' as int])
    && x.digits != []
    && (forall i | 0 <= i < |x.digits| :: IsDecimal(x.digits[i]))
    && (x.rest == [] || !IsDecimal(x.rest[0]))
  }

  function TextOf(x: Numeral): Bytes
  {
    x.spaces + (x.sign + (x.digits + x.rest))
  }

  predicate NumberIs(x: Numeral, n: int)
  {
    if x.sign == ['-' as int] then n <= 0 && Denotes(x.digits, -n) else n >= 0 && Denotes(x.digits, n)
  }

  predicate FitsInt(n: int)
  {
    -0x8000_0000 <= n <= 0x7fff_ffff
  }

  ghost predicate Reads(s: Bytes, x: Numeral, n: int)
  {
    NumeralOk(x) && TextOf(x) == s && NumberIs(x, n)
  }

  lemma DecimalDigit(c: Byte)
    ensures IsDecimal(c) <==> IsDigit(c)
  {
    hide DecimalIs;
    if IsDigit(c) {
      DigitIs(c, c - ZERO);
    }
    if IsDecimal(c) {
      var d :| 0 <= d < 10 && DecimalIs(c, d);
      DigitIs(c, d);
    }
  }

  lemma DecimalDigits(ds: Bytes)
    ensures (forall i | 0 <= i < |ds| :: IsDecimal(ds[i])) <==> AllDigits(ds)
  {
    hide IsDecimal;
    forall i | 0 <= i < |ds|
      ensures IsDecimal(ds[i]) <==> IsDigit(ds[i])
    {
      DecimalDigit(ds[i]);
    }
  }

  lemma {:induction false} SpacesSkipped(spaces: Bytes, t: Bytes)
    requires forall i :: 0 <= i < |spaces| ==> IsSpace(spaces[i])
    requires t == [] || !IsSpace(t[0])
    ensures SkipSpaces(spaces + t) == t
  {
    if spaces == [] {
      LeftUnit(t);
    } else {
      ConcatHead(spaces, t);
      SpacesSkipped(spaces[1..], t);
    }
  }

  lemma {:induction false} DigitsTaken(ds: Bytes, rest: Bytes)
    requires AllDigits(ds) && (rest == [] || !IsDigit(rest[0]))
    ensures LeadingDigits(ds + rest) == ds
  {
    if ds == [] {
      LeftUnit(rest);
    } else {
      ConcatHead(ds, rest);
      DigitsTaken(ds[1..], rest);
      HeadTail(ds);
    }
  }

  /** The number a numeral stands for, read by `stoi`. */
  lemma NumeralReads(x: Numeral)
    requires NumeralOk(x)
    ensures AllDigits(x.digits)
    ensures var m: int := DigitsValue(x.digits);
      var n := if x.sign == ['-' as int] then -m else m;
      Stoi(TextOf(x)) == (if FitsInt(n) then Ok(n) else Err(OutOfRange)) && (forall k :: NumberIs(x, k) <==> k == n)
  {
    hide IsDecimal, DigitsValue, Denotes, SkipSpaces, LeadingDigits;
    DecimalDigits(x.digits);
    if x.rest != [] {
      DecimalDigit(x.rest[0]);
    }
    var t := x.sign + (x.digits + x.rest);
    if x.sign == [] {
      LeftUnit(x.digits + x.rest);
    }
    ConcatHead(x.digits, x.rest);
    SpacesSkipped(x.spaces, t);
    DigitsTaken(x.digits, x.rest);
    if x.sign != [] {
      PartsOfConcat(x.sign, x.digits + x.rest);
    }
    var m: int := DigitsValue(x.digits);
    forall k
      ensures NumberIs(x, k) <==> k == if x.sign == ['-' as int] then -m else m
    {
      var a: nat := if k < 0 then -k else k;
      DigitsDenote(x.digits, a);
    }
  }

  lemma {:induction false} SpacesOf(s: Bytes) returns (spaces: Bytes)
    ensures s == spaces + SkipSpaces(s) && forall i :: 0 <= i < |spaces| ==> IsSpace(spaces[i])
    ensures SkipSpaces(s) == [] || !IsSpace(SkipSpaces(s)[0])
  {
    if s != [] && IsSpace(s[0]) {
      var more := SpacesOf(s[1..]);
      spaces := [s[0]] + more;
      HeadTail(s);
      Assoc([s[0]], more, SkipSpaces(s));
    } else {
      spaces := [];
    }
  }

  /** A text in which `stoi` finds digits is a numeral. */
  lemma NumeralOf(s: Bytes) returns (x: Numeral)
    requires Stoi(s) != Err(InvalidArgument)
    ensures NumeralOk(x) && TextOf(x) == s
  {
    hide IsDecimal, DigitsValue, LeadingDigits, SkipSpaces, NumeralOk, IsSpace;
    var spaces := SpacesOf(s);
    var t := SkipSpaces(s);
    var signed := t != [] && (t[0] == MINUS || t[0] == PLUS);
    var u := if signed then t[1..] else t;
    var digits := LeadingDigits(u);
    var rest := u[|digits|..];
    x := Numeral(spaces, if signed then [t[0]] else [], digits, rest);
    PartsAreNumeral(x, u);
    Sequences.Parts(u, |digits|);
    assert u[..|digits|] == digits;
    if signed {
      HeadTail(t);
    } else {
      LeftUnit(u);
    }
  }

  lemma PartsAreNumeral(x: Numeral, u: Bytes)
    requires forall i :: 0 <= i < |x.spaces| ==> IsSpace(x.spaces[i])
    requires x.sign == [] || x.sign == [PLUS] || x.sign == [MINUS]
    requires x.digits == LeadingDigits(u) != [] && x.rest == u[|x.digits|..]
    ensures NumeralOk(x)
  {
    hide IsDecimal, LeadingDigits;
    DecimalDigits(x.digits);
    if x.rest != [] {
      DecimalDigit(x.rest[0]);
    }
  }

  /** For every text: `stoi` returns the number of the numeral that the text is, if it fits, and otherwise throws. */
  lemma StoiIs(s: Bytes, n: int)
    ensures Stoi(s) == Ok(n) <==> FitsInt(n) && exists x :: Reads(s, x, n)
    ensures Stoi(s) == Err(OutOfRange) <==> exists x, k :: Reads(s, x, k) && !FitsInt(k)
    ensures Stoi(s) == Err(InvalidArgument) <==> !exists x :: NumeralOk(x) && TextOf(x) == s
  {
    hide Stoi, NumeralOk, TextOf, NumberIs, DigitsValue;
    forall x | NumeralOk(x) && TextOf(x) == s
      ensures Stoi(s) != Err(InvalidArgument)
      ensures forall k :: NumberIs(x, k) ==> Stoi(s) == if FitsInt(k) then Ok(k) else Err(OutOfRange)
    {
      NumeralReads(x);
    }
    if Stoi(s) != Err(InvalidArgument) {
      var x := NumeralOf(s);
      NumeralReads(x);
      var m: int := DigitsValue(x.digits);
      var k := if x.sign == ['-' as int] then -m else m;
      assert Reads(s, x, k);
    }
  }
}

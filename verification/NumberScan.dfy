/** The number states of the scanner: maximal munch over the grammar of numbers. */
module NumberScan {
  import opened ByteStrings
  import opened Wrappers
  import opened Sequences
  import opened Decimals
  import opened Scanner

  const DOT: Byte := 0x2e

  predicate DigitAt(s: Bytes, i: nat)
  {
    i < |s| && IsDigit(s[i])
  }

  predicate SignAt(s: Bytes, i: nat)
  {
    i < |s| && (s[i] == PLUS || s[i] == MINUS)
  }

  /** The end of the digits from a position on. */
  function Digits(s: Bytes, i: nat): (e: nat)
    requires i <= |s|
    ensures i <= e <= |s|
    ensures forall k :: i <= k < e ==> IsDigit(s[k])
    ensures !DigitAt(s, e)
    decreases |s| - i
  {
    if DigitAt(s, i) then Digits(s, i + 1) else i
  }

  /** The end of an exponent that may start at `q`. */
  function AfterFraction(s: Bytes, q: nat): (e: nat)
    requires q <= |s|
    ensures q <= e <= |s|
  {
    if q < |s| && IsExponent(s[q]) && DigitAt(s, q + 1) then Digits(s, q + 1)
    else if q < |s| && IsExponent(s[q]) && SignAt(s, q + 1) && DigitAt(s, q + 2) then Digits(s, q + 2)
    else q
  }

  function FractionEnd(s: Bytes, q: nat): (e: nat)
    requires q <= |s|
    ensures q <= e <= |s|
  {
    if q < |s| && s[q] == DOT && DigitAt(s, q + 1) then Digits(s, q + 1) else q
  }

  /** The end of the digits in front of fraction and exponent. */
  function IntegerEnd(s: Bytes, a: nat): (e: nat)
    requires DigitAt(s, a)
    ensures a < e <= |s|
  {
    if s[a] == ZERO then a + 1 else Digits(s, a)
  }

  /** The end of the longest number at a position, if there is one. */
  function NumberEnd(s: Bytes, i: nat): (r: Option<nat>)
    requires i < |s|
    ensures r.Some? ==> i < r.value <= |s|
  {
    var a := if s[i] == MINUS then i + 1 else i;
    if DigitAt(s, a) then Some(AfterFraction(s, FractionEnd(s, IntegerEnd(s, a)))) else None
  }

  // ---------- the labels ----------

  function Number(start: nat, end: nat): Token
  {
    Token(ValueNumber, start, end)
  }

  /** Label 52: digits of an exponent. */
  lemma {:induction false} ExponentDigits(s: Bytes, start: nat, p: nat, m: Marker)
    requires p < |s| && m.position <= p
    ensures Run(s, start, 52, p, Some(m)) == Number(start, Digits(s, p + 1))
    decreases |s| - p
  {
    hide Run;
    Turn(s, start, 52, p, Some(m), Delta(52, Peek(s, p + 1)));
    if DigitAt(s, p + 1) {
      ExponentDigits(s, start, p + 1, m);
    }
  }

  /** Label 44: behind the letter of an exponent; it may have to go back in front of it. */
  lemma Exponent(s: Bytes, start: nat, p: nat)
    requires p < |s| && IsExponent(s[p])
    ensures Run(s, start, 44, p, Some(Marker(p, ValueNumber))) == Number(start, AfterFraction(s, p))
  {
    hide Run;
    var m := Marker(p, ValueNumber);
    Turn(s, start, 44, p, Some(m), Delta(44, Peek(s, p + 1)));
    if DigitAt(s, p + 1) {
      ExponentDigits(s, start, p + 1, m);
    } else if SignAt(s, p + 1) {
      Turn(s, start, 51, p + 1, Some(m), Delta(51, Peek(s, p + 2)));
      if DigitAt(s, p + 2) {
        ExponentDigits(s, start, p + 2, m);
      }
    }
  }

  /** Label 49: digits of a fraction. */
  lemma {:induction false} FractionDigits(s: Bytes, start: nat, p: nat, m: Option<Marker>)
    requires p < |s| && (m.Some? ==> m.value.position <= p)
    ensures Run(s, start, 49, p, m) == Number(start, AfterFraction(s, Digits(s, p + 1)))
    decreases |s| - p
  {
    hide Run;
    Turn(s, start, 49, p, m, Delta(49, Peek(s, p + 1)));
    if DigitAt(s, p + 1) {
      FractionDigits(s, start, p + 1, Some(Marker(p + 1, ValueNumber)));
    } else if p + 1 < |s| && IsExponent(s[p + 1]) {
      Exponent(s, start, p + 1);
    }
  }

  /** Label 43: behind the dot. */
  lemma Dot(s: Bytes, start: nat, p: nat)
    requires p < |s| && s[p] == DOT
    ensures Run(s, start, 43, p, Some(Marker(p, ValueNumber))) == Number(start, AfterFraction(s, FractionEnd(s, p)))
  {
    hide Run;
    Turn(s, start, 43, p, Some(Marker(p, ValueNumber)), Delta(43, Peek(s, p + 1)));
    if DigitAt(s, p + 1) {
      FractionDigits(s, start, p + 1, Some(Marker(p, ValueNumber)));
    }
  }

  /** Labels 13 and 15 at the last digit of the integer part. */
  lemma AfterInteger(s: Bytes, start: nat, l: nat, p: nat, m: Option<Marker>)
    requires l == 13 || (l == 15 && !DigitAt(s, p + 1))
    requires p < |s| && (m.Some? ==> m.value.position <= p)
    ensures Run(s, start, l, p, m) == Number(start, AfterFraction(s, FractionEnd(s, p + 1)))
  {
    hide Run;
    Turn(s, start, l, p, m, Delta(l, Peek(s, p + 1)));
    if p + 1 < |s| && s[p + 1] == DOT {
      Dot(s, start, p + 1);
    } else if p + 1 < |s| && IsExponent(s[p + 1]) {
      Exponent(s, start, p + 1);
    }
  }

  /** Label 15: digits of the integer part. */
  lemma {:induction false} IntegerDigits(s: Bytes, start: nat, p: nat, m: Option<Marker>)
    requires p < |s| && (m.Some? ==> m.value.position <= p)
    ensures Run(s, start, 15, p, m) == Number(start, AfterFraction(s, FractionEnd(s, Digits(s, p + 1))))
    decreases |s| - p
  {
    hide AfterFraction, FractionEnd, Run;
    Turn(s, start, 15, p, m, Delta(15, Peek(s, p + 1)));
    if DigitAt(s, p + 1) {
      IntegerDigits(s, start, p + 1, Some(Marker(p + 1, ValueNumber)));
    } else {
      AfterInteger(s, start, 15, p, m);
    }
  }

  /** `scan` at a digit or a minus sign. */
  lemma ScanNumber(s: Bytes, i: nat)
    requires i < |s| && (s[i] == MINUS || IsDigit(s[i]))
    ensures Scan(s, i) ==
      if NumberEnd(s, i).Some? then Number(i, NumberEnd(s, i).value) else Token(ParseError, i, i + 1)
  {
    hide AfterFraction, FractionEnd, Run;
    var a := if s[i] == MINUS then i + 1 else i;
    if s[i] == MINUS {
      Turn(s, i, 12, i, None, Delta(12, Peek(s, a)));
    }
    if DigitAt(s, a) {
      if s[a] == ZERO {
        AfterInteger(s, i, 13, a, None);
      } else {
        IntegerDigits(s, i, a, None);
      }
    }
  }

  // ---------- the grammar ----------

  /** The parts of a number (RFC 7159, section 6). */
  datatype Parts = Parts(minus: bool, integer: Bytes, fraction: Bytes, exponent: Bytes)

  predicate SomeDigits(ds: Bytes)
  {
    ds != [] && AllDigits(ds)
  }

  predicate IntegerOk(ds: Bytes)
  {
    SomeDigits(ds) && (ds[0] == ZERO ==> |ds| == 1)
  }

  predicate FractionOk(t: Bytes)
  {
    t == [] || (t[0] == DOT && SomeDigits(t[1..]))
  }

  predicate ExponentOk(t: Bytes)
  {
    t == [] || (IsExponent(t[0]) && (SomeDigits(t[1..]) || (SignAt(t, 1) && SomeDigits(t[2..]))))
  }

  predicate PartsOk(n: Parts)
  {
    IntegerOk(n.integer) && FractionOk(n.fraction) && ExponentOk(n.exponent)
  }

  function Sign(minus: bool): Bytes
  {
    if minus then [MINUS] else []
  }

  function Render(n: Parts): Bytes
  {
    Sign(n.minus) + (n.integer + (n.fraction + n.exponent))
  }

  lemma SliceDigits(s: Bytes, i: nat, e: nat)
    requires i < e <= |s| && forall k :: i <= k < e ==> IsDigit(s[k])
    ensures SomeDigits(s[i..e])
  {}

  /** What the scanner takes for a number is one. */
  lemma ScannedIsNumber(s: Bytes, i: nat) returns (n: Parts)
    requires i < |s| && NumberEnd(s, i).Some?
    ensures PartsOk(n) && Render(n) == s[i..NumberEnd(s, i).value]
  {
    hide PartsOk, AfterFraction, FractionEnd, IntegerEnd, Digits;
    var minus := s[i] == MINUS;
    var a := if minus then i + 1 else i;
    var b := IntegerEnd(s, a);
    var c := FractionEnd(s, b);
    var e := AfterFraction(s, c);
    n := Parts(minus, s[a..b], s[b..c], s[c..e]);
    PartsAreOk(s, a, b, c, e, n);
    Cut(s, b, c, e);
    Cut(s, a, b, e);
    if minus {
      Cut(s, i, a, e);
      assert s[i..a] == [MINUS];
    } else {
      LeftUnit(s[a..e]);
    }
  }

  lemma PartsAreOk(s: Bytes, a: nat, b: nat, c: nat, e: nat, n: Parts)
    requires DigitAt(s, a) && b == IntegerEnd(s, a) && c == FractionEnd(s, b) && e == AfterFraction(s, c)
    requires n == Parts(n.minus, s[a..b], s[b..c], s[c..e])
    ensures PartsOk(n)
  {
    hide FractionOk, ExponentOk, FractionEnd, AfterFraction;
    SliceDigits(s, a, b);
    FractionPart(s, b);
    ExponentPart(s, c);
  }

  lemma FractionPart(s: Bytes, b: nat)
    requires b <= |s|
    ensures FractionOk(s[b..FractionEnd(s, b)])
  {
    var c := FractionEnd(s, b);
    if c > b {
      SliceDigits(s, b + 1, c);
      assert s[b..c][1..] == s[b + 1..c];
    }
  }

  lemma ExponentPart(s: Bytes, c: nat)
    requires c <= |s|
    ensures ExponentOk(s[c..AfterFraction(s, c)])
  {
    var e := AfterFraction(s, c);
    if e > c {
      if DigitAt(s, c + 1) {
        SliceDigits(s, c + 1, e);
        assert s[c..e][1..] == s[c + 1..e];
      } else {
        SliceDigits(s, c + 2, e);
        assert s[c..e][2..] == s[c + 2..e];
      }
    }
  }

  // ---------- maximal munch ----------

  lemma {:induction false} DigitsCover(s: Bytes, i: nat, k: nat)
    requires i + k <= |s| && forall j :: i <= j < i + k ==> IsDigit(s[j])
    ensures Digits(s, i) >= i + k
    decreases k
  {
    if k > 0 {
      DigitsCover(s, i + 1, k - 1);
    }
  }

  lemma HoldsDigits(s: Bytes, i: nat, ds: Bytes)
    requires Holds(s, i, ds) && SomeDigits(ds)
    ensures DigitAt(s, i) && Digits(s, i) >= i + |ds|
  {
    assert forall j :: i <= j < i + |ds| ==> s[j] == s[i..i + |ds|][j - i];
    DigitsCover(s, i, |ds|);
  }

  lemma ExponentCovers(s: Bytes, c: nat, t: Bytes)
    requires Holds(s, c, t) && ExponentOk(t)
    ensures AfterFraction(s, c) >= c + |t|
  {
    hide Digits;
    if t != [] {
      HoldsFirst(s, c, t);
      if SomeDigits(t[1..]) {
        HeadTail(t);
        HoldsParts(s, c, [t[0]], t[1..]);
        HoldsDigits(s, c + 1, t[1..]);
      } else {
        Parts2(t);
        HoldsParts(s, c, [t[0], t[1]], t[2..]);
        assert s[c..c + 2][1] == s[c + 1];
        HoldsDigits(s, c + 2, t[2..]);
      }
    }
  }

  lemma Parts2(t: Bytes)
    requires |t| >= 2
    ensures t == [t[0], t[1]] + t[2..]
  {}

  /** An exponent that follows `y`, when the scanner's fraction ends at `c`. */
  lemma TailCovers(s: Bytes, y: nat, c: nat, t: Bytes)
    requires y <= c <= |s| && Holds(s, y, t) && ExponentOk(t)
    requires c == y || s[y] == DOT || IsDigit(s[y])
    ensures AfterFraction(s, c) >= y + |t|
  {
    hide AfterFraction;
    if t != [] {
      HoldsFirst(s, y, t);
      ExponentCovers(s, y, t);
    }
  }

  /** A fraction and an exponent that follow `x`, when the scanner's integer part ends at `b`. */
  lemma FractionCovers(s: Bytes, x: nat, b: nat, f: Bytes, t: Bytes)
    requires x <= b <= |s| && Holds(s, x, f + t) && FractionOk(f) && ExponentOk(t)
    requires b == x || IsDigit(s[x])
    ensures AfterFraction(s, FractionEnd(s, b)) >= x + |f| + |t|
  {
    hide AfterFraction, ExponentOk, Digits;
    HoldsParts(s, x, f, t);
    var c := FractionEnd(s, b);
    if f == [] {
      TailCovers(s, x, c, t);
    } else {
      HoldsFirst(s, x, f);
      HeadTail(f);
      HoldsParts(s, x, [f[0]], f[1..]);
      HoldsDigits(s, x + 1, f[1..]);
      TailCovers(s, x + |f|, c, t);
    }
  }

  /** No number that starts at a position is longer than the one the scanner takes. */
  lemma ScannedIsLongest(s: Bytes, i: nat, n: Parts)
    requires PartsOk(n) && Holds(s, i, Render(n))
    ensures i < |s| && NumberEnd(s, i).Some? && i + |Render(n)| <= NumberEnd(s, i).value
  {
    hide AfterFraction, FractionEnd, FractionOk, ExponentOk, Digits;
    var rest := n.fraction + n.exponent;
    var a := i + |Sign(n.minus)|;
    HoldsParts(s, i, Sign(n.minus), n.integer + rest);
    HoldsParts(s, a, n.integer, rest);
    HoldsFirst(s, a, n.integer);
    if n.minus {
      HoldsFirst(s, i, Sign(n.minus));
    }
    var x := a + |n.integer|;
    IntegerCovers(s, a, n.integer);
    FractionCovers(s, x, IntegerEnd(s, a), n.fraction, n.exponent);
  }

  lemma IntegerCovers(s: Bytes, a: nat, ds: Bytes)
    requires IntegerOk(ds) && Holds(s, a, ds)
    ensures DigitAt(s, a) && a + |ds| <= IntegerEnd(s, a)
    ensures a + |ds| == IntegerEnd(s, a) || DigitAt(s, a + |ds|)
  {
    HoldsFirst(s, a, ds);
    HoldsDigits(s, a, ds);
  }
}

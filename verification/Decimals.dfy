/** `std::to_string` of an unsigned number and `std::stoi`. */
module Decimals {
  import opened ByteStrings
  import opened Wrappers

  const ZERO: Byte := '0' as int
  const MINUS: Byte := '-' as int
  const PLUS: Byte := '+' as int
  const INT32_MIN := -0x8000_0000
  const INT32_MAX := 0x7fff_ffff

  predicate IsDigit(c: Byte)
  {
    ZERO <= c <= ZERO + 9
  }

  predicate AllDigits(s: Bytes)
  {
    forall i | 0 <= i < |s| :: IsDigit(s[i])
  }

  function ToDecimal(n: nat): (r: Bytes)
    ensures r != [] && AllDigits(r)
    ensures |r| == 1 <==> n < 10
    ensures r[0] == ZERO <==> n == 0
  {
    if n < 10 then [ZERO + n] else ToDecimal(n / 10) + [ZERO + n % 10]
  }

  function DigitsValue(ds: Bytes): nat
    requires AllDigits(ds)
  {
    if ds == [] then 0 else
    var high: nat := DigitsValue(ds[..|ds| - 1]);
    high * 10 + (ds[|ds| - 1] - ZERO)
  }

  lemma {:induction false} DecimalValue(n: nat)
    ensures DigitsValue(ToDecimal(n)) == n
  {
    var r := ToDecimal(n);
    if n < 10 {
      assert r[..0] == [];
      assert DigitsValue(r[..0]) == 0;
    } else {
      DecimalValue(n / 10);
      assert r[..|r| - 1] == ToDecimal(n / 10);
    }
  }

  /** `isspace` in the C locale. */
  predicate IsSpace(c: Byte)
  {
    9 <= c <= 13 || c == 32
  }

  function SkipSpaces(s: Bytes): Bytes
  {
    if s != [] && IsSpace(s[0]) then SkipSpaces(s[1..]) else s
  }

  /** The longest prefix of decimal digits. */
  function LeadingDigits(s: Bytes): (r: Bytes)
    ensures AllDigits(r) && r <= s
    ensures |r| < |s| ==> !IsDigit(s[|r|])
  {
    if s != [] && IsDigit(s[0]) then [s[0]] + LeadingDigits(s[1..]) else []
  }

  /**
   `std::stoi`: leading white space and one sign are skipped, whatever follows the digits is ignored;
   it throws when there is no digit or the number does not fit into an int.
   */
  function Stoi(s: Bytes): Result<int>
  {
    var t := SkipSpaces(s);
    var signed := t != [] && (t[0] == MINUS || t[0] == PLUS);
    var digits := LeadingDigits(if signed then t[1..] else t);
    if digits == [] then Err(InvalidArgument) else
    var magnitude: int := DigitsValue(digits);
    var n := if signed && t[0] == MINUS then -magnitude else magnitude;
    if INT32_MIN <= n <= INT32_MAX then Ok(n) else Err(OutOfRange)
  }

  lemma {:induction false} DigitsLead(ds: Bytes)
    requires AllDigits(ds)
    ensures LeadingDigits(ds) == ds
  {
    if ds != [] {
      DigitsLead(ds[1..]);
    }
  }

  /** `stoi(to_string(n)) == n` exactly for the numbers that fit into an int; the others throw. */
  lemma StoiOfDecimal(n: nat)
    ensures Stoi(ToDecimal(n)) == if n <= INT32_MAX then Ok(n) else Err(OutOfRange)
  {
    var r := ToDecimal(n);
    assert IsDigit(r[0]);
    DigitsLead(r);
    DecimalValue(n);
  }

  lemma NoDigitsBehindMinus()
    ensures Stoi([MINUS]) == Err(InvalidArgument)
  {
    var t: Bytes := [MINUS];
    assert t[1..] == [];
  }
}

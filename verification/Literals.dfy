/** Characters and texts written as such, for the statements that compare formats with their definitions. */
module Literals {
  import opened ByteStrings

  /** The bytes of an ASCII text. */
  predicate Spells(b: Bytes, text: string)
  {
    |b| == |text| && forall i | 0 <= i < |b| :: b[i] == text[i] as int
  }

  predicate OneOf(c: Byte, text: string)
  {
    exists i | 0 <= i < |text| :: c == text[i] as int
  }

  /** A hexadecimal digit, in either case, and its value. */
  predicate HexIs(c: Byte, n: int)
  {
    0 <= n < 16 && (c == "0123456789abcdef"[n] as int || c == "0123456789ABCDEF"[n] as int)
  }

  predicate DecimalIs(c: Byte, n: int)
  {
    0 <= n < 10 && c == "0123456789"[n] as int
  }
}

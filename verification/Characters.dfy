/** ASCII characters as code units, and hexadecimal digits as one reads them. */
module Characters {
  import opened Bytes

  predicate IsASCII(s: string) {
    forall i | 0 <= i < |s| :: s[i] < 128 as char
  }

  function Unit(c: char): byte
    requires c < 128 as char
  {
    c as int
  }

  function ASCII(s: string): (t: Text)
    requires IsASCII(s)
    ensures |t| == |s| && forall i | 0 <= i < |s| :: t[i] == s[i] as int
  {
    if |s| == 0 then [] else [Unit(s[0])] + ASCII(s[1..])
  }

  const LOWER_DIGITS := "0123456789abcdef"
  const UPPER_DIGITS := "0123456789ABCDEF"

  /** A hexadecimal digit of either case and its value. */
  predicate IsHex(c: byte, v: nat) {
    v < 16 && (c == LOWER_DIGITS[v] as int || c == UPPER_DIGITS[v] as int)
  }

  /** The values of hexadecimal digits are the usual ones. */
  lemma HexMeaning(c: byte, v: nat)
    ensures HexValue(c) == v <==> IsHex(c, v)
  {
    if v < 16 {
      assert LOWER_DIGITS[v] as int == if v < 10 then ZERO + v else 0x61 + v - 10;
      assert UPPER_DIGITS[v] as int == if v < 10 then ZERO + v else 0x41 + v - 10;
    }
  }

  lemma NotHex(c: byte)
    ensures HexValue(c) < 0 <==> forall v: nat :: !IsHex(c, v)
  {
    if HexValue(c) >= 0 {
      HexMeaning(c, HexValue(c));
    }
    forall v: nat | HexValue(c) < 0 ensures !IsHex(c, v) {
      HexMeaning(c, v);
    }
  }

  /** The writers use the upper-case digits. */
  lemma HexDigitIsUpper(v: nat)
    requires v < 16
    ensures HexDigit(v) == UPPER_DIGITS[v] as int
  {
  }
}

/** Byte strings as the streams deliver them: code units, NUL at the end of the text, decimal and hexadecimal digits. */
module Bytes {
  type byte = b: int | 0 <= b < 256
  type Text = seq<byte>

  const TWO_32: int := 0x1_0000_0000
  const TWO_64: int := 0x1_0000_0000_0000_0000

  const NUL: byte := 0
  const BACKSPACE: byte := 0x08
  const TAB: byte := 0x09
  const NEWLINE: byte := 0x0A
  const FORMFEED: byte := 0x0C
  const RETURN: byte := 0x0D
  const SPACE: byte := 0x20
  const QUOTE: byte := 0x22
  const HASH: byte := 0x23
  const PERCENT: byte := 0x25
  const STAR: byte := 0x2A
  const PLUS: byte := 0x2B
  const COMMA: byte := 0x2C
  const MINUS: byte := 0x2D
  const PERIOD: byte := 0x2E
  const SLASH: byte := 0x2F
  const ZERO: byte := 0x30
  const ONE: byte := 0x31
  const NINE: byte := 0x39
  const COLON: byte := 0x3A
  const UPPER_E: byte := 0x45
  const LBRACKET: byte := 0x5B
  const BACKSLASH: byte := 0x5C
  const RBRACKET: byte := 0x5D
  const LOWER_B: byte := 0x62
  const LOWER_E: byte := 0x65
  const LOWER_F: byte := 0x66
  const LOWER_N: byte := 0x6E
  const LOWER_R: byte := 0x72
  const LOWER_T: byte := 0x74
  const LOWER_U: byte := 0x75
  const LBRACE: byte := 0x7B
  const RBRACE: byte := 0x7D
  const TILDE: byte := 0x7E

  /** The code unit under a cursor; past the end a stream keeps answering NUL. */
  function Peek(s: Text, p: nat): byte {
    if p < |s| then s[p] else NUL
  }

  predicate IsDigit(c: byte) {
    ZERO <= c <= NINE
  }

  predicate IsWhitespace(c: byte) {
    c == SPACE || c == NEWLINE || c == RETURN || c == TAB
  }

  /** Upper-case hexadecimal digit of a nibble. */
  function HexDigit(n: nat): byte
    requires n < 16
  {
    if n < 10 then ZERO + n else 0x41 + (n - 10)
  }

  /** Value of a hexadecimal digit of either case, or -1. */
  function HexValue(c: byte): int {
    if ZERO <= c <= NINE then c - ZERO
    else if 0x41 <= c <= 0x46 then c - 0x41 + 10
    else if 0x61 <= c <= 0x66 then c - 0x61 + 10
    else -1
  }

  /** Decimal digits of a natural number without leading zeros, as the integer printers write them. */
  function Decimal(n: nat): (r: Text)
    ensures |r| > 0
  {
    if n < 10 then [ZERO + n] else Decimal(n / 10) + [ZERO + n % 10]
  }

  predicate AllDigits(s: Text) {
    forall i | 0 <= i < |s| :: IsDigit(s[i])
  }

  /** The number a digit string denotes. */
  function DecimalValue(s: Text): nat
    requires AllDigits(s)
  {
    if |s| == 0 then 0 else DecimalValue(s[..|s| - 1]) * 10 + (s[|s| - 1] - ZERO)
  }

  /** Printing and reading decimals are inverse, and no number but zero starts with the digit 0. */
  lemma {:induction false} DecimalInverse(n: nat)
    ensures AllDigits(Decimal(n))
    ensures DecimalValue(Decimal(n)) == n
    ensures Decimal(n)[0] == ZERO <==> n == 0
    ensures n >= 10 ==> |Decimal(n)| > 1
  {
    if n >= 10 {
      DecimalInverse(n / 10);
      var d := Decimal(n / 10);
      assert Decimal(n)[..|d|] == d;
    }
  }

  lemma {:induction false} DecimalInjective(m: nat, n: nat)
    requires Decimal(m) == Decimal(n)
    ensures m == n
  {
    DecimalInverse(m);
    DecimalInverse(n);
  }

  // ------------------------------------------------- texts inside texts

  /** The text t stands in s at p. */
  predicate At(s: Text, p: nat, t: Text) {
    p + |t| <= |s| && s[p..p + |t|] == t
  }

  lemma AtSplit(s: Text, p: nat, a: Text, b: Text)
    requires At(s, p, a + b)
    ensures At(s, p, a) && At(s, p + |a|, b)
  {
    var t := s[p..p + |a| + |b|];
    assert t[..|a|] == a && t[|a|..] == b;
    assert t[..|a|] == s[p..p + |a|];
    assert t[|a|..] == s[p + |a|..p + |a| + |b|];
  }

  lemma AtEnd(s: Text, p: nat, t: Text)
    requires At(s, p, t)
    ensures p + |t| <= |s|
  {
  }

  /** A text in three pieces and what follows it. */
  lemma AtPieces(s: Text, p: nat, a: Text, b: Text, c: Text, tail: Text)
    requires At(s, p, a + b + c + tail)
    ensures At(s, p, a) && At(s, p + |a|, b) && At(s, p + |a| + |b|, c + tail)
  {
    hide At;
    assert a + b + c + tail == a + (b + (c + tail));
    AtSplit(s, p, a, b + (c + tail));
    AtSplit(s, p + |a|, b, c + tail);
  }

  lemma AtUnit(s: Text, p: nat, t: Text, i: nat)
    requires At(s, p, t) && i < |t|
    ensures p + i < |s| && s[p + i] == t[i]
  {
    assert s[p..p + |t|][i] == s[p + i];
  }

  lemma AtNothing(s: Text, p: nat)
    requires p <= |s|
    ensures At(s, p, [])
  {
    assert s[p..p] == [];
  }
}

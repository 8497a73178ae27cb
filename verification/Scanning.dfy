/** The scanners both parsers share: blanks and comments, literals, strings and numbers. */
module Scanning {
  import opened Bytes
  import opened Encodings
  import opened Events

  // ------------------------------------------------- blanks and comments

  function SkipWhitespace(s: Text, p: nat): (q: nat)
    requires p <= |s|
    ensures p <= q <= |s|
    decreases |s| - p
  {
    if IsWhitespace(Peek(s, p)) then SkipWhitespace(s, p + 1) else p
  }

  function SkipWhitespaceAndComments(flags: Flags, s: Text, p: nat, evs: seq<Event>): (r: Outcome)
    requires p <= |s|
    ensures r.evs == evs
    ensures r.Ok? ==> p <= r.pos <= |s|
    ensures r.Fail? ==> p < r.off <= |s|
  {
    var q := SkipWhitespace(s, p);
    if flags.comments then SkipComments(s, q, evs) else Ok(q, evs)
  }

  function SkipComments(s: Text, p: nat, evs: seq<Event>): (r: Outcome)
    requires p <= |s|
    ensures r.evs == evs
    ensures r.Ok? ==> p <= r.pos <= |s|
    ensures r.Fail? ==> p < r.off <= |s|
    decreases |s| - p
  {
    if Peek(s, p) != SLASH then Ok(p, evs)
    else if Peek(s, p + 1) == STAR then
      var (q, e) :- SkipBlockComment(s, p + 2, evs);
      SkipComments(s, SkipWhitespace(s, q), e)
    else if Peek(s, p + 1) == SLASH then
      SkipComments(s, SkipWhitespace(s, SkipLineComment(s, p + 2)), evs)
    else Fail(UnspecificSyntaxError, p + 1, evs)
  }

  function SkipBlockComment(s: Text, p: nat, evs: seq<Event>): (r: Outcome)
    requires p <= |s|
    ensures r.evs == evs
    ensures r.Ok? ==> p <= r.pos <= |s|
    ensures r.Fail? ==> p <= r.off <= |s|
    decreases |s| - p
  {
    if Peek(s, p) == NUL then Fail(UnspecificSyntaxError, p, evs)
    else if Peek(s, p) == STAR && Peek(s, p + 1) == SLASH then Ok(p + 2, evs)
    else SkipBlockComment(s, p + 1, evs)
  }

  function SkipLineComment(s: Text, p: nat): (q: nat)
    requires p <= |s|
    ensures p <= q <= |s|
    decreases |s| - p
  {
    if Peek(s, p) == NUL then p
    else if Peek(s, p) == NEWLINE then p + 1
    else SkipLineComment(s, p + 1)
  }

  // ------------------------------------------------------------- literals

  const ULL: Text := [LOWER_U, 0x6C, 0x6C]
  const RUE: Text := [LOWER_R, LOWER_U, LOWER_E]
  const ALSE: Text := [0x61, 0x6C, 0x73, LOWER_E]

  /** The rest of a literal, consumed unit by unit; a mismatch is reported where it happens. */
  function MatchLiteral(s: Text, p: nat, rest: Text, evs: seq<Event>): (r: Outcome)
    requires p <= |s| && NUL !in rest
    ensures r.evs == evs
    ensures r.Ok? ==> r.pos == p + |rest| <= |s|
    decreases |rest|
  {
    if |rest| == 0 then Ok(p, evs)
    else if Peek(s, p) == rest[0] then MatchLiteral(s, p + 1, rest[1..], evs)
    else Fail(ValueInvalid, p, evs)
  }

  function ParseLiteral(s: Text, p: nat, rest: Text, ev: Event, evs: seq<Event>): (r: Outcome)
    requires p < |s| && NUL !in rest
    ensures r.Ok? ==> p < r.pos <= |s|
  {
    var (q, e) :- MatchLiteral(s, p + 1, rest, evs);
    Ok(q, e + [ev])
  }

  // -------------------------------------------------------------- strings

  /** The escape table: what a unit after a backslash stands for, 0 for none. */
  function Escape(c: byte): byte {
    if c == QUOTE || c == SLASH || c == BACKSLASH then c
    else if c == LOWER_B then BACKSPACE
    else if c == LOWER_F then FORMFEED
    else if c == LOWER_N then NEWLINE
    else if c == LOWER_R then RETURN
    else if c == LOWER_T then TAB
    else 0
  }

  /** Four hexadecimal digits, or -1. */
  function Hex4(s: Text, p: nat): (r: int)
    ensures -1 <= r <= 0xFFFF
    ensures r >= 0 ==> p + 4 <= |s|
  {
    var a, b, c, d := HexValue(Peek(s, p)), HexValue(Peek(s, p + 1)), HexValue(Peek(s, p + 2)), HexValue(Peek(s, p + 3));
    if a < 0 || b < 0 || c < 0 || d < 0 then -1 else ((a * 16 + b) * 16 + c) * 16 + d
  }

  function FromPair(hi: int, lo: int): int {
    (hi - 0xD800) * 0x400 + (lo - 0xDC00) + 0x10000
  }

  datatype UnicodeEscape = CodePoint(code: nat, pos: nat) | BadEscape(error: ErrorCode)

  /** The \u escape whose backslash stands at p: a lead surrogate needs a trail; a lone trail surrogate passes. */
  function ScanUnicode(s: Text, p: nat): (r: UnicodeEscape)
    requires p < |s|
    ensures r.CodePoint? ==> p < r.pos <= |s| && r.code <= 0x10FFFF
  {
    var hi := Hex4(s, p + 2);
    if hi < 0 then BadEscape(StringUnicodeEscapeInvalidHex)
    else if hi < 0xD800 || hi > 0xDBFF then CodePoint(hi, p + 6)
    else if Peek(s, p + 6) != BACKSLASH || Peek(s, p + 7) != LOWER_U then BadEscape(StringUnicodeSurrogateInvalid)
    else
      var lo := Hex4(s, p + 8);
      if lo < 0 then BadEscape(StringUnicodeEscapeInvalidHex)
      else if lo < 0xDC00 || lo > 0xDFFF then BadEscape(StringUnicodeSurrogateInvalid)
      else CodePoint(FromPair(hi, lo), p + 12)
  }

  datatype StringScan = Scanned(pos: nat, str: Text) | BadString(code: ErrorCode, off: nat)

  /** The body of a string from p on, after str has been decoded. */
  function ScanString(s: Text, p: nat, str: Text): (r: StringScan)
    requires p <= |s|
    ensures r.Scanned? ==> p < r.pos <= |s|
    decreases |s| - p
  {
    var c := Peek(s, p);
    if c == BACKSLASH then
      var e := Peek(s, p + 1);
      if Escape(e) != 0 then ScanString(s, p + 2, str + [Escape(e)])
      else if e != LOWER_U then BadString(StringEscapeInvalid, p)
      else
        match ScanUnicode(s, p)
        case CodePoint(code, q) => ScanString(s, q, str + Encode(code))
        case BadEscape(error) => BadString(error, p)
    else if c == QUOTE then Scanned(p + 1, str)
    else if c < 0x20 then
      BadString(if c == NUL then StringMissQuotationMark else StringInvalidEncoding, p)
    else ScanString(s, p + 1, str + [c])
  }

  function ParseString(s: Text, p: nat, isKey: bool, evs: seq<Event>): (r: Outcome)
    requires p < |s|
    ensures r.Ok? ==> p < r.pos <= |s|
  {
    match ScanString(s, p + 1, [])
    case Scanned(q, str) => Ok(q, evs + [if isKey then KeyEvent(str) else StringEvent(str)])
    case BadString(code, off) => Fail(code, off, evs)
  }

  // -------------------------------------------------------------- numbers

  /** Where an integer accumulator of a given width stops: at limit with a next digit above last. */
  datatype Width = Width(limit: nat, last: nat)
  {
    function Max(): nat {
      limit * 10 + last
    }
  }

  function Width32(minus: bool): Width {
    if minus then Width(214748364, 8) else Width(429496729, 5)
  }

  function Width64(minus: bool): Width {
    if minus then Width(0x0CCC_CCCC_CCCC_CCCC, 8) else Width(0x1999_9999_9999_9999, 5)
  }

  datatype Digits = Digits(pos: nat, value: nat, significant: nat, stopped: bool)

  /**
   * The digit loop of one width. The precondition travels with the recursion, so no intermediate
   * value ever leaves the width.
   */
  function ScanDigits(w: Width, s: Text, p: nat, value: nat, significant: nat): (r: Digits)
    requires p <= |s| && w.last < 10 && value <= w.Max()
    ensures p <= r.pos <= |s| && r.value <= w.Max()
    ensures !r.stopped ==> !IsDigit(Peek(s, r.pos))
    decreases |s| - p
  {
    var c := Peek(s, p);
    if !IsDigit(c) then Digits(p, value, significant, false)
    else if value >= w.limit && (value != w.limit || c - ZERO > w.last) then Digits(p, value, significant, true)
    else ScanDigits(w, s, p + 1, value * 10 + (c - ZERO), significant + 1)
  }

  function SkipDigits(s: Text, p: nat): (q: nat)
    requires p <= |s|
    ensures p <= q <= |s| && !IsDigit(Peek(s, q))
    decreases |s| - p
  {
    if IsDigit(Peek(s, p)) then SkipDigits(s, p + 1) else p
  }

  datatype Representation = Narrow | Wide | Floating

  datatype IntPart = IntPart(pos: nat, value: nat, significant: nat, repr: Representation) | NoInt(off: nat)

  /** Integer part: 32-bit accumulator, then 64-bit, then digits that only a double can hold. */
  function ScanInt(s: Text, p: nat, minus: bool): (r: IntPart)
    requires p <= |s|
    ensures r.IntPart? ==> p < r.pos <= |s|
    ensures r.IntPart? && r.repr.Narrow? ==> r.value <= Width32(minus).Max()
    ensures r.IntPart? ==> r.value <= Width64(minus).Max()
  {
    var c := Peek(s, p);
    if c == ZERO then IntPart(p + 1, 0, 0, Narrow)
    else if !IsDigit(c) then NoInt(p)
    else
      var a := ScanDigits(Width32(minus), s, p + 1, c - ZERO, 0);
      if !a.stopped then IntPart(a.pos, a.value, a.significant, Narrow)
      else
        var b := ScanDigits(Width64(minus), s, a.pos, a.value, a.significant);
        if !b.stopped then IntPart(b.pos, b.value, b.significant, Wide)
        else IntPart(SkipDigits(s, b.pos), b.value, b.significant, Floating)
  }

  const MAX_EXACT: nat := 0x1F_FFFF_FFFF_FFFF

  datatype Fraction = Fraction(pos: nat, value: nat, expFrac: int, significant: nat)

  /** Fraction digits folded into the 64-bit significand while it is at most 2^53 - 1. */
  function ScanFractionExact(s: Text, f: Fraction): (r: Fraction)
    requires f.pos <= |s|
    ensures f.pos <= r.pos <= |s| && r.expFrac == f.expFrac - (r.pos - f.pos)
    decreases |s| - f.pos
  {
    var c := Peek(s, f.pos);
    if !IsDigit(c) || f.value > MAX_EXACT then f
    else
      var v := f.value * 10 + (c - ZERO);
      ScanFractionExact(s, Fraction(f.pos + 1, v, f.expFrac - 1, f.significant + (if v != 0 then 1 else 0)))
  }

  /** Fraction digits folded into the double; nonzero says whether the double is above 0. */
  function ScanFractionDouble(s: Text, f: Fraction, nonzero: bool): (r: Fraction)
    requires f.pos <= |s|
    ensures f.pos <= r.pos <= |s| && f.expFrac - (r.pos - f.pos) <= r.expFrac <= f.expFrac
    ensures !IsDigit(Peek(s, r.pos))
    decreases |s| - f.pos
  {
    var c := Peek(s, f.pos);
    if !IsDigit(c) then f
    else if f.significant < 17 then
      var nz := nonzero || c != ZERO;
      ScanFractionDouble(s, f.(pos := f.pos + 1, expFrac := f.expFrac - 1,
                               significant := f.significant + (if nz then 1 else 0)), nz)
    else ScanFractionDouble(s, f.(pos := f.pos + 1), nonzero)
  }

  function ScanFraction(s: Text, i: IntPart): (r: Fraction)
    requires i.IntPart? && i.pos < |s|
    ensures i.pos < r.pos <= |s| && -(r.pos - i.pos - 1) <= r.expFrac <= 0
  {
    var f := Fraction(i.pos + 1, i.value, 0, i.significant);
    var g := if i.repr.Floating? then f else ScanFractionExact(s, f);
    ScanFractionDouble(s, g, g.value != 0)
  }

  datatype Exponent = Exponent(pos: nat, exp: int) | BadExponent(code: ErrorCode, off: nat)

  /** Exponent digits after a minus: past maxExp the remaining digits are only consumed. */
  function ScanNegativeExponent(s: Text, p: nat, exp: nat, maxExp: int): (r: Exponent)
    requires p <= |s|
    ensures r.Exponent? && p <= r.pos <= |s| && r.exp >= 0
    decreases |s| - p
  {
    var c := Peek(s, p);
    if !IsDigit(c) then Exponent(p, exp)
    else
      var e := exp * 10 + (c - ZERO);
      if e > maxExp then Exponent(SkipDigits(s, p + 1), e) else ScanNegativeExponent(s, p + 1, e, maxExp)
  }

  /** Exponent digits without a minus: past maxExp the number is too big. */
  function ScanPositiveExponent(s: Text, p: nat, exp: nat, maxExp: int, start: nat): (r: Exponent)
    requires p <= |s|
    ensures r.Exponent? ==> p <= r.pos <= |s| && r.exp >= 0
    decreases |s| - p
  {
    var c := Peek(s, p);
    if !IsDigit(c) then Exponent(p, exp)
    else
      var e := exp * 10 + (c - ZERO);
      if e > maxExp then BadExponent(NumberTooBig, start) else ScanPositiveExponent(s, p + 1, e, maxExp, start)
  }

  function MaxNegativeExponent(expFrac: int): int {
    (expFrac + 2147483639) / 10
  }

  function MaxPositiveExponent(expFrac: int): int {
    308 - expFrac
  }

  /** An exponent whose e or E stands at p. */
  function ScanExponent(s: Text, p: nat, expFrac: int, start: nat): (r: Exponent)
    requires p < |s|
    ensures r.Exponent? ==> p < r.pos <= |s|
  {
    var sign := Peek(s, p + 1);
    var q := if sign == PLUS || sign == MINUS then p + 2 else p + 1;
    var c := Peek(s, q);
    if !IsDigit(c) then BadExponent(NumberMissExponent, q)
    else if sign == MINUS then
      var e := ScanNegativeExponent(s, q + 1, c - ZERO, MaxNegativeExponent(expFrac));
      e.(exp := -e.exp)
    else ScanPositiveExponent(s, q + 1, c - ZERO, MaxPositiveExponent(expFrac), start)
  }

  function IntegerEvent(minus: bool, repr: Representation, value: int): Event {
    if repr.Wide? then (if minus then Int64Event(-value) else Uint64Event(value))
    else if minus then IntEvent(-value) else UintEvent(value)
  }

  function FinishDouble(flags: Flags, s: Text, p: nat, q: nat, evs: seq<Event>): Outcome
    requires p <= q <= |s|
  {
    if flags.tooBig(s[p..q]) then Fail(NumberTooBig, p, evs) else Ok(q, evs + [DoubleEvent(s[p..q])])
  }

  function ParseNumber(flags: Flags, s: Text, p: nat, evs: seq<Event>): (r: Outcome)
    requires p <= |s|
    ensures r.Ok? ==> p < r.pos <= |s|
  {
    var minus := Peek(s, p) == MINUS;
    match ScanInt(s, if minus then p + 1 else p, minus)
    case NoInt(off) => Fail(ValueInvalid, off, evs)
    case IntPart(q, value, significant, repr) =>
      var i := IntPart(q, value, significant, repr);
      if Peek(s, q) == PERIOD then
        if !IsDigit(Peek(s, q + 1)) then Fail(NumberMissFraction, q + 1, evs)
        else
          var f := ScanFraction(s, i);
          FinishNumber(flags, s, p, f.pos, f.expFrac, evs)
      else if repr.Floating? || IsExponentMark(Peek(s, q)) then FinishNumber(flags, s, p, q, 0, evs)
      else Ok(q, evs + [IntegerEvent(minus, repr, value)])
  }

  predicate IsExponentMark(c: byte) {
    c == LOWER_E || c == UPPER_E
  }

  /** The optional exponent at q, and the double that ends the number. */
  function FinishNumber(flags: Flags, s: Text, p: nat, q: nat, expFrac: int, evs: seq<Event>): (r: Outcome)
    requires p < q <= |s|
    ensures r.Ok? ==> p < r.pos <= |s|
  {
    if IsExponentMark(Peek(s, q)) then
      match ScanExponent(s, q, expFrac, p)
      case Exponent(x, _) => FinishDouble(flags, s, p, x, evs)
      case BadExponent(code, off) => Fail(code, off, evs)
    else FinishDouble(flags, s, p, q, evs)
  }
}

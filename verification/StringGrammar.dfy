/** Which texts are strings, and what they stand for: section 7 of RFC 8259, with one addition. */
module StringGrammar {
  import opened Bytes
  import opened Characters
  import opened Encodings
  import opened Events
  import opened Scanning
  import opened DecodedStrings

  /** A piece of the body of a string; a short escape is given by its place in the table. */
  datatype Piece =
    | Itself(c: byte)
    | ShortEscape(k: nat)
    | CodeUnit(digits: Text, n: nat)
    | SurrogatePair(high: Text, hi: nat, low: Text, lo: nat)

  /** The letters that may follow a backslash, and what each stands for. */
  const LETTERS := "\"\\/bfnrt"
  const MEANINGS := "\"\\/\U{8}\U{C}\n\r\t"

  /** Four hexadecimal digits that denote a number. */
  predicate Denotes4(digits: Text, n: nat) {
    && |digits| == 4 && n < 0x1_0000
    && IsHex(digits[0], n / 4096) && IsHex(digits[1], n / 256 % 16)
    && IsHex(digits[2], n / 16 % 16) && IsHex(digits[3], n % 16)
  }

  /** No lead surrogate stands alone; a lone trail surrogate is the one addition to the standard. */
  predicate Legal(piece: Piece) {
    match piece
    case Itself(c) => c >= 0x20 && c != Unit('\"') && c != Unit('\\')
    case ShortEscape(k) => k < |LETTERS|
    case CodeUnit(digits, n) => Denotes4(digits, n) && !(0xD800 <= n < 0xDC00)
    case SurrogatePair(high, hi, low, lo) =>
      Denotes4(high, hi) && 0xD800 <= hi < 0xDC00 && Denotes4(low, lo) && 0xDC00 <= lo < 0xE000
  }

  function Spelled(piece: Piece): (t: Text)
    requires Legal(piece)
    ensures |t| > 0
  {
    match piece
    case Itself(c) => [c]
    case ShortEscape(k) => [Unit('\\'), LETTERS[k] as int]
    case CodeUnit(digits, _) => [Unit('\\'), Unit('u')] + digits
    case SurrogatePair(high, _, low, _) => [Unit('\\'), Unit('u')] + high + [Unit('\\'), Unit('u')] + low
  }

  function Meaning(piece: Piece): Text
    requires Legal(piece)
  {
    match piece
    case Itself(c) => [c]
    case ShortEscape(k) => [MEANINGS[k] as int]
    case CodeUnit(_, n) => Encode(n)
    case SurrogatePair(_, hi, _, lo) => Encode(0x1_0000 + 0x400 * (hi - 0xD800) + (lo - 0xDC00))
  }

  predicate AllLegal(pieces: seq<Piece>) {
    forall i | 0 <= i < |pieces| :: Legal(pieces[i])
  }

  function Body(pieces: seq<Piece>): Text
    requires AllLegal(pieces)
  {
    if |pieces| == 0 then [] else assert Legal(pieces[0]); Spelled(pieces[0]) + Body(pieces[1..])
  }

  function Value(pieces: seq<Piece>): Text
    requires AllLegal(pieces)
  {
    if |pieces| == 0 then [] else assert Legal(pieces[0]); Meaning(pieces[0]) + Value(pieces[1..])
  }

  /** The body of a string stands for some bytes. */
  ghost predicate StandsFor(body: Text, str: Text) {
    exists pieces: seq<Piece> :: AllLegal(pieces) && Body(pieces) == body && Value(pieces) == str
  }

  // ------------------------------------------------------ pieces are scanned

  lemma HexDigits4(a: nat, b: nat, c: nat, d: nat)
    requires a < 16 && b < 16 && c < 16 && d < 16
    ensures var n := ((a * 16 + b) * 16 + c) * 16 + d;
            n < 0x1_0000 && n / 4096 == a && n / 256 % 16 == b && n / 16 % 16 == c && n % 16 == d
  {
  }

  lemma SameNumber(n: nat)
    requires n < 0x1_0000
    ensures n / 4096 < 16 && n == ((n / 4096 * 16 + n / 256 % 16) * 16 + n / 16 % 16) * 16 + n % 16
  {
  }

  lemma HexBelow16(c: byte)
    ensures -1 <= HexValue(c) < 16
  {
  }

  /** Four digits whose values are those of the number, and the number computed from their values. */
  lemma DigitsDenote(digits: Text, n: nat)
    requires |digits| == 4
    ensures Denotes4(digits, n) <==>
            n < 0x1_0000 && HexValue(digits[0]) == n / 4096 && HexValue(digits[1]) == n / 256 % 16
            && HexValue(digits[2]) == n / 16 % 16 && HexValue(digits[3]) == n % 16
  {
    hide HexValue, IsHex;
    HexMeaning(digits[0], n / 4096);
    HexMeaning(digits[1], n / 256 % 16);
    HexMeaning(digits[2], n / 16 % 16);
    HexMeaning(digits[3], n % 16);
  }

  lemma Hex4Digits(s: Text, p: nat, digits: Text)
    requires p + 4 <= |s| && digits == s[p..p + 4]
    ensures digits[0] == Peek(s, p) && digits[1] == Peek(s, p + 1) && digits[2] == Peek(s, p + 2)
            && digits[3] == Peek(s, p + 3)
  {
  }

  lemma Hex4Meaning(s: Text, p: nat, n: nat)
    ensures Hex4(s, p) == n <==> p + 4 <= |s| && Denotes4(s[p..p + 4], n)
  {
    hide HexValue, Denotes4;
    if p + 4 <= |s| {
      var digits := s[p..p + 4];
      Hex4Digits(s, p, digits);
      DigitsDenote(digits, n);
      var a, b, c, d := HexValue(digits[0]), HexValue(digits[1]), HexValue(digits[2]), HexValue(digits[3]);
      HexBelow16(digits[0]);
      HexBelow16(digits[1]);
      HexBelow16(digits[2]);
      HexBelow16(digits[3]);
      if a >= 0 && b >= 0 && c >= 0 && d >= 0 {
        HexDigits4(a, b, c, d);
      }
      if n < 0x1_0000 {
        SameNumber(n);
      }
    }
  }

  /** The escape table is that of the letters and their meanings. */
  lemma EscapeMeaning(c: byte)
    ensures Escape(c) != 0 <==> exists k | 0 <= k < |LETTERS| :: LETTERS[k] as int == c
    ensures forall k | 0 <= k < |LETTERS| :: LETTERS[k] as int == c ==> Escape(c) == MEANINGS[k] as int != 0
  {
    assert LETTERS[0] as int == QUOTE && LETTERS[1] as int == BACKSLASH && LETTERS[2] as int == SLASH;
    assert LETTERS[3] as int == LOWER_B && LETTERS[4] as int == LOWER_F && LETTERS[5] as int == LOWER_N;
    assert LETTERS[6] as int == LOWER_R && LETTERS[7] as int == LOWER_T;
  }

  /** A legal piece is scanned as what it stands for. */
  lemma PieceScans(s: Text, p: nat, piece: Piece, str: Text)
    requires Legal(piece) && At(s, p, Spelled(piece))
    ensures p + |Spelled(piece)| <= |s|
    ensures ScanString(s, p, str) == ScanString(s, p + |Spelled(piece)|, str + Meaning(piece))
  {
    hide ScanString, ScanUnicode, Encode, At, IsHex;
    AtUnit(s, p, Spelled(piece), 0);
    AtEnd(s, p, Spelled(piece));
    match piece
    case Itself(c) => ItselfScans(s, p, c, str);
    case ShortEscape(k) => ShortScans(s, p, k, str);
    case CodeUnit(digits, n) =>
      UnitScans(s, p, digits, n);
      EscapeScans(s, p, n, p + 6, str);
    case SurrogatePair(high, hi, low, lo) =>
      PairScans(s, p, high, hi, low, lo);
      EscapeScans(s, p, 0x1_0000 + 0x400 * (hi - 0xD800) + (lo - 0xDC00), p + 12, str);
  }

  lemma ItselfScans(s: Text, p: nat, c: byte, str: Text)
    requires p < |s| && s[p] == c && Legal(Itself(c))
    ensures ScanString(s, p, str) == ScanString(s, p + 1, str + [c])
  {
  }

  lemma ShortScans(s: Text, p: nat, k: nat, str: Text)
    requires k < |LETTERS| && At(s, p, [Unit('\\'), LETTERS[k] as int])
    ensures p + 2 <= |s| && ScanString(s, p, str) == ScanString(s, p + 2, str + [MEANINGS[k] as int])
  {
    var t := [Unit('\\'), LETTERS[k] as int];
    AtUnit(s, p, t, 0);
    AtUnit(s, p, t, 1);
    EscapeMeaning(LETTERS[k] as int);
    hide Escape;
  }

  lemma EscapeScans(s: Text, p: nat, code: nat, q: nat, str: Text)
    requires p < |s| && s[p] == BACKSLASH && Peek(s, p + 1) == LOWER_U && ScanUnicode(s, p) == CodePoint(code, q)
    ensures q <= |s| && code <= 0x10FFFF && ScanString(s, p, str) == ScanString(s, q, str + Encode(code))
  {
    NoLetterU();
    hide Escape, ScanUnicode, Encode;
  }

  lemma NoLetterU()
    ensures Escape(LOWER_U) == 0
  {
  }

  lemma UnitScans(s: Text, p: nat, digits: Text, n: nat)
    requires Legal(CodeUnit(digits, n)) && At(s, p, Spelled(CodeUnit(digits, n)))
    ensures p < |s| && Peek(s, p + 1) == LOWER_U && ScanUnicode(s, p) == CodePoint(n, p + 6)
  {
    AtUnit(s, p, Spelled(CodeUnit(digits, n)), 1);
    var t := Spelled(CodeUnit(digits, n));
    assert t == t[..2] + digits;
    AtSplit(s, p, t[..2], digits);
    Hex4Meaning(s, p + 2, n);
    hide Hex4;
  }

  lemma PairScans(s: Text, p: nat, high: Text, hi: nat, low: Text, lo: nat)
    requires Legal(SurrogatePair(high, hi, low, lo)) && At(s, p, Spelled(SurrogatePair(high, hi, low, lo)))
    ensures p + 12 <= |s| && Peek(s, p + 1) == LOWER_U
    ensures ScanUnicode(s, p) == CodePoint(0x1_0000 + 0x400 * (hi - 0xD800) + (lo - 0xDC00), p + 12)
  {
    var t, mark := Spelled(SurrogatePair(high, hi, low, lo)), [Unit('\\'), Unit('u')];
    AtUnit(s, p, t, 1);
    AtUnit(s, p, t, 6);
    AtUnit(s, p, t, 7);
    assert t == mark + high + (mark + low);
    AtSplit(s, p, mark + high, mark + low);
    AtSplit(s, p, mark, high);
    AtSplit(s, p + 6, mark, low);
    Hex4Meaning(s, p + 2, hi);
    Hex4Meaning(s, p + 8, lo);
    hide Hex4;
  }

  // ----------------------------------------------- what is scanned is pieces

  /** The next piece of a string that is scanned. */
  lemma NextPiece(s: Text, p: nat) returns (piece: Piece)
    requires p <= |s| && ScanString(s, p, []).Scanned? && Peek(s, p) != QUOTE
    ensures Legal(piece) && At(s, p, Spelled(piece))
  {
    var c, e := Peek(s, p), Peek(s, p + 1);
    if c != BACKSLASH {
      piece := Itself(c);
      assert s[p..p + 1] == [c];
    } else if Escape(e) != 0 {
      EscapeMeaning(e);
      var k :| 0 <= k < |LETTERS| && LETTERS[k] as int == e;
      piece := ShortEscape(k);
      assert s[p..p + 2] == [c, e];
    } else {
      piece := UnicodePiece(s, p);
    }
  }

  lemma UnicodePiece(s: Text, p: nat) returns (piece: Piece)
    requires p < |s| && s[p] == BACKSLASH && Peek(s, p + 1) == LOWER_U && ScanUnicode(s, p).CodePoint?
    ensures Legal(piece) && At(s, p, Spelled(piece))
  {
    hide Hex4, Denotes4;
    var hi := Hex4(s, p + 2);
    Hex4Meaning(s, p + 2, hi);
    var high := s[p + 2..p + 6];
    if 0xD800 <= hi <= 0xDBFF {
      var lo := Hex4(s, p + 8);
      Hex4Meaning(s, p + 8, lo);
      var low := s[p + 8..p + 12];
      piece := SurrogatePair(high, hi, low, lo);
      assert s[p..p + 12] == [s[p], s[p + 1]] + high + [s[p + 6], s[p + 7]] + low;
    } else {
      piece := CodeUnit(high, hi);
      assert s[p..p + 6] == [s[p], s[p + 1]] + high;
    }
  }

  lemma NoPieces()
    ensures Body([]) == [] && Value([]) == []
  {
  }

  lemma ConsPiece(piece: Piece, rest: seq<Piece>)
    requires Legal(piece) && AllLegal(rest)
    ensures AllLegal([piece] + rest)
    ensures Body([piece] + rest) == Spelled(piece) + Body(rest) && Value([piece] + rest) == Meaning(piece) + Value(rest)
  {
    hide Legal, Spelled, Meaning;
    assert ([piece] + rest)[1..] == rest;
  }

  /** A piece is taken from a string that is scanned, and the rest of it is scanned. */
  lemma PieceTaken(s: Text, p: nat, piece: Piece)
    requires p <= |s| && ScanString(s, p, []).Scanned? && Legal(piece) && At(s, p, Spelled(piece))
    ensures var q := p + |Spelled(piece)|;
            && p < q <= |s| && s[p..q] == Spelled(piece) && ScanString(s, q, []).Scanned?
            && ScanString(s, p, []) == Scanned(ScanString(s, q, []).pos, Meaning(piece) + ScanString(s, q, []).str)
  {
    hide ScanString, Legal, Spelled, Meaning;
    PieceScans(s, p, piece, []);
    var m := Meaning(piece);
    assert [] + m + [] == m && [] + m == m;
    ScanPrefix(s, p + |Spelled(piece)|, m, []);
  }

  lemma {:induction false} ScannedPieces(s: Text, p: nat) returns (pieces: seq<Piece>)
    requires p <= |s| && ScanString(s, p, []).Scanned?
    ensures AllLegal(pieces)
    ensures var r := ScanString(s, p, []);
            p < r.pos <= |s| && s[r.pos - 1] == QUOTE && Body(pieces) == s[p..r.pos - 1] && Value(pieces) == r.str
    decreases |s| - p
  {
    hide Legal, Spelled, Meaning, Body, Value;
    if Peek(s, p) == QUOTE {
      pieces := [];
      NoPieces();
    } else {
      hide ScanString;
      var piece := NextPiece(s, p);
      PieceTaken(s, p, piece);
      var q := p + |Spelled(piece)|;
      var rest := ScannedPieces(s, q);
      pieces := [piece] + rest;
      ConsPiece(piece, rest);
      var end := ScanString(s, q, []).pos - 1;
      assert s[p..end] == s[p..q] + s[q..end];
    }
  }

  /** Legal pieces are scanned as what they stand for, whatever comes behind them. */
  lemma {:induction false} PiecesLead(s: Text, p: nat, pieces: seq<Piece>, str: Text)
    requires p <= |s| && AllLegal(pieces) && At(s, p, Body(pieces))
    ensures p + |Body(pieces)| <= |s|
    ensures ScanString(s, p, str) == ScanString(s, p + |Body(pieces)|, str + Value(pieces))
    decreases |pieces|
  {
    hide Spelled, Meaning, Legal, At, ScanString;
    if |pieces| == 0 {
      assert str + [] == str;
    } else {
      assert Legal(pieces[0]);
      var t, m := Spelled(pieces[0]), Meaning(pieces[0]);
      AtSplit(s, p, t, Body(pieces[1..]));
      PieceScans(s, p, pieces[0], str);
      PiecesLead(s, p + |t|, pieces[1..], str + m);
      assert str + m + Value(pieces[1..]) == str + (m + Value(pieces[1..]));
    }
  }

  lemma PiecesScan(s: Text, p: nat, pieces: seq<Piece>, str: Text)
    requires AllLegal(pieces) && At(s, p, Body(pieces)) && Peek(s, p + |Body(pieces)|) == QUOTE
    ensures p <= |s| && ScanString(s, p, str) == Scanned(p + |Body(pieces)| + 1, str + Value(pieces))
  {
    hide Body, Value;
    AtEnd(s, p, Body(pieces));
    PiecesLead(s, p, pieces, str);
  }

  /**
   * A string is read as str up to q if and only if a quote ends it there and what is before that quote stands for str.
   */
  lemma StringsRead(s: Text, p: nat, q: nat, str: Text)
    requires p <= |s|
    ensures ScanString(s, p, []) == Scanned(q, str) <==>
            p < q <= |s| && s[q - 1] == Unit('\"') && StandsFor(s[p..q - 1], str)
  {
    hide ScanString, Body, Value, Legal;
    if ScanString(s, p, []) == Scanned(q, str) {
      var pieces := ScannedPieces(s, p);
    }
    if p < q <= |s| && s[q - 1] == Unit('\"') && StandsFor(s[p..q - 1], str) {
      var pieces: seq<Piece> :| AllLegal(pieces) && Body(pieces) == s[p..q - 1] && Value(pieces) == str;
      PiecesScan(s, p, pieces, []);
      assert [] + str == str;
    }
  }

  // --------------------------------------------------------- refused texts

  predicate NumberAt(s: Text, p: nat, n: nat) {
    p + 4 <= |s| && Denotes4(s[p..p + 4], n)
  }

  ghost predicate NoNumberAt(s: Text, p: nat) {
    forall n: nat :: !NumberAt(s, p, n)
  }

  predicate EscapesNumber(s: Text, p: nat) {
    Peek(s, p) == Unit('\\') && Peek(s, p + 1) == Unit('u')
  }

  ghost predicate LeadAt(s: Text, p: nat) {
    exists hi: nat :: 0xD800 <= hi < 0xDC00 && NumberAt(s, p, hi)
  }

  ghost predicate NoTrailAt(s: Text, p: nat) {
    exists lo: nat :: !(0xDC00 <= lo < 0xE000) && NumberAt(s, p, lo)
  }

  /** The digits of an escape, or those of the trail it needs, are none. */
  ghost predicate WrongDigits(s: Text, p: nat) {
    NoNumberAt(s, p + 2) || (LeadAt(s, p + 2) && EscapesNumber(s, p + 6) && NoNumberAt(s, p + 8))
  }

  /** The escape of a lead surrogate has no other escape behind it, or that of something else than a trail. */
  ghost predicate LoneLead(s: Text, p: nat) {
    LeadAt(s, p + 2) && (!EscapesNumber(s, p + 6) || NoTrailAt(s, p + 8))
  }

  lemma NumberThere(s: Text, p: nat)
    ensures NoNumberAt(s, p) <==> Hex4(s, p) < 0
    ensures forall m: nat :: NumberAt(s, p, m) <==> Hex4(s, p) == m
  {
    hide Hex4, Denotes4;
    forall m: nat ensures NumberAt(s, p, m) <==> Hex4(s, p) == m {
      Hex4Meaning(s, p, m);
    }
    if Hex4(s, p) >= 0 {
      assert NumberAt(s, p, Hex4(s, p));
    }
  }

  lemma UnicodeRefused(s: Text, p: nat)
    requires p < |s|
    ensures WrongDigits(s, p) ==> ScanUnicode(s, p) == BadEscape(StringUnicodeEscapeInvalidHex)
    ensures LoneLead(s, p) ==> ScanUnicode(s, p) == BadEscape(StringUnicodeSurrogateInvalid)
  {
    hide Hex4, NumberAt, NoNumberAt;
    NumberThere(s, p + 2);
    NumberThere(s, p + 8);
  }

  /** A string is refused behind pieces that are legal, at the unit that begins no such piece and is no quote. */
  lemma StringRefused(s: Text, p: nat, pieces: seq<Piece>)
    requires p <= |s| && AllLegal(pieces) && At(s, p, Body(pieces))
    ensures var q, r := p + |Body(pieces)|, ScanString(s, p, []);
            var c, e := Peek(s, q), Peek(s, q + 1);
            && (c == NUL ==> r == BadString(StringMissQuotationMark, q))
            && (0 < c < 0x20 ==> r == BadString(StringInvalidEncoding, q))
            && (c == Unit('\\') && e != Unit('u') && (forall k | 0 <= k < |LETTERS| :: LETTERS[k] as int != e) ==>
                  r == BadString(StringEscapeInvalid, q))
            && (EscapesNumber(s, q) && WrongDigits(s, q) ==> r == BadString(StringUnicodeEscapeInvalidHex, q))
            && (EscapesNumber(s, q) && LoneLead(s, q) ==> r == BadString(StringUnicodeSurrogateInvalid, q))
  {
    hide Body, Value, WrongDigits, LoneLead, ScanUnicode;
    PiecesLead(s, p, pieces, []);
    var q := p + |Body(pieces)|;
    EscapeMeaning(Peek(s, q + 1));
    NoLetterU();
    if q < |s| {
      UnicodeRefused(s, q);
    }
  }

  /** A solidus may be escaped. */
  lemma EscapedSolidus()
    ensures StandsFor(ASCII("\\/"), ASCII("/"))
  {
    var pieces := [ShortEscape(2)];
    assert pieces[1..] == [];
    assert Body(pieces) == ASCII("\\/") && Value(pieces) == ASCII("/");
  }
}

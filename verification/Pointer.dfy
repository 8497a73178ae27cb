/** JSON pointers: parsing the string and the URI fragment form into tokens, and printing tokens back. */
module Pointer {
  import opened Bytes
  import opened Encodings

  const INVALID_INDEX: nat := 0xFFFF_FFFF

  /** A name and the array index it stands for, if any. */
  datatype Token = Token(name: Text, index: nat)

  datatype PointerError = TokenMustBeginWithSolidus | InvalidEscape | InvalidPercentEncoding | CharacterMustPercentEncode

  datatype Parsed = Tokens(tokens: seq<Token>) | PointerError(code: PointerError, off: nat)

  // ---------------------------------------------------------------- indices

  /** The 32-bit accumulation of a digit string, which stops only where the sum becomes smaller. */
  function Accumulate(name: Text, j: nat, n: nat): nat
    requires j <= |name| && AllDigits(name) && n < TWO_32
    ensures Accumulate(name, j, n) < TWO_32
    decreases |name| - j
  {
    if j == |name| then n
    else
      var m := (n * 10 + (name[j] - ZERO)) % TWO_32;
      if m < n then INVALID_INDEX else Accumulate(name, j + 1, m)
  }

  /** Names that may be array indices: digits without a leading zero. */
  predicate IsIndexName(name: Text) {
    |name| > 0 && AllDigits(name) && (|name| > 1 ==> name[0] != ZERO)
  }

  /** The index of a token is a function of its name. */
  function IndexOf(name: Text): (r: nat)
    ensures r < TWO_32
  {
    if IsIndexName(name) then Accumulate(name, 0, 0) else INVALID_INDEX
  }

  predicate Canonical(t: Token) {
    t.index == IndexOf(t.name)
  }

  // ---------------------------------------------------------------- parsing

  predicate NeedPercentEncode(c: byte) {
    !(ZERO <= c <= NINE || 0x41 <= c <= 0x5A || 0x61 <= c <= 0x7A || c == MINUS || c == PERIOD || c == 0x5F || c == TILDE)
  }

  /** The bytes of the percent triplets that follow each other from i on. */
  function Percents(s: Text, i: nat): (r: Text)
    requires i <= |s|
    ensures i + 3 * |r| <= |s|
    decreases |s| - i
  {
    if i + 3 <= |s| && s[i] == PERCENT && HexValue(s[i + 1]) >= 0 && HexValue(s[i + 2]) >= 0 then
      [HexValue(s[i + 1]) * 16 + HexValue(s[i + 2])] + Percents(s, i + 3)
    else []
  }

  /** What the next piece of a name contributes: some bytes, and where it ends. */
  datatype Piece = Units(bytes: Text, next: nat) | BadPiece(code: PointerError, off: nat)

  /** A unit already read, of which a tilde starts an escape. */
  function Unescape(s: Text, c: byte, i: nat): Piece {
    if c != TILDE then Units([c], i)
    else if Peek(s, i) == ZERO then Units([TILDE], i + 1)
    else if Peek(s, i) == ONE then Units([SLASH], i + 1)
    else BadPiece(InvalidEscape, i)
  }

  function NextPiece(s: Text, i: nat, uri: bool): (r: Piece)
    requires i < |s| && s[i] != SLASH
    ensures r.Units? ==> 0 < |r.bytes| && i + |r.bytes| <= r.next <= |s|
  {
    if uri && s[i] == PERCENT then
      var run := Percents(s, i);
      if |run| == 0 || !Decode(run, 0).ok then BadPiece(InvalidPercentEncoding, i)
      else
        var n := Decode(run, 0).pos;
        AcceptedInside(run, 0);
        if n == 1 then Unescape(s, run[0], i + 3) else Units(run[..n], i + 3 * n)
    else if uri && NeedPercentEncode(s[i]) then BadPiece(CharacterMustPercentEncode, i)
    else Unescape(s, s[i], i + 1)
  }

  datatype NameScan = Name(name: Text, next: nat) | BadName(code: PointerError, off: nat)

  /** The rest of a name from i on, up to the next solidus. */
  function ScanName(s: Text, i: nat, uri: bool, name: Text): (r: NameScan)
    requires i <= |s|
    ensures r.Name? ==> i <= r.next <= |s| && (r.next == |s| || s[r.next] == SLASH)
    decreases |s| - i
  {
    if i == |s| || s[i] == SLASH then Name(name, i)
    else
      match NextPiece(s, i, uri)
      case Units(bytes, next) => ScanName(s, next, uri, name + bytes)
      case BadPiece(code, off) => BadName(code, off)
  }

  function ScanTokens(s: Text, i: nat, uri: bool, tokens: seq<Token>): Parsed
    requires i <= |s| && (i == |s| || s[i] == SLASH)
    decreases |s| - i
  {
    if i == |s| then Tokens(tokens)
    else
      match ScanName(s, i + 1, uri, [])
      case Name(name, next) => ScanTokens(s, next, uri, tokens + [Token(name, IndexOf(name))])
      case BadName(code, off) => PointerError(code, off)
  }

  function Parse(s: Text): Parsed {
    var uri := Peek(s, 0) == HASH;
    var i := if uri then 1 else 0;
    if i != |s| && s[i] != SLASH then PointerError(TokenMustBeginWithSolidus, i) else ScanTokens(s, i, uri, [])
  }

  // --------------------------------------------------------------- printing

  function Percent(bytes: Text): (r: Text)
    ensures |r| == 3 * |bytes|
  {
    if |bytes| == 0 then []
    else [PERCENT, HexDigit(bytes[0] / 16), HexDigit(bytes[0] % 16)] + Percent(bytes[1..])
  }

  datatype Printed = Printed(ok: bool, text: Text)

  /** The text of a name from unit j on; the fragment form stops at the first malformed sequence. */
  function NameText(uri: bool, name: Text, j: nat): Printed
    requires j <= |name|
    decreases |name| - j
  {
    if j == |name| then Printed(true, [])
    else if name[j] == TILDE then Before([TILDE, ZERO], NameText(uri, name, j + 1))
    else if name[j] == SLASH then Before([TILDE, ONE], NameText(uri, name, j + 1))
    else if uri && NeedPercentEncode(name[j]) then
      var d := Decode(name, j);
      if !d.ok then Printed(false, [])
      else
        AcceptedInside(name, j);
        Before(Percent(name[j..d.pos]), NameText(uri, name, d.pos))
    else Before([name[j]], NameText(uri, name, j + 1))
  }

  function Before(text: Text, rest: Printed): Printed {
    Printed(rest.ok, text + rest.text)
  }

  /** The text of the tokens from the k-th on. */
  function TokensText(uri: bool, tokens: seq<Token>, k: nat): Printed
    requires k <= |tokens|
    decreases |tokens| - k
  {
    if k == |tokens| then Printed(true, [])
    else
      var name := NameText(uri, tokens[k].name, 0);
      if !name.ok then Printed(false, [SLASH] + name.text)
      else Before([SLASH] + name.text, TokensText(uri, tokens, k + 1))
  }

  function Stringify(uri: bool, tokens: seq<Token>): Printed {
    if uri then Before([HASH], TokensText(true, tokens, 0)) else TokensText(false, tokens, 0)
  }

  // ------------------------------------------------------------- properties

  /** Every token that is parsed has the index of its name. */
  lemma {:induction false} ParsedCanonical(s: Text, i: nat, uri: bool, tokens: seq<Token>)
    requires i <= |s| && (i == |s| || s[i] == SLASH) && forall t | t in tokens :: Canonical(t)
    ensures ScanTokens(s, i, uri, tokens).Tokens? ==> forall t | t in ScanTokens(s, i, uri, tokens).tokens :: Canonical(t)
    decreases |s| - i
  {
    hide ScanName, IndexOf;
    if i < |s| {
      var scan := ScanName(s, i + 1, uri, []);
      if scan.Name? {
        ParsedCanonical(s, scan.next, uri, tokens + [Token(scan.name, IndexOf(scan.name))]);
      }
    }
  }

  lemma OneMoreDigit(name: Text, j: nat)
    requires AllDigits(name) && j < |name|
    ensures DecimalValue(name[..j + 1]) == DecimalValue(name[..j]) * 10 + (name[j] - ZERO)
  {
    assert name[..j + 1][..j] == name[..j];
  }

  /** Without overflow the accumulation is the value of the digits. */
  lemma {:induction false} AccumulateSmall(name: Text, j: nat, k: nat)
    requires AllDigits(name) && j <= k <= |name| && DecimalValue(name[..k]) < TWO_32
    ensures DecimalValue(name[..j]) <= DecimalValue(name[..k])
    ensures Accumulate(name, j, DecimalValue(name[..j])) == Accumulate(name, k, DecimalValue(name[..k]))
    decreases k - j
  {
    hide DecimalValue, Accumulate;
    if j < k {
      AccumulateSmall(name, j + 1, k);
      OneMoreDigit(name, j);
      AccumulateDigit(name, j, DecimalValue(name[..j]));
    }
  }

  lemma AccumulateDigit(name: Text, j: nat, n: nat)
    requires AllDigits(name) && j < |name| && n * 10 + (name[j] - ZERO) < TWO_32
    ensures Accumulate(name, j, n) == Accumulate(name, j + 1, n * 10 + (name[j] - ZERO))
  {
  }

  /** The index is the number its name denotes exactly if that number fits 32 bits. */
  lemma IndexExact(name: Text)
    requires IsIndexName(name)
    ensures IndexOf(name) == DecimalValue(name) <==> DecimalValue(name) < TWO_32
  {
    assert name[..0] == [] && name[..|name|] == name;
    if DecimalValue(name) < TWO_32 {
      AccumulateSmall(name, 0, |name|);
    }
  }

  /** The value of the first digits modulo 2^32 becomes smaller with one digit more. */
  predicate Falls(name: Text, j: nat)
    requires AllDigits(name) && j < |name|
  {
    DecimalValue(name[..j + 1]) % TWO_32 < DecimalValue(name[..j]) % TWO_32
  }

  lemma DigitModulo(v: nat, d: nat)
    ensures (v % TWO_32 * 10 + d) % TWO_32 == (v * 10 + d) % TWO_32
  {
    var k := v / TWO_32;
    assert v * 10 + d == v % TWO_32 * 10 + d + 10 * k * TWO_32;
    Multiples(v % TWO_32 * 10 + d, 10 * k);
  }

  lemma Multiples(x: int, k: nat)
    ensures (x + k * TWO_32) % TWO_32 == x % TWO_32
  {
  }

  /** The accumulation gives up at the first digit where the value modulo 2^32 falls, and is that value otherwise. */
  lemma {:induction false} AccumulateWraps(name: Text, j: nat)
    requires AllDigits(name) && j <= |name|
    ensures Accumulate(name, j, DecimalValue(name[..j]) % TWO_32)
         == if exists k | j <= k < |name| :: Falls(name, k) then INVALID_INDEX else DecimalValue(name) % TWO_32
    decreases |name| - j
  {
    if j == |name| {
      assert name[..j] == name;
    } else {
      OneMoreDigit(name, j);
      DigitModulo(DecimalValue(name[..j]), name[j] - ZERO);
      AccumulateWraps(name, j + 1);
      hide DecimalValue, AllDigits;
      if !Falls(name, j) {
        assert (exists k | j <= k < |name| :: Falls(name, k)) <==> (exists k | j + 1 <= k < |name| :: Falls(name, k));
      }
    }
  }

  /**
   * A number of 2^32 or more is recognised as no index exactly if its running value modulo 2^32 falls at some digit,
   * but for those that wrap around to the invalid index itself; else its name stands for the number modulo 2^32.
   */
  lemma LargeIndex(name: Text)
    requires IsIndexName(name) && DecimalValue(name) >= TWO_32
    ensures IndexOf(name) == INVALID_INDEX <==>
              (exists k | 0 <= k < |name| :: Falls(name, k)) || DecimalValue(name) % TWO_32 == INVALID_INDEX
    ensures IndexOf(name) != INVALID_INDEX ==> IndexOf(name) == DecimalValue(name) % TWO_32
  {
    assert name[..0] == [];
    assert DecimalValue(name[..0]) == 0;
    AccumulateWraps(name, 0);
    hide DecimalValue, Falls, Accumulate;
  }

  /**
   * The first digit at which the number reaches 2^32 is recognised exactly if the wrapped value is below a tenth of
   * the true one; if it is not, the index is accumulated from the wrapped value on.
   */
  lemma FirstLargePrefix(name: Text, k: nat)
    requires IsIndexName(name) && k < |name| && DecimalValue(name[..k]) < TWO_32 <= DecimalValue(name[..k + 1])
    ensures var v := DecimalValue(name[..k + 1]);
            IndexOf(name) == if v % TWO_32 < v / 10 then INVALID_INDEX else Accumulate(name, k + 1, v % TWO_32)
  {
    assert name[..0] == [];
    AccumulateSmall(name, 0, k);
    OneMoreDigit(name, k);
    assert DecimalValue(name[..k + 1]) / 10 == DecimalValue(name[..k]);
  }

  lemma DigitsUnderTen(name: Text, k: nat)
    requires AllDigits(name) && k <= |name|
    ensures k <= 9 ==> DecimalValue(name[..k]) < 1_000_000_000
    ensures k == 10 ==> DecimalValue(name[..k]) < 10_000_000_000
  {
    assert name[..0] == [];
    var i := 0;
    var bound := 1;
    while i < k && i < 10
      invariant 0 <= i <= k && i <= 10 && DecimalValue(name[..i]) < bound
      invariant bound == [1, 10, 100, 1_000, 10_000, 100_000, 1_000_000, 10_000_000, 100_000_000, 1_000_000_000,
                          10_000_000_000][i]
    {
      OneMoreDigit(name, i);
      i, bound := i + 1, bound * 10;
    }
  }

  /**
   * Of the ten-digit numbers that do not fit 32 bits, those up to 4772185883 and those from 8589934591 up to
   * 9544371767 are recognised as no index; the others are taken for a smaller index.
   */
  lemma TenDigitIndex(name: Text)
    requires IsIndexName(name) && |name| == 10 && DecimalValue(name) >= TWO_32
    ensures var n := DecimalValue(name);
            && n < 10_000_000_000
            && (IndexOf(name) == INVALID_INDEX <==> n % TWO_32 < n / 10 || n % TWO_32 == INVALID_INDEX)
            && (IndexOf(name) == INVALID_INDEX <==> n <= 4772185883 || 8589934591 <= n <= 9544371767)
            && (IndexOf(name) != INVALID_INDEX ==> IndexOf(name) == n % TWO_32 < n)
  {
    var n := DecimalValue(name);
    DigitsUnderTen(name, 9);
    DigitsUnderTen(name, 10);
    assert name[..10] == name;
    FirstLargePrefix(name, 9);
    assert n % TWO_32 == if n < 2 * TWO_32 then n - TWO_32 else n - 2 * TWO_32;
  }

  /** The name 10000000000 becomes the index 1410065408. */
  lemma OverflowUnnoticed()
    ensures var name: Text := [ONE, ZERO, ZERO, ZERO, ZERO, ZERO, ZERO, ZERO, ZERO, ZERO, ZERO];
            IndexOf(name) == 1410065408
  {
    var name: Text := [ONE, ZERO, ZERO, ZERO, ZERO, ZERO, ZERO, ZERO, ZERO, ZERO, ZERO];
    assert Accumulate(name, 11, 1410065408) == 1410065408;
    assert Accumulate(name, 10, 1000000000) == 1410065408;
    assert Accumulate(name, 8, 10000000) == 1410065408;
    assert Accumulate(name, 6, 100000) == 1410065408;
    assert Accumulate(name, 4, 1000) == 1410065408;
    assert Accumulate(name, 2, 10) == 1410065408;
    assert Accumulate(name, 0, 0) == 1410065408;
  }

  // ------------------------------------------------------------- round trip

  lemma HexByte(b: byte)
    ensures HexValue(HexDigit(b / 16)) == b / 16 && HexValue(HexDigit(b % 16)) == b % 16
  {
  }

  /** Triplets printed for some bytes are read as those bytes, and maybe more. */
  lemma {:induction false} PercentsRead(s: Text, p: nat, bytes: Text)
    requires At(s, p, Percent(bytes))
    ensures p + 3 * |bytes| <= |s| && bytes <= Percents(s, p)
    ensures |bytes| > 0 ==> s[p] == PERCENT
    decreases |bytes|
  {
    AtEnd(s, p, Percent(bytes));
    if |bytes| > 0 {
      var t, rest := Percent(bytes), Percent(bytes[1..]);
      AtUnit(s, p, t, 0);
      AtUnit(s, p, t, 1);
      AtUnit(s, p, t, 2);
      HexByte(bytes[0]);
      assert t == t[..3] + rest;
      AtSplit(s, p, t[..3], rest);
      PercentsRead(s, p + 3, bytes[1..]);
    }
  }

  /** A UTF-8 sequence printed as triplets is the next piece of the name. */
  lemma ReadsSequence(s: Text, p: nat, name: Text, j: nat)
    requires j < |name| && Decode(name, j).ok && NeedPercentEncode(name[j])
    requires var k := Decode(name, j).pos; k <= |name| && At(s, p, Percent(name[j..k]))
    ensures var k := Decode(name, j).pos;
            j < k && p < |s| && s[p] == PERCENT && NextPiece(s, p, true) == Units(name[j..k], p + 3 * (k - j))
  {
    var k := Decode(name, j).pos;
    DecodeAcceptsExactlyUTF8(name, j);
    AcceptedInside(name, j);
    var bytes := name[j..k];
    PercentsRead(s, p, bytes);
    var run := Percents(s, p);
    assert run[0..|bytes|] == bytes;
    DecodeLocal(name, j, k);
    DecodeLocal(run, 0, |bytes|);
    hide Decode, Percents;
    if |bytes| == 1 {
      assert run[0] == name[j];
    }
  }

  /** What the unit or the sequence at j contributes to the text of a name. */
  lemma FirstPiece(uri: bool, name: Text, j: nat) returns (e: Text, k: nat)
    requires j < |name| && NameText(uri, name, j).ok
    ensures j < k <= |name| && NameText(uri, name, k).ok && NameText(uri, name, j).text == e + NameText(uri, name, k).text
    ensures var c := name[j];
            if c != TILDE && c != SLASH && uri && NeedPercentEncode(c)
            then Decode(name, j).ok && k == Decode(name, j).pos && e == Percent(name[j..k])
            else k == j + 1 && e == if c == TILDE then [TILDE, ZERO] else if c == SLASH then [TILDE, ONE] else [c]
  {
    hide Decode, Percent;
    var c := name[j];
    if c != TILDE && c != SLASH && uri && NeedPercentEncode(c) {
      k := Decode(name, j).pos;
      AcceptedInside(name, j);
      e := Percent(name[j..k]);
    } else {
      k := j + 1;
      e := if c == TILDE then [TILDE, ZERO] else if c == SLASH then [TILDE, ONE] else [c];
    }
  }

  /** The text of one unit or one sequence is read back as it. */
  lemma ReadsPiece(s: Text, p: nat, uri: bool, name: Text, j: nat) returns (e: Text, k: nat)
    requires j < |name| && NameText(uri, name, j).ok && At(s, p, NameText(uri, name, j).text)
    ensures j < k <= |name| && NameText(uri, name, k).ok
    ensures NameText(uri, name, j).text == e + NameText(uri, name, k).text && At(s, p + |e|, NameText(uri, name, k).text)
    ensures p < |s| && s[p] != SLASH && NextPiece(s, p, uri) == Units(name[j..k], p + |e|)
  {
    hide At, Decode, Percent, Percents, NameText;
    var c := name[j];
    e, k := FirstPiece(uri, name, j);
    AtSplit(s, p, e, NameText(uri, name, k).text);
    if c != TILDE && c != SLASH && uri && NeedPercentEncode(c) {
      ReadsSequence(s, p, name, j);
    } else {
      AtUnit(s, p, e, 0);
      AtUnit(s, p, e, |e| - 1);
      assert name[j..k] == [c];
    }
  }

  lemma NameEnds(uri: bool, name: Text)
    ensures NameText(uri, name, |name|) == Printed(true, [])
  {
  }

  lemma {:induction false} ReadsName(s: Text, p: nat, uri: bool, name: Text, j: nat)
    requires j <= |name| && NameText(uri, name, j).ok && At(s, p, NameText(uri, name, j).text)
    requires var q := p + |NameText(uri, name, j).text|; q == |s| || Peek(s, q) == SLASH
    ensures p <= |s| && ScanName(s, p, uri, name[..j]) == Name(name, p + |NameText(uri, name, j).text|)
    decreases |name| - j
  {
    hide At, NameText, NextPiece;
    if j == |name| {
      NameEnds(uri, name);
      AtEnd(s, p, []);
      assert name[..j] == name;
    } else {
      var e, k := ReadsPiece(s, p, uri, name, j);
      assert name[..j] + name[j..k] == name[..k];
      ReadsName(s, p + |e|, uri, name, k);
    }
  }

  lemma ReadsToken(s: Text, p: nat, uri: bool, tokens: seq<Token>, k: nat) returns (q: nat)
    requires k < |tokens| && TokensText(uri, tokens, k).ok
    requires At(s, p, TokensText(uri, tokens, k).text) && p + |TokensText(uri, tokens, k).text| == |s|
    ensures p < |s| && s[p] == SLASH && ScanName(s, p + 1, uri, []) == Name(tokens[k].name, q) && q <= |s|
    ensures TokensText(uri, tokens, k + 1).ok
    ensures At(s, q, TokensText(uri, tokens, k + 1).text) && q + |TokensText(uri, tokens, k + 1).text| == |s|
  {
    hide At, NameText, ScanName, IndexOf;
    var name, rest := NameText(uri, tokens[k].name, 0).text, TokensText(uri, tokens, k + 1).text;
    q := p + 1 + |name|;
    assert TokensText(uri, tokens, k).text == [SLASH] + name + rest + [];
    AtPieces(s, p, [SLASH], name, rest, []);
    AtUnit(s, p, [SLASH], 0);
    assert rest + [] == rest;
    if k + 1 < |tokens| {
      AtUnit(s, q, rest, 0);
    }
    assert tokens[k].name[..0] == [];
    ReadsName(s, p + 1, uri, tokens[k].name, 0);
  }

  lemma NoTokensLeft(uri: bool, tokens: seq<Token>)
    ensures TokensText(uri, tokens, |tokens|) == Printed(true, [])
  {
  }

  lemma {:induction false} ReadsTokens(s: Text, p: nat, uri: bool, tokens: seq<Token>, k: nat)
    requires k <= |tokens| && (forall t | t in tokens :: Canonical(t)) && TokensText(uri, tokens, k).ok
    requires At(s, p, TokensText(uri, tokens, k).text) && p + |TokensText(uri, tokens, k).text| == |s|
    ensures p <= |s| && (p == |s| || s[p] == SLASH) && ScanTokens(s, p, uri, tokens[..k]) == Tokens(tokens)
    decreases |tokens| - k
  {
    hide At, TokensText, ScanName, IndexOf, NameText;
    if k == |tokens| {
      assert tokens[..k] == tokens;
      NoTokensLeft(uri, tokens);
      AtEnd(s, p, []);
    } else {
      var q := ReadsToken(s, p, uri, tokens, k);
      ReadsTokens(s, q, uri, tokens, k + 1);
      assert Canonical(tokens[k]);
      assert tokens[..k] + [tokens[k]] == tokens[..k + 1];
    }
  }

  /** Printing tokens with their proper indices and parsing the text gives the tokens back, in either form. */
  lemma PrintedParses(uri: bool, tokens: seq<Token>)
    requires (forall t | t in tokens :: Canonical(t)) && Stringify(uri, tokens).ok
    ensures Parse(Stringify(uri, tokens).text) == Tokens(tokens)
  {
    var s := Stringify(uri, tokens).text;
    assert tokens[..0] == [];
    if uri {
      var t := TokensText(true, tokens, 0).text;
      assert s == [HASH] + t;
      assert s[1..1 + |t|] == t;
      ReadsTokens(s, 1, true, tokens, 0);
    } else {
      assert s[0..|s|] == s;
      ReadsTokens(s, 0, false, tokens, 0);
    }
  }

  /** The plain form can print every name; the fragment form exactly the well-formed UTF-8 names. */
  lemma {:induction false} NamePrintable(uri: bool, name: Text, j: nat)
    requires j <= |name|
    ensures NameText(uri, name, j).ok <==> !uri || DecodeAll(name, j).Scalars?
    decreases |name| - j
  {
    if j < |name| {
      var c, d := name[j], Decode(name, j);
      if c < 0x80 {
        assert d == Decoded(true, c, j + 1);
        NamePrintable(uri, name, j + 1);
      } else if uri && d.ok {
        AcceptedInside(name, j);
        NamePrintable(uri, name, d.pos);
      } else {
        NamePrintable(uri, name, j + 1);
      }
    }
  }

  lemma {:induction false} TokensPrintable(uri: bool, tokens: seq<Token>, k: nat)
    requires k <= |tokens|
    ensures TokensText(uri, tokens, k).ok <==> !uri || forall i | k <= i < |tokens| :: IsUTF8(tokens[i].name)
    decreases |tokens| - k
  {
    hide NameText, DecodeAll;
    if k < |tokens| {
      NamePrintable(uri, tokens[k].name, 0);
      TokensPrintable(uri, tokens, k + 1);
    }
  }

  /**
   * Every pointer that parses, printed and parsed again, is the same pointer: always in the plain form, and in
   * the fragment form exactly if all its names are well-formed UTF-8, without which it cannot be printed.
   */
  lemma PointerRoundTrip(s: Text, uri: bool)
    requires Parse(s).Tokens?
    ensures var tokens := Parse(s).tokens;
            && (Stringify(uri, tokens).ok <==> !uri || forall i | 0 <= i < |tokens| :: IsUTF8(tokens[i].name))
            && (Stringify(uri, tokens).ok ==> Parse(Stringify(uri, tokens).text) == Parse(s))
  {
    var tokens := Parse(s).tokens;
    ParsedCanonical(s, if Peek(s, 0) == HASH then 1 else 0, Peek(s, 0) == HASH, []);
    hide Parse, TokensText, IndexOf, IsUTF8;
    TokensPrintable(uri, tokens, 0);
    if Stringify(uri, tokens).ok {
      PrintedParses(uri, tokens);
    }
  }
}

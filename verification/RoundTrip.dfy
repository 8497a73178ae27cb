/** Reading back what the writers write, in any layout and target encoding, and rebuilding the document. */
module RoundTrip {
  import opened Bytes
  import opened Encodings
  import opened Events
  import opened Document
  import opened Scanning
  import opened Reading
  import opened ReaderEquivalence
  import W = Writing
  import Numbers

  // --------------------------------------------------------------- blanks

  predicate AllBlank(t: Text) {
    forall i | 0 <= i < |t| :: IsWhitespace(t[i])
  }

  /** Blanks up to a unit that starts neither blanks nor a comment are skipped, whatever the flags. */
  lemma {:induction false} SkipsBlanks(s: Text, p: nat, t: Text)
    requires At(s, p, t) && AllBlank(t) && !IsWhitespace(Peek(s, p + |t|))
    ensures SkipWhitespace(s, p) == p + |t|
    decreases |t|
  {
    if |t| > 0 {
      AtUnit(s, p, t, 0);
      assert s[p + 1..p + 1 + |t[1..]|] == t[1..];
      SkipsBlanks(s, p + 1, t[1..]);
    }
  }

  lemma Skips(flags: Flags, s: Text, p: nat, t: Text, evs: seq<Event>)
    requires At(s, p, t) && AllBlank(t)
    requires var c := Peek(s, p + |t|);
             !IsWhitespace(c) && c != SLASH
    ensures SkipWhitespaceAndComments(flags, s, p, evs) == Ok(p + |t|, evs)
  {
    SkipsBlanks(s, p, t);
  }

  // -------------------------------------------------------------- strings

  lemma HexInverse(n: nat)
    requires n < 16
    ensures HexValue(HexDigit(n)) == n
  {
  }

  lemma Hex4Reads(s: Text, p: nat, n: nat)
    requires n < 0x1_0000 && At(s, p, W.UnicodeEscape(n))
    ensures Hex4(s, p + 2) == n && p + 6 <= |s| && s[p] == BACKSLASH && s[p + 1] == LOWER_U
  {
    var t := W.UnicodeEscape(n);
    AtUnit(s, p, t, 0);
    AtUnit(s, p, t, 1);
    AtUnit(s, p, t, 2);
    AtUnit(s, p, t, 3);
    AtUnit(s, p, t, 4);
    AtUnit(s, p, t, 5);
    HexInverse(n / 4096);
    HexInverse(n / 256 % 16);
    HexInverse(n / 16 % 16);
    HexInverse(n % 16);
    assert n / 256 == n / 4096 * 16 + n / 256 % 16;
    assert n / 16 == n / 256 * 16 + n / 16 % 16;
    assert n == n / 16 * 16 + n % 16;
  }

  /** The escape of a code point, in one unit or as a surrogate pair, is read back as that code point. */
  lemma ReadsCodePoint(s: Text, p: nat, c: nat)
    requires IsScalar(c) && At(s, p, W.EscapedCodePoint(c))
    ensures p < |s| && ScanUnicode(s, p) == CodePoint(c, p + |W.EscapedCodePoint(c)|)
    ensures s[p] == BACKSLASH && Peek(s, p + 1) == LOWER_U
  {
    hide W.UnicodeEscape, Hex4;
    if c <= 0xFFFF {
      Hex4Reads(s, p, c);
    } else {
      AtSplit(s, p, W.UnicodeEscape(Lead(c)), W.UnicodeEscape(Trail(c)));
      Hex4Reads(s, p, Lead(c));
      Hex4Reads(s, p + 6, Trail(c));
      assert FromPair(Lead(c), Trail(c)) == c;
    }
  }

  /** The text of one unit is read back as that unit. */
  lemma ReadsUnit(s: Text, p: nat, c: byte, str: Text)
    requires At(s, p, W.EscapedUnit(c))
    ensures ScanString(s, p, str) == ScanString(s, p + |W.EscapedUnit(c)|, str + [c])
  {
    var t := W.EscapedUnit(c);
    AtUnit(s, p, t, 0);
    if |t| > 1 {
      AtUnit(s, p, t, 1);
    }
    if |t| > 2 {
      var u := W.UnicodeEscape(c);
      assert t == u;
      Hex4Reads(s, p, c);
    }
  }

  /** The first piece of a body: a unit, or with an ASCII target the escapes of a whole UTF-8 sequence. */
  lemma ReadsPiece(s: Text, p: nat, ascii: bool, str: Text, i: nat) returns (e: Text, k: nat)
    requires i < |str| && W.StringBody(ascii, str, i).ok && At(s, p, W.StringBody(ascii, str, i).text)
    ensures i < k <= |str| && W.StringBody(ascii, str, k).ok
    ensures W.StringBody(ascii, str, i).text == e + W.StringBody(ascii, str, k).text
    ensures At(s, p + |e|, W.StringBody(ascii, str, k).text)
    ensures ScanString(s, p, str[..i]) == ScanString(s, p + |e|, str[..k])
  {
    hide At, ScanString, Decode, W.StringBody;
    if ascii && str[i] >= 0x80 {
      e, k := ReadsSequence(s, p, str, i);
    } else {
      e, k := W.EscapedUnit(str[i]), i + 1;
      W.PlainBody(ascii, str, i);
      AtSplit(s, p, e, W.StringBody(ascii, str, k).text);
      ReadsUnit(s, p, str[i], str[..i]);
      assert str[..i] + [str[i]] == str[..k];
    }
  }

  lemma ScansCodePoint(s: Text, p: nat, str: Text, code: nat, q: nat)
    requires p < |s| && s[p] == BACKSLASH && Peek(s, p + 1) == LOWER_U
    requires ScanUnicode(s, p) == CodePoint(code, q) && q <= |s|
    ensures ScanString(s, p, str) == ScanString(s, q, str + Encode(code))
  {
    hide ScanUnicode, Encode;
  }

  lemma ReadsSequence(s: Text, p: nat, str: Text, i: nat) returns (e: Text, k: nat)
    requires i < |str| && str[i] >= 0x80 && W.StringBody(true, str, i).ok && At(s, p, W.StringBody(true, str, i).text)
    ensures i < k <= |str| && W.StringBody(true, str, k).ok
    ensures W.StringBody(true, str, i).text == e + W.StringBody(true, str, k).text
    ensures At(s, p + |e|, W.StringBody(true, str, k).text)
    ensures ScanString(s, p, str[..i]) == ScanString(s, p + |e|, str[..k])
  {
    hide At, Decode, W.EscapedCodePoint, ScanUnicode, ScanString, Encode, W.StringBody;
    W.SequenceBody(str, i);
    var d := Decode(str, i);
    e, k := W.EscapedCodePoint(d.code), d.pos;
    AtSplit(s, p, e, W.StringBody(true, str, k).text);
    ReadsCodePoint(s, p, d.code);
    assert str[..i] + str[i..k] == str[..k];
    ScansCodePoint(s, p, str[..i], d.code, p + |e|);
  }

  /** The closing quote ends the string. */
  lemma QuoteEnds(s: Text, p: nat, str: Text)
    ensures Peek(s, p) == QUOTE ==> ScanString(s, p, str[..|str|]) == Scanned(p + 1, str)
  {
    assert str[..|str|] == str;
  }

  /** A body the writer has written is read back as the string it was written from. */
  lemma {:induction false} ReadsBody(s: Text, p: nat, ascii: bool, str: Text, i: nat)
    requires i <= |str| && W.StringBody(ascii, str, i).ok
    requires At(s, p, W.StringBody(ascii, str, i).text) && Peek(s, p + |W.StringBody(ascii, str, i).text|) == QUOTE
    ensures ScanString(s, p, str[..i]) == Scanned(p + |W.StringBody(ascii, str, i).text| + 1, str)
    decreases |str| - i
  {
    hide At, ScanString, W.StringBody;
    if i == |str| {
      W.BodyDone(ascii, str);
      QuoteEnds(s, p, str);
    } else {
      var e, k := ReadsPiece(s, p, ascii, str, i);
      ReadsBody(s, p + |e|, ascii, str, k);
    }
  }

  lemma ReadsString(s: Text, p: nat, ascii: bool, str: Text, isKey: bool, evs: seq<Event>)
    requires W.StringText(ascii, str).ok && At(s, p, W.StringText(ascii, str).text)
    ensures p < |s| && s[p] == QUOTE
    ensures ParseString(s, p, isKey, evs)
         == Ok(p + |W.StringText(ascii, str).text|, evs + [if isKey then KeyEvent(str) else StringEvent(str)])
  {
    hide W.StringBody, ScanString;
    var body := W.StringBody(ascii, str, 0).text;
    var t := W.StringText(ascii, str).text;
    AtUnit(s, p, t, 0);
    AtUnit(s, p, t, |t| - 1);
    assert t == [QUOTE] + (body + [QUOTE]);
    AtSplit(s, p, [QUOTE], body + [QUOTE]);
    AtSplit(s, p + 1, body, [QUOTE]);
    ReadsBody(s, p + 1, ascii, str, 0);
    assert str[..0] == [];
  }

  /** With an ASCII target, every unit written for a string is an ASCII unit. */
  lemma {:induction false} WritesOnlyASCII(str: Text, i: nat)
    requires i <= |str|
    ensures forall c | c in W.StringBody(true, str, i).text :: c < 0x80
    decreases |str| - i
  {
    if i < |str| {
      hide Decode, W.EscapedCodePoint, W.EscapedUnit;
      if str[i] >= 0x80 {
        if Decode(str, i).ok {
          W.SequenceBody(str, i);
          EscapedIsASCII(Decode(str, i).code);
          WritesOnlyASCII(str, Decode(str, i).pos);
        }
      } else {
        UnitIsASCII(str[i]);
        WritesOnlyASCII(str, i + 1);
      }
    }
  }

  lemma EscapedIsASCII(code: nat)
    requires IsScalar(code)
    ensures forall c | c in W.EscapedCodePoint(code) :: c < 0x80
  {
  }

  lemma UnitIsASCII(unit: byte)
    requires unit < 0x80
    ensures forall c | c in W.EscapedUnit(unit) :: c < 0x80
  {
  }

  /** An ASCII target can write exactly the well-formed UTF-8 strings. */
  lemma {:induction false} WritableIsUTF8(str: Text, i: nat)
    requires i <= |str|
    ensures W.StringBody(true, str, i).ok <==> DecodeAll(str, i).Scalars?
    decreases |str| - i
  {
    if i < |str| {
      var d := Decode(str, i);
      if str[i] < 0x80 {
        assert d == Decoded(true, str[i], i + 1);
        WritableIsUTF8(str, i + 1);
      } else if d.ok {
        AcceptedInside(str, i);
        hide Decode;
        WritableIsUTF8(str, d.pos);
      }
    }
  }

  // -------------------------------------------------------------- numbers

  /** What may follow a number without becoming part of it. */
  predicate EndsNumber(c: byte) {
    !IsDigit(c) && c != PERIOD && !IsExponentMark(c)
  }

  lemma {:induction false} SkipsExactly(s: Text, p: nat, t: Text)
    requires At(s, p, t) && AllDigits(t) && !IsDigit(Peek(s, p + |t|))
    ensures SkipDigits(s, p) == p + |t|
    decreases |t|
  {
    if |t| > 0 {
      AtUnit(s, p, t, 0);
      assert s[p + 1..p + 1 + |t[1..]|] == t[1..];
      SkipsExactly(s, p + 1, t[1..]);
    }
  }

  lemma ReadsDecimal(s: Text, p: nat, n: nat)
    requires At(s, p, Decimal(n)) && !IsDigit(Peek(s, p + |Decimal(n)|))
    ensures p < |s| && IsDigit(s[p])
    ensures Numbers.IntegerEnd(s, p) == p + |Decimal(n)| && Numbers.IntegerValue(s, p) == n
  {
    var t := Decimal(n);
    DecimalInverse(n);
    AtUnit(s, p, t, 0);
    SkipsExactly(s, p, t);
    if n == 0 {
      assert t == [ZERO];
    }
  }

  lemma ReadsNumber(flags: Flags, s: Text, p: nat, n: int, evs: seq<Event>)
    requires (InInt64(n) || InUint64(n)) && At(s, p, W.IntegerText(n)) && EndsNumber(Peek(s, p + |W.IntegerText(n)|))
    ensures ParseNumber(flags, s, p, evs) == Ok(p + |W.IntegerText(n)|, evs + [ReadNumber(n)])
    ensures p < |s| && (s[p] == MINUS || IsDigit(s[p]))
  {
    hide At, ParseNumber, Decimal, SkipDigits, Numbers.IntegerEnd, Numbers.IntegerValue;
    if n < 0 {
      AtSplit(s, p, [MINUS], Decimal(-n));
      AtUnit(s, p, [MINUS], 0);
      ReadsDecimal(s, p + 1, -n);
    } else {
      ReadsDecimal(s, p, n);
      assert s[p] != MINUS;
    }
    Numbers.IntegerLiteral(flags, s, p, evs);
  }

  // --------------------------------------------------------------- layout

  /** The blanks of a prefix, after its separator. */
  function Gap(layout: W.Layout, depth: nat, level: W.Level): Text {
    var prefix := W.PrefixText(layout, depth, level);
    if level.valueCount == 0 || |prefix| == 0 then prefix else prefix[1..]
  }

  lemma IndentIsBlank(layout: W.Layout, depth: nat)
    requires layout.Pretty? && IsWhitespace(layout.indentChar)
    ensures AllBlank(W.Indent(layout, depth))
  {
  }

  lemma GapIsBlank(style: W.Style, depth: nat, level: W.Level)
    requires W.ValidStyle(style)
    ensures AllBlank(Gap(style.layout, depth, level))
    ensures level.valueCount == 0 ==> W.PrefixText(style.layout, depth, level) == Gap(style.layout, depth, level)
    ensures level.valueCount > 0 ==>
              W.PrefixText(style.layout, depth, level)
              == [if level.inArray || level.valueCount % 2 == 0 then COMMA else COLON] + Gap(style.layout, depth, level)
  {
    if style.layout.Pretty? {
      IndentIsBlank(style.layout, depth);
    }
  }

  /** The parser skips a prefix: only blanks before a first value, else the separator and the blanks after it. */
  lemma SkipsPrefix(flags: Flags, s: Text, p: nat, style: W.Style, depth: nat, level: W.Level, evs: seq<Event>)
    requires W.ValidStyle(style) && At(s, p, W.PrefixText(style.layout, depth, level))
    requires var c := Peek(s, p + |W.PrefixText(style.layout, depth, level)|);
             !IsWhitespace(c) && c != SLASH
    ensures var q := p + |W.PrefixText(style.layout, depth, level)|;
            && q <= |s|
            && if level.valueCount == 0 then SkipWhitespaceAndComments(flags, s, p, evs) == Ok(q, evs)
               else
                 && p < |s| && s[p] == (if level.inArray || level.valueCount % 2 == 0 then COMMA else COLON)
                 && SkipWhitespaceAndComments(flags, s, p, evs) == Ok(p, evs)
                 && SkipWhitespaceAndComments(flags, s, p + 1, evs) == Ok(q, evs)
  {
    hide At, Gap, AllBlank, W.PrefixText, SkipWhitespaceAndComments;
    var prefix := W.PrefixText(style.layout, depth, level);
    var gap := Gap(style.layout, depth, level);
    AtEnd(s, p, prefix);
    GapIsBlank(style, depth, level);
    if level.valueCount == 0 {
      Skips(flags, s, p, prefix, evs);
    } else {
      AtSplit(s, p, prefix[..1], gap);
      AtUnit(s, p, prefix, 0);
      Skips(flags, s, p + 1, gap, evs);
      AtNothing(s, p);
      NothingIsBlank();
      Skips(flags, s, p, [], evs);
    }
  }

  lemma NothingIsBlank()
    ensures AllBlank([])
  {
  }

  lemma ClosingIsBlank(style: W.Style, depth: nat, level: W.Level)
    requires W.ValidStyle(style)
    ensures AllBlank(W.ClosingText(style.layout, depth, level))
  {
    if style.layout.Pretty? {
      IndentIsBlank(style.layout, depth);
    }
  }

  /** Units a value can start with: none of them is blank, a comment or a delimiter. */
  predicate StartsValue(c: byte) {
    c == LOWER_N || c == LOWER_T || c == LOWER_F || c == QUOTE || c == LBRACE || c == LBRACKET || c == MINUS || IsDigit(c)
  }

  lemma ValueStarts(style: W.Style, depth: nat, v: Value)
    requires Valid(v, false)
    ensures var t := W.ValueText(style, depth, v);
            |t| > 0 && StartsValue(t[0])
  {
    match v
    case Number(n, _) =>
      DecimalInverse(if n < 0 then -n else n);
    case _ =>
  }

  // --------------------------------------------------------------- values

  lemma {:induction false} MatchesLiteral(s: Text, p: nat, rest: Text, evs: seq<Event>)
    requires At(s, p, rest) && NUL !in rest
    ensures MatchLiteral(s, p, rest, evs) == Ok(p + |rest|, evs)
    decreases |rest|
  {
    if |rest| > 0 {
      AtUnit(s, p, rest, 0);
      assert s[p + 1..p + 1 + |rest[1..]|] == rest[1..];
      MatchesLiteral(s, p + 1, rest[1..], evs);
    }
  }

  lemma ReadsLiteral(s: Text, p: nat, first: byte, rest: Text, ev: Event, evs: seq<Event>)
    requires At(s, p, [first] + rest) && NUL !in rest
    ensures p < |s| && s[p] == first && ParseLiteral(s, p, rest, ev, evs) == Ok(p + 1 + |rest|, evs + [ev])
  {
    AtSplit(s, p, [first], rest);
    AtUnit(s, p, [first] + rest, 0);
    MatchesLiteral(s, p + 1, rest, evs);
  }

  /**
   * The text of a value is read back as the events of that value, in every layout, with every flags,
   * wherever it stands and whatever follows that cannot prolong a number.
   */
  lemma {:induction false} ReadsValue(flags: Flags, s: Text, p: nat, style: W.Style, depth: nat, v: Value,
                                      evs: seq<Event>)
    requires Valid(v, false) && W.Writable(style.ascii, v) && W.ValidStyle(style)
    requires At(s, p, W.ValueText(style, depth, v)) && EndsNumber(Peek(s, p + |W.ValueText(style, depth, v)|))
    ensures ParseValue(flags, s, p, evs) == Ok(p + |W.ValueText(style, depth, v)|, evs + EventsOf(v, true))
    decreases v, 2
  {
    match v
    case Array(items) => ReadsArray(flags, s, p, style, depth, items, evs);
    case Object(members) => ReadsObject(flags, s, p, style, depth, members, evs);
    case _ => ReadsScalar(flags, s, p, style, depth, v, evs);
  }

  lemma ReadsScalar(flags: Flags, s: Text, p: nat, style: W.Style, depth: nat, v: Value, evs: seq<Event>)
    requires Valid(v, false) && W.Writable(style.ascii, v) && !v.Array? && !v.Object?
    requires At(s, p, W.ValueText(style, depth, v)) && EndsNumber(Peek(s, p + |W.ValueText(style, depth, v)|))
    ensures ParseValue(flags, s, p, evs) == Ok(p + |W.ValueText(style, depth, v)|, evs + EventsOf(v, true))
  {
    hide ScanString, ParseNumber, ParseLiteral, ParseString, W.StringText, W.IntegerText;
    match v
    case Null => ReadsLiteral(s, p, LOWER_N, ULL, NullEvent, evs);
    case Bool(b) =>
      if b {
        ReadsLiteral(s, p, LOWER_T, RUE, BoolEvent(true), evs);
      } else {
        ReadsLiteral(s, p, LOWER_F, ALSE, BoolEvent(false), evs);
      }
    case Number(n, _) => ReadsNumber(flags, s, p, n, evs);
    case String(str) => ReadsString(s, p, style.ascii, str, false, evs);
    case Double(_) =>
  }

  lemma {:induction false} ReadsArray(flags: Flags, s: Text, p: nat, style: W.Style, depth: nat, items: seq<Value>,
                                      evs: seq<Event>)
    requires Valid(Array(items), false) && W.Writable(style.ascii, Array(items)) && W.ValidStyle(style)
    requires At(s, p, W.ValueText(style, depth, Array(items)))
    ensures ParseValue(flags, s, p, evs)
         == Ok(p + |W.ValueText(style, depth, Array(items))|, evs + EventsOf(Array(items), true))
    decreases items, 2
  {
    hide At, W.PrefixText, W.ClosingText, W.ItemsText, FromElement, SkipWhitespaceAndComments, ItemEvents,
         ParseValue, ParseElements, ParseElementEnd;
    var text := W.ItemsText(style, depth + 1, items, 0);
    var closing := W.ClosingText(style.layout, depth, W.Level(|items|, true));
    assert W.ValueText(style, depth, Array(items)) == [LBRACKET] + text + closing + [RBRACKET];
    assert [LBRACKET] + text + closing + [RBRACKET] == [LBRACKET] + (text + (closing + [RBRACKET]));
    AtSplit(s, p, [LBRACKET], text + (closing + [RBRACKET]));
    AtUnit(s, p, [LBRACKET], 0);
    var e := evs + [StartArray];
    AtEnd(s, p, [LBRACKET]);
    ReadsItems(flags, s, p + 1, style, depth, items, 0, e);
    ArrayOf(flags, s, p, evs);
    assert EventsOf(Array(items), true) == [StartArray] + ItemEvents(items, true) + [EndArray(|items|)];
    assert e + ItemEvents(items, true) + [EndArray(|items|)] == evs + EventsOf(Array(items), true);
  }

  lemma ArrayOf(flags: Flags, s: Text, p: nat, evs: seq<Event>)
    requires p < |s| && s[p] == LBRACKET
    ensures ParseValue(flags, s, p, evs) == FromElement(flags, s, p + 1, evs + [StartArray], 0)
  {
    assert ParseValue(flags, s, p, evs) == ParseArray(flags, s, p, evs);
    hide ParseValue, ParseElements;
  }

  /** What the parser does after the opening bracket or a comma, given how many elements it has. */
  function FromElement(flags: Flags, s: Text, p: nat, evs: seq<Event>, count: nat): Outcome
    requires p <= |s|
  {
    if count == 0 then
      var (q, e) :- SkipWhitespaceAndComments(flags, s, p, evs);
      if Peek(s, q) == RBRACKET then Ok(q + 1, e + [EndArray(0)])
      else ParseElements(flags, s, q, e, 0)
    else ParseElementEnd(flags, s, p, evs, count)
  }

  /** Items with their prefixes, then the end of the array. */
  lemma {:induction false} ReadsItems(flags: Flags, s: Text, p: nat, style: W.Style, depth: nat, items: seq<Value>,
                                      count: nat, evs: seq<Event>)
    requires AllValid(items, false) && W.AllWritable(style.ascii, items) && W.ValidStyle(style) && count + |items| < TWO_32
    requires At(s, p, W.ItemsText(style, depth + 1, items, count)
                      + (W.ClosingText(style.layout, depth, W.Level(count + |items|, true)) + [RBRACKET]))
    ensures FromElement(flags, s, p, evs, count)
         == Ok(p + |W.ItemsText(style, depth + 1, items, count)|
               + |W.ClosingText(style.layout, depth, W.Level(count + |items|, true))| + 1,
               evs + ItemEvents(items, true) + [EndArray(count + |items|)])
    decreases items, 1
  {
    var closing := W.ClosingText(style.layout, depth, W.Level(count + |items|, true));
    if |items| == 0 {
      ReadsArrayEnd(flags, s, p, style, depth, count, evs);
      assert [] + (closing + [RBRACKET]) == closing + [RBRACKET];
      assert evs + [] + [EndArray(count)] == evs + [EndArray(count)];
    } else {
      ReadsItem(flags, s, p, style, depth, items, count, evs);
    }
  }

  lemma ReadsArrayEnd(flags: Flags, s: Text, p: nat, style: W.Style, depth: nat, count: nat, evs: seq<Event>)
    requires W.ValidStyle(style)
    requires At(s, p, W.ClosingText(style.layout, depth, W.Level(count, true)) + [RBRACKET])
    ensures FromElement(flags, s, p, evs, count)
         == Ok(p + |W.ClosingText(style.layout, depth, W.Level(count, true))| + 1, evs + [EndArray(count)])
  {
    var closing := W.ClosingText(style.layout, depth, W.Level(count, true));
    ClosingIsBlank(style, depth, W.Level(count, true));
    AtSplit(s, p, closing, [RBRACKET]);
    AtUnit(s, p + |closing|, [RBRACKET], 0);
    Skips(flags, s, p, closing, evs);
    hide SkipWhitespaceAndComments, W.ClosingText;
  }

  lemma CommaToElement(flags: Flags, s: Text, p: nat, q: nat, evs: seq<Event>, count: nat)
    requires p < |s| && q <= |s| && s[p] == COMMA && !IsWhitespace(Peek(s, q)) && Peek(s, q) != RBRACKET
    requires SkipWhitespaceAndComments(flags, s, p, evs) == Ok(p, evs)
    requires SkipWhitespaceAndComments(flags, s, p + 1, evs) == Ok(q, evs)
    ensures ParseElementEnd(flags, s, p, evs, count) == ParseElements(flags, s, q, evs, count)
  {
    hide SkipWhitespaceAndComments, ParseElements;
    assert ParseElementEnd(flags, s, p, evs, count) == ParseNextElement(flags, s, p + 1, evs, count);
  }

  /** The separator and blanks in front of an element bring the parser to its first unit. */
  lemma ReachesElement(flags: Flags, s: Text, p: nat, style: W.Style, depth: nat, count: nat, evs: seq<Event>)
    requires W.ValidStyle(style) && At(s, p, W.PrefixText(style.layout, depth, W.Level(count, true)))
    requires StartsValue(Peek(s, p + |W.PrefixText(style.layout, depth, W.Level(count, true))|))
    ensures FromElement(flags, s, p, evs, count)
         == ParseElements(flags, s, p + |W.PrefixText(style.layout, depth, W.Level(count, true))|, evs, count)
  {
    hide At, W.PrefixText, ParseElements, ParseElementEnd, SkipWhitespaceAndComments;
    SkipsPrefix(flags, s, p, style, depth, W.Level(count, true), evs);
    if count > 0 {
      CommaToElement(flags, s, p, p + |W.PrefixText(style.layout, depth, W.Level(count, true))|, evs, count);
    }
  }

  lemma {:induction false} ReadsItem(flags: Flags, s: Text, p: nat, style: W.Style, depth: nat, items: seq<Value>,
                                     count: nat, evs: seq<Event>)
    requires AllValid(items, false) && W.AllWritable(style.ascii, items) && W.ValidStyle(style) && count + |items| < TWO_32
    requires |items| > 0
    requires At(s, p, W.ItemsText(style, depth + 1, items, count)
                      + (W.ClosingText(style.layout, depth, W.Level(count + |items|, true)) + [RBRACKET]))
    ensures FromElement(flags, s, p, evs, count)
         == Ok(p + |W.ItemsText(style, depth + 1, items, count)|
               + |W.ClosingText(style.layout, depth, W.Level(count + |items|, true))| + 1,
               evs + ItemEvents(items, true) + [EndArray(count + |items|)])
    decreases items, 0
  {
    hide At, W.PrefixText, W.ClosingText, FromElement, ParseValue, ParseElements, W.ValueText, Valid, W.Writable,
         EventsOf;
    var prefix := W.PrefixText(style.layout, depth + 1, W.Level(count, true));
    var text := W.ValueText(style, depth + 1, items[0]);
    var rest := W.ItemsText(style, depth + 1, items[1..], count + 1);
    var end := W.ClosingText(style.layout, depth, W.Level(count + |items|, true)) + [RBRACKET];
    assert W.ItemsText(style, depth + 1, items, count) == prefix + text + rest;
    AtPieces(s, p, prefix, text, rest, end);
    var q := p + |prefix|;
    ValueStarts(style, depth + 1, items[0]);
    AtUnit(s, q, text, 0);
    ReachesElement(flags, s, p, style, depth + 1, count, evs);
    TailEndsNumber(style, depth, items[1..], count + 1);
    AtUnit(s, q + |text|, rest + end, 0);
    ReadsValue(flags, s, q, style, depth + 1, items[0], evs);
    AtEnd(s, q, text);
    ElementsOf(flags, s, q, evs, count);
    var e := evs + EventsOf(items[0], true);
    ReadsItems(flags, s, q + |text|, style, depth, items[1..], count + 1, e);
    assert e + ItemEvents(items[1..], true) == evs + ItemEvents(items, true);
  }

  lemma ElementsOf(flags: Flags, s: Text, p: nat, evs: seq<Event>, count: nat)
    requires p <= |s| && count + 1 < TWO_32 && ParseValue(flags, s, p, evs).Ok?
    ensures var v := ParseValue(flags, s, p, evs);
            ParseElements(flags, s, p, evs, count) == FromElement(flags, s, v.pos, v.evs, count + 1)
  {
    hide ParseValue, ParseElementEnd;
  }

  /** After an element comes a comma, blanks or the bracket: nothing that prolongs a number. */
  lemma TailEndsNumber(style: W.Style, depth: nat, items: seq<Value>, count: nat)
    requires W.ValidStyle(style) && count > 0
    ensures var tail := W.ItemsText(style, depth + 1, items, count)
                        + (W.ClosingText(style.layout, depth, W.Level(count + |items|, true)) + [RBRACKET]);
            |tail| > 0 && EndsNumber(tail[0])
  {
    if |items| > 0 {
      GapIsBlank(style, depth + 1, W.Level(count, true));
    } else {
      ClosingIsBlank(style, depth, W.Level(count, true));
    }
  }

  // --------------------------------------------------------------- objects

  function FromMember(flags: Flags, s: Text, p: nat, evs: seq<Event>, count: nat): Outcome
    requires p <= |s|
  {
    if count == 0 then
      var (q, e) :- SkipWhitespaceAndComments(flags, s, p, evs);
      if Peek(s, q) == RBRACE then Ok(q + 1, e + [EndObject(0)])
      else ParseMembers(flags, s, q, e, 0)
    else ParseMemberEnd(flags, s, p, evs, count)
  }

  lemma {:induction false} ReadsObject(flags: Flags, s: Text, p: nat, style: W.Style, depth: nat,
                                       members: seq<Member>, evs: seq<Event>)
    requires Valid(Object(members), false) && W.Writable(style.ascii, Object(members)) && W.ValidStyle(style)
    requires At(s, p, W.ValueText(style, depth, Object(members)))
    ensures ParseValue(flags, s, p, evs)
         == Ok(p + |W.ValueText(style, depth, Object(members))|, evs + EventsOf(Object(members), true))
    decreases members, 2
  {
    hide At, W.PrefixText, W.ClosingText, W.MembersText, FromMember, SkipWhitespaceAndComments, MemberEvents,
         ParseValue, ParseMembers, ParseMemberEnd;
    var text := W.MembersText(style, depth + 1, members, 0);
    var closing := W.ClosingText(style.layout, depth, W.Level(2 * |members|, false));
    assert W.ValueText(style, depth, Object(members)) == [LBRACE] + text + closing + [RBRACE];
    assert [LBRACE] + text + closing + [RBRACE] == [LBRACE] + (text + (closing + [RBRACE]));
    AtSplit(s, p, [LBRACE], text + (closing + [RBRACE]));
    AtUnit(s, p, [LBRACE], 0);
    var e := evs + [StartObject];
    AtEnd(s, p, [LBRACE]);
    ReadsMembers(flags, s, p + 1, style, depth, members, 0, |members|, e);
    ObjectOf(flags, s, p, evs);
    assert EventsOf(Object(members), true) == [StartObject] + MemberEvents(members, true) + [EndObject(|members|)];
    assert e + MemberEvents(members, true) + [EndObject(|members|)] == evs + EventsOf(Object(members), true);
  }

  lemma ObjectOf(flags: Flags, s: Text, p: nat, evs: seq<Event>)
    requires p < |s| && s[p] == LBRACE
    ensures ParseValue(flags, s, p, evs) == FromMember(flags, s, p + 1, evs + [StartObject], 0)
  {
    assert ParseValue(flags, s, p, evs) == ParseObject(flags, s, p, evs);
    hide ParseValue, ParseMembers;
  }

  /** Members with their prefixes, then the end of the object; end is the number of members in all. */
  lemma {:induction false} ReadsMembers(flags: Flags, s: Text, p: nat, style: W.Style, depth: nat, members: seq<Member>,
                                        count: nat, end: nat, evs: seq<Event>)
    requires AllMembersValid(members, false) && W.AllMembersWritable(style.ascii, members) && W.ValidStyle(style)
    requires end == count + |members| < TWO_32
    requires At(s, p, W.MembersText(style, depth + 1, members, 2 * count)
                      + (W.ClosingText(style.layout, depth, W.Level(2 * end, false)) + [RBRACE]))
    ensures FromMember(flags, s, p, evs, count)
         == Ok(p + |W.MembersText(style, depth + 1, members, 2 * count)|
               + |W.ClosingText(style.layout, depth, W.Level(2 * end, false))| + 1,
               evs + MemberEvents(members, true) + [EndObject(end)])
    decreases members, 1
  {
    var closing := W.ClosingText(style.layout, depth, W.Level(2 * end, false));
    if |members| == 0 {
      ReadsObjectEnd(flags, s, p, style, depth, count, evs);
      assert [] + (closing + [RBRACE]) == closing + [RBRACE];
      assert evs + [] + [EndObject(count)] == evs + [EndObject(count)];
    } else {
      ReadsMember(flags, s, p, style, depth, members, count, end, evs);
    }
  }

  lemma ReadsObjectEnd(flags: Flags, s: Text, p: nat, style: W.Style, depth: nat, count: nat, evs: seq<Event>)
    requires W.ValidStyle(style)
    requires At(s, p, W.ClosingText(style.layout, depth, W.Level(2 * count, false)) + [RBRACE])
    ensures FromMember(flags, s, p, evs, count)
         == Ok(p + |W.ClosingText(style.layout, depth, W.Level(2 * count, false))| + 1, evs + [EndObject(count)])
  {
    var closing := W.ClosingText(style.layout, depth, W.Level(2 * count, false));
    ClosingIsBlank(style, depth, W.Level(2 * count, false));
    AtSplit(s, p, closing, [RBRACE]);
    AtUnit(s, p + |closing|, [RBRACE], 0);
    Skips(flags, s, p, closing, evs);
    hide SkipWhitespaceAndComments, W.ClosingText;
  }

  lemma CommaToMember(flags: Flags, s: Text, p: nat, q: nat, evs: seq<Event>, count: nat)
    requires p < |s| && q <= |s| && s[p] == COMMA && !IsWhitespace(Peek(s, q)) && Peek(s, q) != RBRACE
    requires SkipWhitespaceAndComments(flags, s, p, evs) == Ok(p, evs)
    requires SkipWhitespaceAndComments(flags, s, p + 1, evs) == Ok(q, evs)
    ensures ParseMemberEnd(flags, s, p, evs, count) == ParseMembers(flags, s, q, evs, count)
  {
    hide SkipWhitespaceAndComments, ParseMembers;
    assert ParseMemberEnd(flags, s, p, evs, count) == ParseNextMember(flags, s, p + 1, evs, count);
  }

  lemma ReachesMember(flags: Flags, s: Text, p: nat, style: W.Style, depth: nat, count: nat, evs: seq<Event>)
    requires W.ValidStyle(style) && At(s, p, W.PrefixText(style.layout, depth, W.Level(2 * count, false)))
    requires Peek(s, p + |W.PrefixText(style.layout, depth, W.Level(2 * count, false))|) == QUOTE
    ensures FromMember(flags, s, p, evs, count)
         == ParseMembers(flags, s, p + |W.PrefixText(style.layout, depth, W.Level(2 * count, false))|, evs, count)
  {
    hide At, W.PrefixText, ParseMembers, ParseMemberEnd, SkipWhitespaceAndComments;
    SkipsPrefix(flags, s, p, style, depth, W.Level(2 * count, false), evs);
    if count > 0 {
      CommaToMember(flags, s, p, p + |W.PrefixText(style.layout, depth, W.Level(2 * count, false))|, evs, count);
    }
  }

  /** The colon and blanks after a name bring the parser to the value. */
  lemma ReachesValue(flags: Flags, s: Text, p: nat, style: W.Style, depth: nat, count: nat, evs: seq<Event>)
    requires W.ValidStyle(style) && At(s, p, W.PrefixText(style.layout, depth, W.Level(2 * count + 1, false)))
    requires StartsValue(Peek(s, p + |W.PrefixText(style.layout, depth, W.Level(2 * count + 1, false))|))
    ensures ParseMemberValue(flags, s, p, evs)
         == ParseValue(flags, s, p + |W.PrefixText(style.layout, depth, W.Level(2 * count + 1, false))|, evs)
  {
    hide At, W.PrefixText, ParseValue, SkipWhitespaceAndComments;
    SkipsPrefix(flags, s, p, style, depth, W.Level(2 * count + 1, false), evs);
  }

  lemma {:induction false} ReadsMember(flags: Flags, s: Text, p: nat, style: W.Style, depth: nat, members: seq<Member>,
                                       count: nat, end: nat, evs: seq<Event>)
    requires AllMembersValid(members, false) && W.AllMembersWritable(style.ascii, members) && W.ValidStyle(style)
    requires end == count + |members| < TWO_32 && |members| > 0
    requires At(s, p, W.MembersText(style, depth + 1, members, 2 * count)
                      + (W.ClosingText(style.layout, depth, W.Level(2 * end, false)) + [RBRACE]))
    ensures FromMember(flags, s, p, evs, count)
         == Ok(p + |W.MembersText(style, depth + 1, members, 2 * count)|
               + |W.ClosingText(style.layout, depth, W.Level(2 * end, false))| + 1,
               evs + MemberEvents(members, true) + [EndObject(end)])
    decreases members, 0
  {
    hide At, W.PrefixText, W.ClosingText, FromMember, ParseValue, ParseMembers, ParseMemberValue, W.ValueText, Valid,
         W.Writable, EventsOf, W.StringText, ParseString;
    var m := members[0];
    var named := W.MemberText(style, depth + 1, m.name, 2 * count);
    var text := W.ValueText(style, depth + 1, m.value);
    var rest := W.MembersText(style, depth + 1, members[1..], 2 * (count + 1));
    var closing := W.ClosingText(style.layout, depth, W.Level(2 * end, false)) + [RBRACE];
    assert W.MembersText(style, depth + 1, members, 2 * count) == named + text + rest;
    AtPieces(s, p, named, text, rest, closing);
    var q := p + |named|;
    ValueStarts(style, depth + 1, m.value);
    AtUnit(s, q, text, 0);
    var e := evs + [KeyEvent(m.name)];
    ReadsName(flags, s, p, style, depth + 1, m.name, count, evs);
    MemberTailEndsNumber(style, depth, members[1..], count + 1, end);
    AtUnit(s, q + |text|, rest + closing, 0);
    ReadsValue(flags, s, q, style, depth + 1, m.value, e);
    AtEnd(s, q, text);
    var f := e + EventsOf(m.value, true);
    assert f == evs + ([KeyEvent(m.name)] + EventsOf(m.value, true));
    ReadsMembers(flags, s, q + |text|, style, depth, members[1..], count + 1, end, f);
    assert f + MemberEvents(members[1..], true) == evs + MemberEvents(members, true);
  }

  /** From the separator of a member over its name to its value. */
  lemma ReadsName(flags: Flags, s: Text, p: nat, style: W.Style, depth: nat, name: Text, count: nat, evs: seq<Event>)
    requires W.ValidStyle(style) && count + 1 < TWO_32 && W.StringText(style.ascii, name).ok
    requires At(s, p, W.MemberText(style, depth, name, 2 * count))
    requires StartsValue(Peek(s, p + |W.MemberText(style, depth, name, 2 * count)|))
    ensures p + |W.MemberText(style, depth, name, 2 * count)| <= |s|
    ensures var q := p + |W.MemberText(style, depth, name, 2 * count)|;
            var v := ParseValue(flags, s, q, evs + [KeyEvent(name)]);
            v.Ok? ==> FromMember(flags, s, p, evs, count) == FromMember(flags, s, v.pos, v.evs, count + 1)
  {
    hide At, W.PrefixText, W.StringText, FromMember, ParseValue, ParseMemberValue, ParseString, ParseMembers;
    var before := W.PrefixText(style.layout, depth, W.Level(2 * count, false));
    var text := W.StringText(style.ascii, name).text;
    var colon := W.PrefixText(style.layout, depth, W.Level(2 * count + 1, false));
    assert before + text + colon + [] == W.MemberText(style, depth, name, 2 * count);
    AtPieces(s, p, before, text, colon, []);
    assert colon + [] == colon;
    var q := p + |before| + |text|;
    AtEnd(s, q, colon);
    ReadsString(s, p + |before|, style.ascii, name, true, evs);
    ReachesMember(flags, s, p, style, depth, count, evs);
    ReachesValue(flags, s, q, style, depth, count, evs + [KeyEvent(name)]);
    MembersOf(flags, s, p + |before|, evs, count, q, evs + [KeyEvent(name)]);
  }

  lemma MembersOf(flags: Flags, s: Text, p: nat, evs: seq<Event>, count: nat, q: nat, e: seq<Event>)
    requires p < |s| && s[p] == QUOTE && count + 1 < TWO_32 && q <= |s|
    requires ParseString(s, p, true, evs) == Ok(q, e)
    ensures var v := ParseMemberValue(flags, s, q, e);
            v.Ok? ==> ParseMembers(flags, s, p, evs, count) == FromMember(flags, s, v.pos, v.evs, count + 1)
  {
    hide ParseString, ParseMemberValue, ParseMemberEnd;
  }

  lemma MemberTailEndsNumber(style: W.Style, depth: nat, members: seq<Member>, count: nat, end: nat)
    requires W.ValidStyle(style) && count > 0
    ensures var tail := W.MembersText(style, depth + 1, members, 2 * count)
                        + (W.ClosingText(style.layout, depth, W.Level(2 * end, false)) + [RBRACE]);
            |tail| > 0 && EndsNumber(tail[0])
  {
    hide W.StringText, W.ValueText;
    if |members| > 0 {
      GapIsBlank(style, depth + 1, W.Level(2 * count, false));
    } else {
      ClosingIsBlank(style, depth, W.Level(2 * end, false));
    }
  }

  // ------------------------------------------------------- whole documents

  /** The text a writer leaves for a value, from an empty sink. */
  function Stringify(style: W.Style, v: Value): Text {
    W.ValueText(style, 0, v)
  }

  /** Visiting a value with a writer writes its text and completes the root. */
  lemma AcceptWrites(style: W.Style, v: Value)
    requires Valid(v, false) && W.Writable(style.ascii, v)
    ensures W.WriteAll(style, W.EMPTY_SINK, EventsOf(v, false)) == W.Ran(true, W.Sink(Stringify(style, v), [], true))
  {
    hide W.ValueText;
    W.WritesValue(style, W.EMPTY_SINK, v, false);
  }

  /** Both parsers read the text of a value as the events of that value and end where the text ends. */
  lemma ParsesBack(flags: Flags, style: W.Style, v: Value)
    requires Valid(v, false) && W.Writable(style.ascii, v) && W.ValidStyle(style)
    ensures var s := Stringify(style, v);
            Parse(flags, s) == IterativeParse(flags, s) == Ok(|s|, EventsOf(v, true))
  {
    hide W.ValueText, ParseValue;
    var s := Stringify(style, v);
    ValueStarts(style, 0, v);
    assert s[0..|s|] == s;
    assert s[0..0] == [] && s[|s|..|s|] == [];
    Skips(flags, s, 0, [], []);
    Skips(flags, s, |s|, [], EventsOf(v, true));
    ReadsValue(flags, s, 0, style, 0, v, []);
    assert [] + EventsOf(v, true) == EventsOf(v, true);
    ParsersAgree(flags, s);
  }

  /**
   * The round trip: visiting a value with any writer, parsing the text with either parser and feeding
   * the events to a document leaves exactly that value on its stack.
   */
  lemma DocumentRoundTrip(flags: Flags, style: W.Style, v: Value)
    requires Valid(v, false) && W.Writable(style.ascii, v) && W.ValidStyle(style)
    ensures var run := W.WriteAll(style, W.EMPTY_SINK, EventsOf(v, false));
            && run.Ran? && run.ok && run.sink.hasRoot && run.sink.levels == []
            && Parse(flags, run.sink.out).Ok?
            && IterativeParse(flags, run.sink.out) == Parse(flags, run.sink.out)
            && HandleAll([], Parse(flags, run.sink.out).evs) == Built([v])
  {
    AcceptWrites(style, v);
    ParsesBack(flags, style, v);
    DoublesMayBeMissing(v);
    Rebuilds([], v, true);
    assert [] + [v] == [v];
  }
}

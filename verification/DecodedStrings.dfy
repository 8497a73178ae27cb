/**
 * When a decoded string is well-formed UTF-8. The units between escapes are copied unchecked, and a \u escape of a
 * lone trail surrogate is encoded like any code point, so neither is a matter of course.
 */
module DecodedStrings {
  import opened Bytes
  import opened Encodings
  import opened Events
  import opened Scanning
  import opened Reading

  /** A maximal stretch of units that stand for themselves, or the escape whose backslash stands at a position. */
  datatype Part = Plain(from: nat, to: nat) | Escaped(at: nat)

  predicate StandsForItself(c: byte) {
    c != BACKSLASH && c != QUOTE && c >= 0x20
  }

  function PlainEnd(s: Text, p: nat): (q: nat)
    requires p <= |s|
    ensures p <= q <= |s| && !StandsForItself(Peek(s, q))
    ensures forall k | p <= k < q :: StandsForItself(s[k])
    decreases |s| - p
  {
    if StandsForItself(Peek(s, p)) then PlainEnd(s, p + 1) else p
  }

  /** Where the escape at p ends: two units, six, or the twelve of a surrogate pair. */
  function EscapeEnd(s: Text, p: nat): nat {
    if Peek(s, p + 1) != LOWER_U then p + 2
    else if 0xD800 <= Hex4(s, p + 2) <= 0xDBFF then p + 12
    else p + 6
  }

  /** The parts of a string body from p to its closing quote. */
  function Parts(s: Text, p: nat): (parts: seq<Part>)
    requires p <= |s|
    ensures forall part | part in parts :: part.Plain? ==> part.from <= part.to <= |s|
    decreases |s| - p
  {
    var q := PlainEnd(s, p);
    [Plain(p, q)] + if Peek(s, q) == BACKSLASH && EscapeEnd(s, q) <= |s| then [Escaped(q)] + Parts(s, EscapeEnd(s, q))
                    else []
  }

  /** The escape at p is a \u escape of a trail surrogate; that of a pair is inside the escape of its lead. */
  predicate LoneTrail(s: Text, p: nat) {
    Peek(s, p + 1) == LOWER_U && 0xDC00 <= Hex4(s, p + 2) <= 0xDFFF
  }

  /** What a part must satisfy. */
  predicate Sound(s: Text, part: Part)
    requires part.Plain? ==> part.from <= part.to <= |s|
  {
    match part
    case Plain(from, to) => IsUTF8(s[from..to])
    case Escaped(at) => !LoneTrail(s, at)
  }

  predicate AllSound(s: Text, p: nat)
    requires p <= |s|
  {
    forall part | part in Parts(s, p) :: Sound(s, part)
  }

  // ------------------------------------------------- UTF-8 piece by piece

  /** Decoding does not look at what stands before. */
  lemma {:induction false} DecodeAllShift(a: Text, b: Text, p: nat)
    requires p <= |b|
    ensures DecodeAll(a + b, |a| + p) == DecodeAll(b, p)
    decreases |b| - p
  {
    if p < |b| {
      DecodeShift(a, b, p);
      hide Decode;
      var d := Decode(b, p);
      if d.ok {
        AcceptedInside(b, p);
        DecodeAllShift(a, b, d.pos);
      }
    }
  }

  lemma DecodeShift(a: Text, b: Text, p: nat)
    ensures var d := Decode(b, p); Decode(a + b, |a| + p) == d.(pos := |a| + d.pos)
  {
    assert forall k: nat :: Peek(a + b, |a| + k) == Peek(b, k);
  }

  /** A text that does not begin with a continuation unit cannot complete a sequence broken off before it. */
  lemma NotCompleted(a: Text, b: Text, p: nat)
    requires p < |a| && (b == [] || !UTF8Tail(b[0]))
    ensures Decode(a, p).ok == Decode(a + b, p).ok
    ensures Decode(a, p).ok ==> Decode(a, p) == Decode(a + b, p)
  {
    var s := a + b;
    if Decode(a, p).ok {
      AcceptedInside(a, p);
      DecodeAcceptsExactlyUTF8(a, p);
      var n := Decode(a, p).pos;
      assert s[p..n] == a[p..n];
      DecodeLocal(a, p, n);
      DecodeLocal(s, p, n);
    } else if Decode(s, p).ok {
      AcceptedInside(s, p);
      DecodeAcceptsExactlyUTF8(s, p);
      var n := Decode(s, p).pos;
      TailsFollow(s[p..n]);
      if n <= |a| {
        assert s[p..n] == a[p..n];
        DecodeAcceptsExactlyUTF8(a, p);
      }
    }
  }

  lemma TailsFollow(s: Text)
    requires UTF8Char(s)
    ensures forall k | 0 < k < |s| :: UTF8Tail(s[k])
  {
  }

  /**
   * Two texts of which the second does not begin with a continuation unit are well-formed together as they are alone.
   */
  lemma {:induction false} DecodeAllParts(a: Text, b: Text, p: nat)
    requires p <= |a| && (b == [] || !UTF8Tail(b[0]))
    ensures DecodeAll(a + b, p).Scalars? <==> DecodeAll(a, p).Scalars? && IsUTF8(b)
    decreases |a| - p
  {
    if p == |a| {
      DecodeAllShift(a, b, 0);
      if b == [] {
        assert a + b == a;
      }
    } else {
      NotCompleted(a, b, p);
      hide Decode;
      if Decode(a, p).ok {
        AcceptedInside(a, p);
        DecodeAllParts(a, b, Decode(a, p).pos);
      }
    }
  }

  /** A code point is encoded as well-formed UTF-8 unless it is a surrogate. */
  lemma EncodedFirst(code: nat, rest: Text)
    requires code <= 0x10FFFF
    ensures !UTF8Tail(Encode(code)[0])
    ensures IsUTF8(Encode(code) + rest) <==> IsScalar(code) && IsUTF8(rest)
  {
    var s := Encode(code) + rest;
    if IsScalar(code) {
      DecodeEncode([], code, rest);
      assert [] + Encode(code) + rest == s;
      DecodeAllShift(Encode(code), rest, 0);
    } else {
      SurrogateMalformed(code, rest);
    }
  }

  lemma SurrogateMalformed(code: nat, rest: Text)
    requires 0xD800 <= code <= 0xDFFF
    ensures !Decode(Encode(code) + rest, 0).ok
  {
    var s := Encode(code) + rest;
    assert s[0] == 0xED && s[1] == 0x80 + code / 64 % 64;
    assert code / 64 % 64 >= 0x20;
    assert GetRange(s[1]) == 0x20;
  }

  // ----------------------------------------------------------- the scan

  /** What has been decoded before only goes in front. */
  lemma {:induction false} ScanPrefix(s: Text, p: nat, a: Text, b: Text)
    requires p <= |s|
    ensures var r, t := ScanString(s, p, a + b), ScanString(s, p, b);
            r == if t.Scanned? then Scanned(t.pos, a + t.str) else t
    decreases |s| - p
  {
    hide ScanUnicode, Encode;
    var c := Peek(s, p);
    var e := Peek(s, p + 1);
    if c == BACKSLASH && Escape(e) != 0 {
      assert a + b + [Escape(e)] == a + (b + [Escape(e)]);
      ScanPrefix(s, p + 2, a, b + [Escape(e)]);
    } else if c == BACKSLASH {
      var u := ScanUnicode(s, p);
      if e == LOWER_U && u.CodePoint? {
        assert a + b + Encode(u.code) == a + (b + Encode(u.code));
        ScanPrefix(s, u.pos, a, b + Encode(u.code));
      }
    } else if StandsForItself(c) {
      assert a + b + [c] == a + (b + [c]);
      ScanPrefix(s, p + 1, a, b + [c]);
    }
  }

  lemma {:induction false} ScanPlain(s: Text, p: nat, str: Text)
    requires p <= |s|
    ensures ScanString(s, p, str) == ScanString(s, PlainEnd(s, p), str + s[p..PlainEnd(s, p)])
    decreases |s| - p
  {
    var q := PlainEnd(s, p);
    if q == p {
      assert str + s[p..q] == str;
    } else {
      ScanPlain(s, p + 1, str + [s[p]]);
      assert str + [s[p]] + s[p + 1..q] == str + s[p..q];
    }
  }

  /** An escape is decoded to a code point, a surrogate only if it is a lone trail. */
  lemma ScanEscape(s: Text, p: nat, str: Text) returns (code: nat)
    requires p <= |s| && Peek(s, p) == BACKSLASH && ScanString(s, p, str).Scanned?
    ensures code <= 0x10FFFF && (IsScalar(code) <==> !LoneTrail(s, p)) && p < EscapeEnd(s, p) <= |s|
    ensures ScanString(s, p, str) == ScanString(s, EscapeEnd(s, p), str + Encode(code))
  {
    var e := Peek(s, p + 1);
    if Escape(e) != 0 {
      code := Escape(e);
    } else {
      code := ScanUnicode(s, p).code;
    }
  }

  lemma UTF8Parts(a: Text, b: Text)
    requires b == [] || !UTF8Tail(b[0])
    ensures IsUTF8(a + b) <==> IsUTF8(a) && IsUTF8(b)
  {
    DecodeAllParts(a, b, 0);
  }

  lemma ScanEnds(s: Text, q: nat)
    requires q <= |s| && !StandsForItself(Peek(s, q)) && Peek(s, q) != BACKSLASH && ScanString(s, q, []).Scanned?
    ensures ScanString(s, q, []).str == []
  {
  }

  lemma PartsStep(s: Text, p: nat)
    requires p <= |s| && Peek(s, PlainEnd(s, p)) == BACKSLASH && EscapeEnd(s, PlainEnd(s, p)) <= |s|
    ensures var q := PlainEnd(s, p);
            AllSound(s, p) <==> IsUTF8(s[p..q]) && !LoneTrail(s, q) && AllSound(s, EscapeEnd(s, q))
  {
    hide IsUTF8, LoneTrail, EscapeEnd;
    var q := PlainEnd(s, p);
    var rest := Parts(s, EscapeEnd(s, q));
    assert Parts(s, p) == [Plain(p, q), Escaped(q)] + rest;
    assert Plain(p, q) in Parts(s, p) && Escaped(q) in Parts(s, p);
    assert Sound(s, Plain(p, q)) == IsUTF8(s[p..q]) && Sound(s, Escaped(q)) == !LoneTrail(s, q);
    hide Sound;
    assert forall part :: part in Parts(s, p) <==> part == Plain(p, q) || part == Escaped(q) || part in rest;
  }

  lemma PartsEnd(s: Text, p: nat)
    requires p <= |s| && Peek(s, PlainEnd(s, p)) != BACKSLASH
    ensures AllSound(s, p) <==> IsUTF8(s[p..PlainEnd(s, p)])
  {
    hide IsUTF8;
    var part := Plain(p, PlainEnd(s, p));
    assert Parts(s, p) == [part];
    assert part in Parts(s, p) && Sound(s, part) == IsUTF8(s[p..PlainEnd(s, p)]);
  }

  /**
   * A string is decoded to well-formed UTF-8 if and only if every stretch of plain units between its escapes is
   * well-formed by itself and none of its \\u escapes is a lone trail surrogate.
   */
  lemma {:induction false} DecodedIsUTF8(s: Text, p: nat)
    requires p <= |s| && ScanString(s, p, []).Scanned?
    ensures IsUTF8(ScanString(s, p, []).str) <==> AllSound(s, p)
    decreases |s| - p
  {
    hide IsUTF8, DecodeAll, LoneTrail, ScanString, Hex4, Encode;
    var q := PlainEnd(s, p);
    var run := s[p..q];
    assert [] + run == run == run + [];
    ScanPlain(s, p, []);
    ScanPrefix(s, q, run, []);
    if Peek(s, q) == BACKSLASH {
      var code := ScanEscape(s, q, []);
      var r := EscapeEnd(s, q);
      assert [] + Encode(code) == Encode(code) == Encode(code) + [];
      ScanPrefix(s, r, Encode(code), []);
      var rest := ScanString(s, r, []).str;
      EncodedFirst(code, rest);
      UTF8Parts(run, Encode(code) + rest);
      DecodedIsUTF8(s, r);
      PartsStep(s, p);
    } else {
      ScanEnds(s, q);
      UTF8Parts(run, []);
      PartsEnd(s, p);
    }
  }

  // ------------------------------------------------- well-formed texts

  lemma {:induction false} SkipASCII(s: Text, p: nat, q: nat)
    requires p <= q <= |s| && DecodeAll(s, p).Scalars? && forall k | p <= k < q :: s[k] < 0x80
    ensures DecodeAll(s, q).Scalars?
    decreases q - p
  {
    if p < q {
      assert Decode(s, p) == Decoded(true, s[p], p + 1);
      hide Decode;
      SkipASCII(s, p + 1, q);
    }
  }

  /** A well-formed text can be cut in front of a unit that continues no sequence. */
  lemma CutBefore(s: Text, p: nat, q: nat)
    requires p <= q <= |s| && DecodeAll(s, p).Scalars? && (q == |s| || !UTF8Tail(s[q]))
    ensures IsUTF8(s[p..q]) && DecodeAll(s, q).Scalars?
  {
    hide DecodeAll;
    DecodeAllShift(s[..p], s[p..], 0);
    assert s[..p] + s[p..] == s;
    assert s[p..] == s[p..q] + s[q..];
    UTF8Parts(s[p..q], s[q..]);
    DecodeAllShift(s[..q], s[q..], 0);
    assert s[..q] + s[q..] == s;
  }

  lemma HexIsASCII(s: Text, p: nat)
    requires Hex4(s, p) >= 0
    ensures p + 4 <= |s| && forall k | p <= k < p + 4 :: s[k] < 0x80
  {
    assert s[p] < 0x80 && s[p + 1] < 0x80 && s[p + 2] < 0x80 && s[p + 3] < 0x80;
  }

  /** The units of an escape that is scanned. */
  lemma EscapeUnits(s: Text, p: nat)
    requires p <= |s| && Peek(s, p) == BACKSLASH && ScanString(s, p, []).Scanned?
    ensures EscapeEnd(s, p) <= |s|
    ensures Peek(s, p + 1) == LOWER_U ==> Hex4(s, p + 2) >= 0
    ensures Peek(s, p + 1) != LOWER_U ==> Peek(s, p + 1) < 0x80
    ensures EscapeEnd(s, p) == p + 12 ==> Peek(s, p + 6) < 0x80 && Peek(s, p + 7) < 0x80 && Hex4(s, p + 8) >= 0
  {
    hide Hex4;
    var code := ScanEscape(s, p, []);
  }

  lemma EscapeIsASCII(s: Text, p: nat)
    requires p <= |s| && Peek(s, p) == BACKSLASH && ScanString(s, p, []).Scanned?
    ensures p < EscapeEnd(s, p) <= |s| && forall k | p <= k < EscapeEnd(s, p) :: s[k] < 0x80
  {
    EscapeUnits(s, p);
    hide ScanString, Hex4, Parts;
    assert p + 1 < |s| && s[p] < 0x80 && s[p + 1] < 0x80;
    if Peek(s, p + 1) == LOWER_U {
      HexIsASCII(s, p + 2);
      if EscapeEnd(s, p) == p + 12 {
        HexIsASCII(s, p + 8);
      }
    }
  }

  /** Some escape of the string body from p on is a lone trail surrogate. */
  predicate HasLoneTrail(s: Text, p: nat)
    requires p <= |s|
  {
    exists part | part in Parts(s, p) :: part.Escaped? && LoneTrail(s, part.at)
  }

  /** In a well-formed text all stretches of plain units are well-formed. */
  lemma {:induction false} PlainPartsSound(s: Text, p: nat)
    requires p <= |s| && DecodeAll(s, p).Scalars? && ScanString(s, p, []).Scanned?
    ensures AllSound(s, p) <==> !HasLoneTrail(s, p)
    decreases |s| - p
  {
    hide IsUTF8, DecodeAll, LoneTrail, ScanString, Encode, EscapeEnd, Hex4;
    var q := PlainEnd(s, p);
    CutBefore(s, p, q);
    ScanPlain(s, p, []);
    ScanPrefix(s, q, [] + s[p..q], []);
    assert [] + s[p..q] + [] == [] + s[p..q];
    if Peek(s, q) == BACKSLASH {
      EscapeIsASCII(s, q);
      var r := EscapeEnd(s, q);
      var code := ScanEscape(s, q, []);
      ScanPrefix(s, r, [] + Encode(code), []);
      assert [] + Encode(code) + [] == [] + Encode(code);
      SkipASCII(s, q, r);
      PlainPartsSound(s, r);
      PartsStep(s, p);
      assert Parts(s, p) == [Plain(p, q), Escaped(q)] + Parts(s, r);
    } else {
      PartsEnd(s, p);
      assert Parts(s, p) == [Plain(p, q)];
    }
  }

  /**
   * What a parser delivers for a string of a well-formed text is well-formed if and only if no escape of it is a
   * lone trail surrogate.
   */
  lemma DeliveredIsUTF8(s: Text, p: nat, isKey: bool, evs: seq<Event>)
    requires p < |s| && s[p] == QUOTE && IsUTF8(s) && ParseString(s, p, isKey, evs).Ok?
    ensures var e := ParseString(s, p, isKey, evs).evs[|evs|];
            (e.StringEvent? || e.KeyEvent?) && (IsUTF8(e.str) <==> !HasLoneTrail(s, p + 1))
  {
    hide DecodeAll, LoneTrail, ScanString, HasLoneTrail;
    CutBefore(s, 0, p);
    SkipASCII(s, p, p + 1);
    PlainPartsSound(s, p + 1);
    DecodedIsUTF8(s, p + 1);
  }

  // -------------------------------------------------------- an example

  /** A document of one string, whose one escape is a lone trail surrogate. */
  const LONE: Text := [QUOTE, BACKSLASH, LOWER_U, 0x44, 0x43, ZERO, ZERO, QUOTE]

  /** It is accepted and delivered as three bytes that are not well-formed UTF-8. */
  lemma LoneTrailAccepted(flags: Flags)
    ensures Parse(flags, LONE) == Ok(8, [StringEvent([0xED, 0xB0, 0x80])])
    ensures !IsUTF8([0xED, 0xB0, 0x80])
  {
    LoneScanned();
    hide ScanString, ParseNumber;
    assert SkipWhitespace(LONE, 0) == 0 && SkipWhitespace(LONE, 8) == 8;
  }

  lemma LoneScanned()
    ensures ScanString(LONE, 1, []) == Scanned(8, [0xED, 0xB0, 0x80])
  {
    assert Hex4(LONE, 3) == 0xDC00;
    assert ScanUnicode(LONE, 1) == CodePoint(0xDC00, 7);
    assert Encode(0xDC00) == [0xED, 0xB0, 0x80];
    assert [] + Encode(0xDC00) == [0xED, 0xB0, 0x80];
    assert ScanString(LONE, 7, [0xED, 0xB0, 0x80]) == Scanned(8, [0xED, 0xB0, 0x80]);
  }
}

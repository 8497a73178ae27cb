/** Which texts are JSON pointers, and what tokens they stand for: sections 3 and 6 of RFC 6901. */
module PointerGrammar {
  import opened Bytes
  import opened Characters
  import opened Encodings
  import P = Pointer

  /** A piece of a reference token and the bytes of the name it stands for. */
  datatype Spelling = Spelling(text: Text, meant: Text)

  /** The unreserved characters of section 2.3 of RFC 3986, but for the tilde. */
  predicate Unreserved(c: byte) {
    Unit('A') <= c <= Unit('Z') || Unit('a') <= c <= Unit('z') || Unit('0') <= c <= Unit('9')
    || c == Unit('-') || c == Unit('.') || c == Unit('_')
  }

  /** What may follow a tilde. */
  predicate Escaped(c: byte, meant: Text) {
    (c == Unit('0') && meant == [Unit('~')]) || (c == Unit('1') && meant == [Unit('/')])
  }

  /** A percent sign and two hexadecimal digits. */
  predicate Triplet(text: Text, k: nat, b: byte)
    requires k + 3 <= |text|
  {
    text[k] == Unit('%') && IsHex(text[k + 1], b / 16) && IsHex(text[k + 2], b % 16)
  }

  predicate Triplets(text: Text, bytes: Text) {
    |text| == 3 * |bytes| && forall k | 0 <= k < |bytes| :: Triplet(text, 3 * k, bytes[k])
  }

  predicate Legal(uri: bool, p: Spelling) {
    || (|p.text| == 1 && p.meant == p.text
        && if uri then Unreserved(p.text[0]) else p.text[0] != Unit('~') && p.text[0] != Unit('/'))
    || (|p.text| == 2 && p.text[0] == Unit('~') && Escaped(p.text[1], p.meant))
    || (uri && UTF8Char(p.meant) && p.meant != [Unit('~')] && Triplets(p.text, p.meant))
    || (uri && |p.text| == 4 && Triplet(p.text, 0, Unit('~')) && Escaped(p.text[3], p.meant))
  }

  predicate AllLegal(uri: bool, ps: seq<Spelling>) {
    forall i | 0 <= i < |ps| :: Legal(uri, ps[i])
  }

  function Spelled(ps: seq<Spelling>): Text {
    if |ps| == 0 then [] else ps[0].text + Spelled(ps[1..])
  }

  function Meant(ps: seq<Spelling>): Text {
    if |ps| == 0 then [] else ps[0].meant + Meant(ps[1..])
  }

  ghost predicate NameStands(uri: bool, text: Text, name: Text) {
    exists ps: seq<Spelling> :: AllLegal(uri, ps) && Spelled(ps) == text && Meant(ps) == name
  }

  // ------------------------------------------------------------- one piece

  lemma TripletHead(s: Text, i: nat, b: byte)
    requires i + 3 <= |s|
    ensures var run := P.Percents(s, i);
            && (Triplet(s, i, b) <==> |run| > 0 && run[0] == b)
            && (|run| > 0 ==> run[1..] == P.Percents(s, i + 3))
  {
    hide IsHex;
    HexMeaning(s[i + 1], b / 16);
    HexMeaning(s[i + 2], b % 16);
    var x, y := HexValue(s[i + 1]), HexValue(s[i + 2]);
    if x >= 0 && y >= 0 {
      assert (x * 16 + y) / 16 == x && (x * 16 + y) % 16 == y;
    }
    hide HexValue;
    assert b == b / 16 * 16 + b % 16;
  }

  /** The triplets that are read are the whole ones that follow each other, digits of either case. */
  lemma {:induction false} TripletsAreRun(s: Text, i: nat, bytes: Text)
    requires i + 3 * |bytes| <= |s|
    ensures Triplets(s[i..i + 3 * |bytes|], bytes) <==> bytes <= P.Percents(s, i)
    decreases |bytes|
  {
    hide P.Percents, Triplet;
    if |bytes| > 0 {
      TripletHead(s, i, bytes[0]);
      TripletsAreRun(s, i + 3, bytes[1..]);
      TripletsCons(s, i, bytes);
      hide Triplets;
      PrefixCons(bytes, P.Percents(s, i));
    }
  }

  lemma PrefixCons(a: Text, b: Text)
    requires |a| > 0
    ensures a <= b <==> |b| > 0 && a[0] == b[0] && a[1..] <= b[1..]
  {
    if |b| > 0 && a[0] == b[0] && a[1..] <= b[1..] {
      assert b == [b[0]] + b[1..] && a == [a[0]] + a[1..];
    }
    if a <= b {
      assert a[1..] == b[1..|a|];
    }
  }

  lemma TripletsCons(s: Text, i: nat, bytes: Text)
    requires i + 3 * |bytes| <= |s| && |bytes| > 0
    ensures Triplets(s[i..i + 3 * |bytes|], bytes) <==>
            Triplet(s, i, bytes[0]) && Triplets(s[i + 3..i + 3 + 3 * |bytes[1..]|], bytes[1..])
  {
    hide IsHex;
    var t, u := s[i..i + 3 * |bytes|], s[i + 3..i + 3 + 3 * |bytes[1..]|];
    assert Triplet(t, 0, bytes[0]) == Triplet(s, i, bytes[0]);
    forall k | 0 <= k < |bytes| - 1 ensures Triplet(u, 3 * k, bytes[1..][k]) == Triplet(t, 3 * (k + 1), bytes[k + 1]) {
    }
    if Triplets(t, bytes) {
      assert Triplet(t, 3 * 0, bytes[0]);
    }
    forall k | 0 <= k < |bytes| && Triplet(t, 0, bytes[0]) && Triplets(u, bytes[1..]) ensures Triplet(t, 3 * k, bytes[k]) {
      if k > 0 {
        assert Triplet(u, 3 * (k - 1), bytes[1..][k - 1]);
      }
    }
  }

  /** An escape whose tilde has been read, and what does not begin one. */
  lemma Unescapes(s: Text, c: byte, i: nat, meant: Text, next: nat)
    ensures P.Unescape(s, c, i) == P.Units(meant, next) <==>
            if c == Unit('~') then next == i + 1 && i < |s| && Escaped(s[i], meant) else next == i && meant == [c]
  {
  }

  lemma Slice1(s: Text, i: nat)
    requires i < |s|
    ensures s[i..i + 1] == [s[i]]
  {
  }

  /** In the plain form every unit but tilde and solidus stands for itself. */
  lemma PlainPiece(s: Text, i: nat, meant: Text, next: nat)
    requires i < |s| && s[i] != SLASH
    ensures P.NextPiece(s, i, false) == P.Units(meant, next) <==>
            i < next <= |s| && Legal(false, Spelling(s[i..next], meant))
  {
    Unescapes(s, s[i], i + 1, meant, next);
    hide P.Unescape;
    Slice1(s, i);
  }

  /** In the fragment form, without a percent sign. */
  lemma UnreservedPiece(s: Text, i: nat, meant: Text, next: nat)
    requires i < |s| && s[i] != SLASH && s[i] != PERCENT
    ensures P.NextPiece(s, i, true) == P.Units(meant, next) <==>
            i < next <= |s| && Legal(true, Spelling(s[i..next], meant))
  {
    Unescapes(s, s[i], i + 1, meant, next);
    hide P.Unescape, UTF8Char, Escaped, IsHex;
    Slice1(s, i);
    if i < next <= |s| {
      NoTriplet(s, i, next, meant);
    }
  }

  lemma TripletsStart(text: Text, bytes: Text)
    requires |bytes| > 0 && Triplets(text, bytes)
    ensures |text| >= 3 && Triplet(text, 0, bytes[0])
  {
    assert Triplet(text, 3 * 0, bytes[0]);
  }

  lemma NoTriplet(s: Text, i: nat, next: nat, meant: Text)
    requires i < next <= |s| && s[i] != PERCENT
    ensures UTF8Char(meant) ==> !Triplets(s[i..next], meant)
    ensures next == i + 4 ==> !Triplet(s[i..next], 0, Unit('~'))
  {
    hide IsHex;
    if UTF8Char(meant) && Triplets(s[i..next], meant) {
      TripletsStart(s[i..next], meant);
    }
  }

  /** The first sequence of a run of triplets. */
  lemma RunSequence(run: Text, meant: Text)
    requires UTF8Char(meant) && meant <= run
    ensures |run| > 0 && Decode(run, 0).ok && Decode(run, 0).pos == |meant|
  {
    assert run[0..|meant|] == meant;
    CharIsEncoding(meant);
    DecodeLocal(run, 0, |meant|);
  }

  lemma PercentIsNextPiece(s: Text, i: nat, meant: Text, next: nat)
    requires i < next <= |s| && s[i] == PERCENT && Legal(true, Spelling(s[i..next], meant))
    ensures P.NextPiece(s, i, true) == P.Units(meant, next)
  {
    hide UTF8Char, Decode, IsHex, P.Percents;
    var text, run := s[i..next], P.Percents(s, i);
    if UTF8Char(meant) && meant != [Unit('~')] && Triplets(text, meant) {
      TripletsAreRun(s, i, meant);
      RunSequence(run, meant);
      assert run[..|meant|] == meant;
      if |meant| == 1 {
        assert meant == [run[0]];
        Unescapes(s, run[0], i + 3, meant, next);
      }
    } else {
      assert |text| == 4 && Triplet(s, i, Unit('~')) && s[i + 3] == text[3];
      TripletHead(s, i, Unit('~'));
      TildeDecodes(run);
      Unescapes(s, run[0], i + 3, meant, next);
    }
  }

  lemma TildeDecodes(run: Text)
    requires |run| > 0 && run[0] == TILDE
    ensures Decode(run, 0).ok && Decode(run, 0).pos == 1
  {
  }

  lemma NextPieceIsPercent(s: Text, i: nat, meant: Text, next: nat)
    requires i < |s| && s[i] == PERCENT && P.NextPiece(s, i, true) == P.Units(meant, next)
    ensures i < next <= |s| && Legal(true, Spelling(s[i..next], meant))
  {
    hide Decode, P.Percents, IsHex, UTF8Char, HexValue, Triplets, Triplet;
    var run := P.Percents(s, i);
    var n := Decode(run, 0).pos;
    AcceptedInside(run, 0);
    DecodeAcceptsExactlyUTF8(run, 0);
    TripletsAreRun(s, i, run[..n]);
    assert run[0..n] == run[..n];
    if n == 1 {
      assert run[..1] == [run[0]];
      TripletHead(s, i, run[0]);
      SingleUnit(s, i, run[0], meant, next);
    }
  }

  /** A single unit that is spelled as a triplet, which may be the tilde of an escape. */
  lemma SingleUnit(s: Text, i: nat, c: byte, meant: Text, next: nat)
    requires i + 3 <= |s| && Triplet(s, i, c) && Triplets(s[i..i + 3], [c]) && UTF8Char([c])
    requires P.Unescape(s, c, i + 3) == P.Units(meant, next)
    ensures i < next <= |s| && Legal(true, Spelling(s[i..next], meant))
  {
    hide IsHex, UTF8Char, Triplets;
    Unescapes(s, c, i + 3, meant, next);
  }

  /** Every next piece of a name is a legal spelling, and every legal spelling is read as what it stands for. */
  lemma PieceIff(s: Text, i: nat, uri: bool, meant: Text, next: nat)
    requires i < |s| && s[i] != SLASH
    ensures P.NextPiece(s, i, uri) == P.Units(meant, next) <==>
            i < next <= |s| && Legal(uri, Spelling(s[i..next], meant))
  {
    hide P.NextPiece, Legal;
    if !uri {
      PlainPiece(s, i, meant, next);
    } else if s[i] != PERCENT {
      UnreservedPiece(s, i, meant, next);
    } else {
      if P.NextPiece(s, i, uri) == P.Units(meant, next) {
        NextPieceIsPercent(s, i, meant, next);
      }
      if i < next <= |s| && Legal(uri, Spelling(s[i..next], meant)) {
        PercentIsNextPiece(s, i, meant, next);
      }
    }
  }

  // ------------------------------------------------------------ whole names

  lemma NotSolidus(uri: bool, p: Spelling)
    requires Legal(uri, p)
    ensures |p.text| > 0 && p.text[0] != Unit('/')
  {
    hide IsHex, UTF8Char;
    if uri && UTF8Char(p.meant) && Triplets(p.text, p.meant) {
      NotEmpty(p.meant);
      TripletsStart(p.text, p.meant);
    }
  }

  lemma NotEmpty(s: Text)
    requires UTF8Char(s)
    ensures |s| > 0
  {
  }

  lemma {:induction false} NameSpelled(s: Text, i: nat, uri: bool, name: Text) returns (ps: seq<Spelling>)
    requires i <= |s| && P.ScanName(s, i, uri, name).Name?
    ensures var r := P.ScanName(s, i, uri, name);
            && i <= r.next <= |s| && AllLegal(uri, ps) && Spelled(ps) == s[i..r.next] && name + Meant(ps) == r.name
    decreases |s| - i
  {
    hide P.NextPiece, Legal;
    if i == |s| || s[i] == SLASH {
      ps := [];
      assert name + [] == name;
    } else {
      var piece := P.NextPiece(s, i, uri);
      PieceIff(s, i, uri, piece.bytes, piece.next);
      var rest := NameSpelled(s, piece.next, uri, name + piece.bytes);
      ps := [Spelling(s[i..piece.next], piece.bytes)] + rest;
      assert ps[1..] == rest;
      var end := P.ScanName(s, i, uri, name).next;
      assert s[i..end] == s[i..piece.next] + s[piece.next..end];
      assert name + piece.bytes + Meant(rest) == name + (piece.bytes + Meant(rest));
    }
  }

  lemma {:induction false} SpelledNames(s: Text, i: nat, uri: bool, name: Text, ps: seq<Spelling>)
    requires AllLegal(uri, ps) && At(s, i, Spelled(ps))
    requires var q := i + |Spelled(ps)|; q == |s| || Peek(s, q) == SLASH
    ensures i <= |s| && P.ScanName(s, i, uri, name) == P.Name(name + Meant(ps), i + |Spelled(ps)|)
    decreases |ps|
  {
    hide P.NextPiece, Legal, At;
    AtEnd(s, i, Spelled(ps));
    if |ps| == 0 {
      assert name + [] == name;
    } else {
      var p := ps[0];
      NotSolidus(uri, p);
      AtSplit(s, i, p.text, Spelled(ps[1..]));
      AtUnit(s, i, p.text, 0);
      AtSlice(s, i, p.text);
      PieceIff(s, i, uri, p.meant, i + |p.text|);
      SpelledNames(s, i + |p.text|, uri, name + p.meant, ps[1..]);
      assert name + p.meant + Meant(ps[1..]) == name + (p.meant + Meant(ps[1..]));
    }
  }

  lemma AtSlice(s: Text, i: nat, t: Text)
    requires At(s, i, t)
    ensures i + |t| <= |s| && s[i..i + |t|] == t
  {
  }

  // --------------------------------------------------------- whole pointers

  predicate NamesLegal(uri: bool, names: seq<seq<Spelling>>) {
    forall k | 0 <= k < |names| :: AllLegal(uri, names[k])
  }

  /** A solidus before every name. */
  function Joined(names: seq<seq<Spelling>>): Text {
    if |names| == 0 then [] else [Unit('/')] + Spelled(names[0]) + Joined(names[1..])
  }

  function TokensOf(names: seq<seq<Spelling>>): seq<P.Token> {
    if |names| == 0 then [] else [P.Token(Meant(names[0]), P.IndexOf(Meant(names[0])))] + TokensOf(names[1..])
  }

  ghost predicate StandsFor(uri: bool, text: Text, tokens: seq<P.Token>) {
    exists names: seq<seq<Spelling>> :: NamesLegal(uri, names) && Joined(names) == text && TokensOf(names) == tokens
  }

  lemma JoinedStarts(names: seq<seq<Spelling>>)
    ensures Joined(names) == [] || Joined(names)[0] == SLASH
    ensures Joined(names) == [] <==> names == []
  {
  }

  lemma ConsName(uri: bool, name: seq<Spelling>, names: seq<seq<Spelling>>)
    requires AllLegal(uri, name) && NamesLegal(uri, names)
    ensures NamesLegal(uri, [name] + names) && Joined([name] + names) == [Unit('/')] + Spelled(name) + Joined(names)
    ensures TokensOf([name] + names) == [P.Token(Meant(name), P.IndexOf(Meant(name)))] + TokensOf(names)
  {
    assert ([name] + names)[1..] == names;
  }

  lemma NoNames(uri: bool)
    ensures NamesLegal(uri, []) && Joined([]) == [] && TokensOf([]) == []
  {
  }

  lemma ScanOne(s: Text, i: nat, uri: bool, tokens: seq<P.Token>)
    requires i < |s| && s[i] == SLASH && P.ScanName(s, i + 1, uri, []).Name?
    ensures var scan := P.ScanName(s, i + 1, uri, []);
            P.ScanTokens(s, i, uri, tokens)
            == P.ScanTokens(s, scan.next, uri, tokens + [P.Token(scan.name, P.IndexOf(scan.name))])
  {
    hide P.ScanName, P.IndexOf;
  }

  lemma {:induction false} TokensSpelled(s: Text, i: nat, uri: bool, tokens: seq<P.Token>)
    returns (names: seq<seq<Spelling>>)
    requires i <= |s| && (i == |s| || s[i] == SLASH) && P.ScanTokens(s, i, uri, tokens).Tokens?
    ensures NamesLegal(uri, names) && Joined(names) == s[i..]
    ensures P.ScanTokens(s, i, uri, tokens).tokens == tokens + TokensOf(names)
    decreases |s| - i
  {
    hide P.ScanName, P.IndexOf, Spelled, Meant, AllLegal, NamesLegal, Joined, TokensOf;
    if i == |s| {
      names := [];
      NoNames(uri);
      assert tokens + [] == tokens;
    } else {
      var scan := P.ScanName(s, i + 1, uri, []);
      var name := NameSpelled(s, i + 1, uri, []);
      assert [] + Meant(name) == Meant(name);
      hide P.ScanTokens;
      ScanOne(s, i, uri, tokens);
      var token := P.Token(scan.name, P.IndexOf(scan.name));
      var rest := TokensSpelled(s, scan.next, uri, tokens + [token]);
      names := [name] + rest;
      ConsName(uri, name, rest);
      assert s[i..] == [s[i]] + s[i + 1..scan.next] + s[scan.next..];
      assert tokens + [token] + TokensOf(rest) == tokens + ([token] + TokensOf(rest));
    }
  }

  lemma {:induction false} SpelledTokens(s: Text, i: nat, uri: bool, tokens: seq<P.Token>, names: seq<seq<Spelling>>)
    requires NamesLegal(uri, names) && At(s, i, Joined(names)) && i + |Joined(names)| == |s|
    ensures i <= |s| && (i == |s| || s[i] == SLASH)
    ensures P.ScanTokens(s, i, uri, tokens) == P.Tokens(tokens + TokensOf(names))
    decreases |names|
  {
    hide P.ScanName, P.IndexOf, Spelled, Meant, AllLegal, At;
    AtEnd(s, i, Joined(names));
    if |names| == 0 {
      assert tokens + [] == tokens;
    } else {
      hide P.ScanTokens;
      var text, rest := Spelled(names[0]), Joined(names[1..]);
      assert Joined(names) == [SLASH] + text + rest + [];
      AtPieces(s, i, [SLASH], text, rest, []);
      assert rest + [] == rest;
      AtUnit(s, i, [SLASH], 0);
      JoinedStarts(names[1..]);
      if rest != [] {
        AtUnit(s, i + 1 + |text|, rest, 0);
      }
      assert names[0] == names[0] && AllLegal(uri, names[0]);
      SpelledNames(s, i + 1, uri, [], names[0]);
      assert [] + Meant(names[0]) == Meant(names[0]);
      var token := P.Token(Meant(names[0]), P.IndexOf(Meant(names[0])));
      ScanOne(s, i, uri, tokens);
      SpelledTokens(s, i + 1 + |text|, uri, tokens + [token], names[1..]);
      assert tokens + [token] + TokensOf(names[1..]) == tokens + ([token] + TokensOf(names[1..]));
    }
  }

  /** A text is read as some tokens if and only if it stands for them, after a number sign in the fragment form. */
  lemma PointersRead(s: Text, tokens: seq<P.Token>)
    ensures P.Parse(s) == P.Tokens(tokens) <==>
            if |s| > 0 && s[0] == Unit('#') then StandsFor(true, s[1..], tokens) else StandsFor(false, s, tokens)
  {
    hide P.ScanTokens, NamesLegal, Joined, TokensOf;
    var uri := Peek(s, 0) == HASH;
    var i := if uri then 1 else 0;
    assert s[0..] == s;
    if P.Parse(s) == P.Tokens(tokens) {
      var names := TokensSpelled(s, i, uri, []);
      assert [] + TokensOf(names) == tokens;
    }
    if StandsFor(uri, s[i..], tokens) {
      var names: seq<seq<Spelling>> :| NamesLegal(uri, names) && Joined(names) == s[i..] && TokensOf(names) == tokens;
      assert s[i..i + |Joined(names)|] == s[i..];
      SpelledTokens(s, i, uri, [], names);
      assert [] + TokensOf(names) == tokens;
    }
  }

  // ------------------------------------------------------ what is refused

  /** Why a name cannot be read on at a unit, and where that is reported. */
  lemma Refused(s: Text, i: nat, uri: bool)
    requires i < |s| && s[i] != SLASH
    ensures uri && s[i] != Unit('%') && s[i] != Unit('~') && !Unreserved(s[i]) ==>
              P.NextPiece(s, i, uri) == P.BadPiece(P.CharacterMustPercentEncode, i)
    ensures s[i] == Unit('~') && Peek(s, i + 1) != Unit('0') && Peek(s, i + 1) != Unit('1') ==>
              P.NextPiece(s, i, uri) == P.BadPiece(P.InvalidEscape, i + 1)
  {
    hide Decode, P.Percents;
  }

  /** Triplets that begin no well-formed sequence. */
  lemma TripletsRefused(s: Text, i: nat)
    requires i < |s| && s[i] == Unit('%')
    requires forall bytes | UTF8Char(bytes) && i + 3 * |bytes| <= |s| :: !Triplets(s[i..i + 3 * |bytes|], bytes)
    ensures P.NextPiece(s, i, true) == P.BadPiece(P.InvalidPercentEncoding, i)
  {
    hide P.Unescape, P.Percents, Triplets;
    var run := P.Percents(s, i);
    if |run| > 0 && Decode(run, 0).ok {
      var n := Decode(run, 0).pos;
      AcceptedInside(run, 0);
      DecodeAcceptsExactlyUTF8(run, 0);
      hide Decode, UTF8Char;
      assert run[0..n] == run[..n];
      TripletsAreRun(s, i, run[..n]);
    }
  }

  /** After spelled pieces the first unit that begins none ends the parse with its error. */
  lemma {:induction false} RefusedInName(s: Text, i: nat, uri: bool, name: Text, ps: seq<Spelling>)
    requires AllLegal(uri, ps) && At(s, i, Spelled(ps)) && i + |Spelled(ps)| < |s|
    requires var q := i + |Spelled(ps)|; s[q] != SLASH && P.NextPiece(s, q, uri).BadPiece?
    ensures var bad := P.NextPiece(s, i + |Spelled(ps)|, uri);
            i <= |s| && P.ScanName(s, i, uri, name) == P.BadName(bad.code, bad.off)
    decreases |ps|
  {
    hide P.NextPiece, Legal, At;
    if |ps| > 0 {
      var p := ps[0];
      NotSolidus(uri, p);
      AtSplit(s, i, p.text, Spelled(ps[1..]));
      AtUnit(s, i, p.text, 0);
      AtSlice(s, i, p.text);
      PieceIff(s, i, uri, p.meant, i + |p.text|);
      RefusedInName(s, i + |p.text|, uri, name + p.meant, ps[1..]);
    }
  }

  /** Letters, digits, hyphen, period and underscore stand for themselves in a fragment. */
  lemma {:induction false} UnreservedStand(name: Text)
    requires forall i | 0 <= i < |name| :: Unreserved(name[i])
    ensures NameStands(true, name, name)
  {
    var ps := seq(|name|, i requires 0 <= i < |name| => Spelling([name[i]], [name[i]]));
    ThemselvesSpelled(true, name, ps);
  }

  /** All units but tilde and solidus stand for themselves in the plain form. */
  lemma {:induction false} PlainUnitsStand(name: Text)
    requires forall i | 0 <= i < |name| :: name[i] != Unit('~') && name[i] != Unit('/')
    ensures NameStands(false, name, name)
  {
    var ps := seq(|name|, i requires 0 <= i < |name| => Spelling([name[i]], [name[i]]));
    ThemselvesSpelled(false, name, ps);
  }

  lemma {:induction false} ThemselvesSpelled(uri: bool, name: Text, ps: seq<Spelling>)
    requires |ps| == |name| && forall i | 0 <= i < |ps| :: ps[i] == Spelling([name[i]], [name[i]]) && Legal(uri, ps[i])
    ensures AllLegal(uri, ps) && Spelled(ps) == name && Meant(ps) == name
    decreases |ps|
  {
    hide Legal;
    if |ps| > 0 {
      ThemselvesSpelled(uri, name[1..], ps[1..]);
      assert name == [name[0]] + name[1..];
    }
  }

  /** A fragment of one name of unreserved characters is the token of that name. */
  lemma UnreservedAccepted(name: Text)
    requires forall i | 0 <= i < |name| :: Unreserved(name[i])
    ensures P.Parse([Unit('#'), Unit('/')] + name) == P.Tokens([P.Token(name, P.IndexOf(name))])
  {
    hide Unreserved, P.IndexOf, P.Parse, NameStands, StandsFor;
    UnreservedStand(name);
    OneNameStands(true, name, name);
    var s := [Unit('#'), Unit('/')] + name;
    assert s[1..] == [Unit('/')] + name;
    PointersRead(s, [P.Token(name, P.IndexOf(name))]);
  }

  lemma OneNameStands(uri: bool, text: Text, name: Text)
    requires NameStands(uri, text, name)
    ensures StandsFor(uri, [Unit('/')] + text, [P.Token(name, P.IndexOf(name))])
  {
    hide AllLegal, Spelled, Meant, Joined, TokensOf, NamesLegal, P.IndexOf;
    var ps: seq<Spelling> :| AllLegal(uri, ps) && Spelled(ps) == text && Meant(ps) == name;
    OneName(uri, ps);
  }

  lemma OneName(uri: bool, ps: seq<Spelling>)
    requires AllLegal(uri, ps)
    ensures NamesLegal(uri, [ps]) && Joined([ps]) == [Unit('/')] + Spelled(ps)
    ensures TokensOf([ps]) == [P.Token(Meant(ps), P.IndexOf(Meant(ps)))]
  {
    ConsName(uri, ps, []);
    assert [ps] + [] == [ps];
    NoNames(uri);
  }

  /** Any other unit but percent sign, tilde and solidus is refused there at its place. */
  lemma ReservedRefused(name: Text, c: byte, rest: Text)
    requires (forall i | 0 <= i < |name| :: Unreserved(name[i]))
    requires !Unreserved(c) && c != Unit('%') && c != Unit('~') && c != Unit('/')
    ensures P.Parse([Unit('#'), Unit('/')] + name + [c] + rest)
         == P.PointerError(P.CharacterMustPercentEncode, 2 + |name|)
  {
    hide P.ScanName, P.NextPiece, AllLegal, Spelled, Meant, At;
    UnreservedStand(name);
    var ps: seq<Spelling> :| AllLegal(true, ps) && Spelled(ps) == name && Meant(ps) == name;
    var s := [Unit('#'), Unit('/')] + name + [c] + rest;
    PlaceOf([Unit('#'), Unit('/')], name, c, rest);
    Refused(s, 2 + |name|, true);
    hide Unreserved;
    RefusedInName(s, 2, true, [], ps);
  }

  lemma PlaceOf(a: Text, b: Text, c: byte, rest: Text)
    ensures var s := a + b + [c] + rest; At(s, |a|, b) && s[|a| + |b|] == c && |a| + |b| < |s|
    ensures forall i | 0 <= i < |a| :: (a + b + [c] + rest)[i] == a[i]
  {
    assert (a + b + [c] + rest)[|a|..|a| + |b|] == b;
  }

  // ---------------------------------------------------------------- indices

  /** Digits without a leading zero are an index, as far as 32 bits go; nothing else is. */
  lemma IndexMeaning(name: Text)
    ensures name == [] ==> P.IndexOf(name) == P.INVALID_INDEX
    ensures (exists i | 0 <= i < |name| :: !(Unit('0') <= name[i] <= Unit('9'))) ==> P.IndexOf(name) == P.INVALID_INDEX
    ensures |name| > 1 && name[0] == Unit('0') ==> P.IndexOf(name) == P.INVALID_INDEX
    ensures name == [Unit('0')] ==> P.IndexOf(name) == 0
    ensures |name| > 0 && name[0] != Unit('0') && AllDigits(name) && DecimalValue(name) < TWO_32 ==>
              P.IndexOf(name) == DecimalValue(name)
  {
    if name == [ZERO] {
      assert DecimalValue(name) == 0;
    }
    if P.IsIndexName(name) {
      P.IndexExact(name);
    }
  }
}

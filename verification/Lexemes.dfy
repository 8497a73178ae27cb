/** Blanks, comments and numbers as one would write them down, and that the scanners read exactly these. */
module Lexemes {
  import opened Bytes
  import opened Characters
  import opened Events
  import opened Options
  import opened Scanning
  import Numbers

  // --------------------------------------------------- blanks and comments

  predicate IsBlank(c: byte) {
    c == Unit(' ') || c == Unit('\t') || c == Unit('\n') || c == Unit('\r')
  }

  predicate Starts(t: Text, k: nat, a: char, b: char)
    requires a < 128 as char && b < 128 as char
  {
    k + 2 <= |t| && t[k] == Unit(a) && t[k + 1] == Unit(b)
  }

  /** From the opening to the first closing. */
  predicate IsBlockComment(t: Text) {
    && |t| >= 4 && Starts(t, 0, '/', '*') && Starts(t, |t| - 2, '*', '/') && NUL !in t
    && forall i | 2 <= i < |t| - 2 :: !Starts(t, i, '*', '/')
  }

  /** Two solidi and the rest of the line, its end left out. */
  predicate IsLine(t: Text) {
    |t| >= 2 && Starts(t, 0, '/', '/') && NUL !in t && Unit('\n') !in t
  }

  predicate IsComment(t: Text) {
    IsBlockComment(t) || (|t| > 0 && t[|t| - 1] == Unit('\n') && IsLine(t[..|t| - 1]))
  }

  /** Blanks and, where they are allowed, comments. */
  predicate Blanks(comments: bool, t: Text)
    decreases |t|
  {
    || |t| == 0
    || (IsBlank(t[0]) && Blanks(comments, t[1..]))
    || (comments && exists k | 0 < k <= |t| :: IsComment(t[..k]) && Blanks(comments, t[k..]))
  }

  /** The same at the end of a text, where the last line may lack its end. */
  predicate LastBlanks(comments: bool, t: Text) {
    Blanks(comments, t)
    || (comments && exists k | 0 <= k <= |t| :: Blanks(comments, t[..k]) && IsLine(t[k..]))
  }

  lemma BlankIsWhitespace(c: byte)
    ensures IsWhitespace(c) <==> IsBlank(c)
  {
  }

  lemma {:induction false} BlankFirst(comments: bool, c: byte, t: Text)
    requires IsBlank(c) && Blanks(comments, t)
    ensures Blanks(comments, [c] + t)
  {
    assert ([c] + t)[1..] == t;
  }

  lemma CommentFirst(c: Text, t: Text)
    requires IsComment(c) && Blanks(true, t)
    ensures Blanks(true, c + t)
  {
    var k := |c|;
    assert (c + t)[..k] == c && (c + t)[k..] == t;
    assert k > 0;
  }

  /** The blanks that are skipped are blanks. */
  lemma {:induction false} SkippedBlanks(s: Text, p: nat, comments: bool, more: Text)
    requires p <= |s| && Blanks(comments, more)
    ensures Blanks(comments, s[p..SkipWhitespace(s, p)] + more)
    decreases |s| - p
  {
    var q := SkipWhitespace(s, p);
    if IsWhitespace(Peek(s, p)) {
      BlankIsWhitespace(s[p]);
      SkippedBlanks(s, p + 1, comments, more);
      BlankFirst(comments, s[p], s[p + 1..q] + more);
      assert s[p..q] + more == [s[p]] + (s[p + 1..q] + more);
    } else {
      assert s[p..q] + more == more;
    }
  }

  lemma {:induction false} SkippedBlock(s: Text, p: nat, evs: seq<Event>)
    requires p <= |s| && SkipBlockComment(s, p, evs).Ok?
    ensures var q := SkipBlockComment(s, p, evs).pos;
            && p + 2 <= q <= |s| && s[q - 2] == STAR && s[q - 1] == SLASH && NUL !in s[p..q]
            && forall i | p <= i < q - 2 :: !Starts(s, i, '*', '/')
    decreases |s| - p
  {
    if !(Peek(s, p) == STAR && Peek(s, p + 1) == SLASH) {
      SkippedBlock(s, p + 1, evs);
      var q := SkipBlockComment(s, p, evs).pos;
      assert s[p..q] == [s[p]] + s[p + 1..q];
    } else {
      assert s[p..p + 2] == [STAR, SLASH];
    }
  }

  lemma {:induction false} SkippedLine(s: Text, p: nat)
    requires p <= |s|
    ensures var q := SkipLineComment(s, p);
            if q > p && s[q - 1] == NEWLINE then NUL !in s[p..q - 1] && NEWLINE !in s[p..q - 1]
            else Peek(s, q) == NUL && NUL !in s[p..q] && NEWLINE !in s[p..q]
    decreases |s| - p
  {
    if Peek(s, p) != NUL && Peek(s, p) != NEWLINE {
      SkippedLine(s, p + 1);
      var q := SkipLineComment(s, p);
      assert s[p..q] == [s[p]] + s[p + 1..q];
      if q > p + 1 {
        assert s[p..q - 1] == [s[p]] + s[p + 1..q - 1];
      }
    }
  }

  lemma BlockIsComment(s: Text, p: nat, evs: seq<Event>)
    requires p + 2 <= |s| && Starts(s, p, '/', '*') && SkipBlockComment(s, p + 2, evs).Ok?
    ensures p < SkipBlockComment(s, p + 2, evs).pos <= |s| && IsComment(s[p..SkipBlockComment(s, p + 2, evs).pos])
  {
    SkippedBlock(s, p + 2, evs);
    var q := SkipBlockComment(s, p + 2, evs).pos;
    var t := s[p..q];
    assert t == [SLASH, STAR] + s[p + 2..q];
    forall i | 2 <= i < |t| - 2 ensures !Starts(t, i, '*', '/') {
      assert !Starts(s, p + i, '*', '/');
    }
  }

  lemma LineIsComment(s: Text, p: nat)
    requires p + 2 <= |s| && Starts(s, p, '/', '/')
    ensures var q := SkipLineComment(s, p + 2);
            IsComment(s[p..q]) || (Peek(s, q) == NUL && IsLine(s[p..q]))
  {
    SkippedLine(s, p + 2);
    var q := SkipLineComment(s, p + 2);
    var t := s[p..q];
    assert t == [SLASH, SLASH] + s[p + 2..q];
    if q > p + 2 && s[q - 1] == NEWLINE {
      assert t[..|t| - 1] == [SLASH, SLASH] + s[p + 2..q - 1];
    }
  }

  lemma {:induction false} CommentsSkipped(s: Text, p: nat, evs: seq<Event>)
    requires p <= |s| && SkipComments(s, p, evs).Ok?
    ensures var q := SkipComments(s, p, evs).pos;
            && LastBlanks(true, s[p..q]) && (Peek(s, q) != NUL ==> Blanks(true, s[p..q])) && Peek(s, q) != SLASH
            && (p == q || !IsBlank(Peek(s, q)))
    decreases |s| - p
  {
    hide SkipBlockComment, SkipLineComment, SkipWhitespace, IsComment, IsLine, Blanks;
    var q := SkipComments(s, p, evs).pos;
    if Peek(s, p) == SLASH && Peek(s, p + 1) == STAR {
      BlockIsComment(s, p, evs);
      var r := SkipBlockComment(s, p + 2, evs).pos;
      CommentSkipped(s, p, r, evs);
    } else if Peek(s, p) == SLASH && Peek(s, p + 1) == SLASH {
      LineIsComment(s, p);
      var r := SkipLineComment(s, p + 2);
      if IsComment(s[p..r]) {
        CommentSkipped(s, p, r, evs);
      } else {
        AtTextEnd(s, r, evs);
        NoBlanks(true);
        assert s[p..r][..0] == [] && s[p..r][0..] == s[p..r];
      }
    } else {
      NoBlanks(true);
      assert s[p..q] == [];
      LastToo(true, []);
    }
  }

  lemma NoBlanks(comments: bool)
    ensures Blanks(comments, [])
  {
  }

  lemma LastToo(comments: bool, t: Text)
    requires Blanks(comments, t)
    ensures LastBlanks(comments, t)
  {
  }

  lemma AtTextEnd(s: Text, p: nat, evs: seq<Event>)
    requires p <= |s| && Peek(s, p) == NUL
    ensures SkipWhitespace(s, p) == p && SkipComments(s, p, evs) == Ok(p, evs)
  {
  }

  /** A comment and what is skipped behind it. */
  lemma {:induction false} CommentSkipped(s: Text, p: nat, r: nat, evs: seq<Event>)
    requires p < r <= |s| && IsComment(s[p..r]) && SkipComments(s, SkipWhitespace(s, r), evs).Ok?
    ensures var q := SkipComments(s, SkipWhitespace(s, r), evs).pos;
            && LastBlanks(true, s[p..q]) && (Peek(s, q) != NUL ==> Blanks(true, s[p..q])) && Peek(s, q) != SLASH
            && !IsBlank(Peek(s, q))
    decreases |s| - p, 0
  {
    hide SkipComments, SkipWhitespace, IsComment, IsLine, Blanks;
    var m := SkipWhitespace(s, r);
    WhitespaceEnds(s, r);
    CommentsSkipped(s, m, evs);
    var q := SkipComments(s, m, evs).pos;
    JoinBlanks(s, p, r, m, q);
  }

  lemma {:induction false} WhitespaceEnds(s: Text, p: nat)
    requires p <= |s|
    ensures !IsBlank(Peek(s, SkipWhitespace(s, p)))
    decreases |s| - p
  {
    if IsWhitespace(Peek(s, p)) {
      WhitespaceEnds(s, p + 1);
    }
  }

  /** A comment, blanks up to m and what was skipped from there. */
  lemma JoinBlanks(s: Text, p: nat, r: nat, m: nat, q: nat)
    requires p < r <= m <= q <= |s| && IsComment(s[p..r]) && m == SkipWhitespace(s, r)
    ensures Blanks(true, s[m..q]) ==> Blanks(true, s[p..q])
    ensures LastBlanks(true, s[m..q]) ==> LastBlanks(true, s[p..q])
  {
    hide Blanks, IsComment, IsLine;
    if Blanks(true, s[m..q]) {
      BlanksBehindComment(s, p, r, m, q);
    }
    if k :| 0 <= k <= |s[m..q]| && Blanks(true, s[m..q][..k]) && IsLine(s[m..q][k..]) {
      assert s[m..q][..k] == s[m..m + k] && s[m..q][k..] == s[m + k..q];
      BlanksBehindComment(s, p, r, m, m + k);
      assert s[p..q][..m + k - p] == s[p..m + k] && s[p..q][m + k - p..] == s[m + k..q];
    }
  }

  lemma BlanksBehindComment(s: Text, p: nat, r: nat, m: nat, q: nat)
    requires p < r <= m <= q <= |s| && IsComment(s[p..r]) && m == SkipWhitespace(s, r) && Blanks(true, s[m..q])
    ensures Blanks(true, s[p..q])
  {
    hide Blanks, IsComment;
    SkippedBlanks(s, r, true, s[m..q]);
    assert s[r..q] == s[r..m] + s[m..q];
    CommentFirst(s[p..r], s[r..q]);
    assert s[p..q] == s[p..r] + s[r..q];
  }

  /** What is skipped is blanks; a line without an end is skipped only at the end of the text. */
  lemma SkippedIsBlank(flags: Flags, s: Text, p: nat, evs: seq<Event>)
    requires p <= |s| && SkipWhitespaceAndComments(flags, s, p, evs).Ok?
    ensures var q := SkipWhitespaceAndComments(flags, s, p, evs).pos;
            && LastBlanks(flags.comments, s[p..q]) && (Peek(s, q) != NUL ==> Blanks(flags.comments, s[p..q]))
            && !IsBlank(Peek(s, q)) && (flags.comments ==> Peek(s, q) != SLASH)
  {
    hide SkipComments, SkipWhitespace, Blanks;
    var m := SkipWhitespace(s, p);
    WhitespaceEnds(s, p);
    NoBlanks(flags.comments);
    SkippedBlanks(s, p, flags.comments, []);
    assert s[p..m] + [] == s[p..m];
    LastToo(flags.comments, s[p..m]);
    if flags.comments {
      CommentsSkipped(s, m, evs);
      BlanksBefore(s, p, m, SkipComments(s, m, evs).pos);
    }
  }

  lemma BlanksBefore(s: Text, p: nat, m: nat, q: nat)
    requires p <= m <= q <= |s| && m == SkipWhitespace(s, p)
    ensures Blanks(true, s[m..q]) ==> Blanks(true, s[p..q])
    ensures LastBlanks(true, s[m..q]) ==> LastBlanks(true, s[p..q])
  {
    hide Blanks, IsLine;
    if Blanks(true, s[m..q]) {
      SkippedBlanks(s, p, true, s[m..q]);
      assert s[p..q] == s[p..m] + s[m..q];
    }
    if k :| 0 <= k <= |s[m..q]| && Blanks(true, s[m..q][..k]) && IsLine(s[m..q][k..]) {
      assert s[m..q][..k] == s[m..m + k] && s[m..q][k..] == s[m + k..q];
      SkippedBlanks(s, p, true, s[m..m + k]);
      assert s[p..m + k] == s[p..m] + s[m..m + k];
      assert s[p..q][..m + k - p] == s[p..m + k] && s[p..q][m + k - p..] == s[m + k..q];
    }
  }

  // ------------------------------------------------- blanks are skipped

  lemma {:induction false} BlockSkips(s: Text, i: nat, q: nat, evs: seq<Event>)
    requires i + 2 <= q <= |s| && Starts(s, q - 2, '*', '/') && (forall k | i <= k < q :: s[k] != NUL)
    requires forall k | i <= k < q - 2 :: !Starts(s, k, '*', '/')
    ensures SkipBlockComment(s, i, evs) == Ok(q, evs)
    decreases q - i
  {
    if i < q - 2 {
      assert !Starts(s, i, '*', '/');
      BlockSkips(s, i + 1, q, evs);
    }
  }

  lemma {:induction false} LineSkips(s: Text, i: nat, q: nat)
    requires i <= q <= |s| && forall k | i <= k < q :: s[k] != NUL && s[k] != NEWLINE
    ensures q < |s| && s[q] == NEWLINE ==> SkipLineComment(s, i) == q + 1
    ensures Peek(s, q) == NUL ==> SkipLineComment(s, i) == q
    decreases q - i
  {
    if i < q {
      LineSkips(s, i + 1, q);
    }
  }

  lemma BlockSkipped(s: Text, p: nat, t: Text, evs: seq<Event>)
    requires p + |t| <= |s| && t == s[p..p + |t|] && IsBlockComment(t)
    ensures Starts(s, p, '/', '*') && SkipBlockComment(s, p + 2, evs) == Ok(p + |t|, evs)
  {
    var q := p + |t|;
    forall k | p + 2 <= k < q - 2 ensures !Starts(s, k, '*', '/') {
      assert !Starts(t, k - p, '*', '/');
    }
    forall k | p + 2 <= k < q ensures s[k] != NUL {
      assert s[k] == t[k - p];
    }
    assert s[q - 2] == t[|t| - 2] && s[q - 1] == t[|t| - 1] && s[p] == t[0] && s[p + 1] == t[1];
    BlockSkips(s, p + 2, q, evs);
  }

  lemma LineSkipped(s: Text, p: nat, line: Text)
    requires p + |line| <= |s| && line == s[p..p + |line|] && IsLine(line)
    ensures Starts(s, p, '/', '/')
    ensures Peek(s, p + |line|) == NEWLINE ==> SkipLineComment(s, p + 2) == p + |line| + 1
    ensures Peek(s, p + |line|) == NUL ==> SkipLineComment(s, p + 2) == p + |line|
  {
    forall k | p + 2 <= k < p + |line| ensures s[k] != NUL && s[k] != NEWLINE {
      assert s[k] == line[k - p];
    }
    assert s[p] == line[0] && s[p + 1] == line[1];
    LineSkips(s, p + 2, p + |line|);
  }

  lemma CommentSkips(s: Text, p: nat, t: Text, evs: seq<Event>)
    requires At(s, p, t) && IsComment(t)
    ensures p + |t| <= |s| && SkipComments(s, p, evs) == SkipComments(s, SkipWhitespace(s, p + |t|), evs)
    ensures Peek(s, p) == SLASH
  {
    if IsBlockComment(t) {
      BlockSkipped(s, p, t, evs);
    } else {
      var line := t[..|t| - 1];
      assert line == s[p..p + |line|] && s[p + |line|] == t[|t| - 1];
      LineSkipped(s, p, line);
    }
    hide SkipBlockComment, SkipLineComment, SkipWhitespace, IsComment;
  }

  lemma BlankThrough(flags: Flags, s: Text, p: nat, evs: seq<Event>)
    requires p < |s| && IsBlank(s[p])
    ensures SkipWhitespaceAndComments(flags, s, p, evs) == SkipWhitespaceAndComments(flags, s, p + 1, evs)
  {
    hide SkipComments;
  }

  lemma CommentThrough(flags: Flags, s: Text, p: nat, t: Text, evs: seq<Event>)
    requires At(s, p, t) && IsComment(t) && flags.comments
    ensures p + |t| <= |s|
    ensures SkipWhitespaceAndComments(flags, s, p, evs) == SkipWhitespaceAndComments(flags, s, p + |t|, evs)
  {
    CommentSkips(s, p, t, evs);
    hide SkipComments, IsComment;
    assert SkipWhitespace(s, p) == p;
  }

  lemma NothingToSkip(flags: Flags, s: Text, p: nat, evs: seq<Event>)
    requires p <= |s| && !IsBlank(Peek(s, p)) && (flags.comments ==> Peek(s, p) != SLASH)
    ensures SkipWhitespaceAndComments(flags, s, p, evs) == Ok(p, evs)
  {
  }

  /** Blanks up to a unit that begins none are skipped. */
  lemma {:induction false} BlanksSkip(flags: Flags, s: Text, p: nat, t: Text, evs: seq<Event>)
    requires At(s, p, t) && Blanks(flags.comments, t)
    requires var c := Peek(s, p + |t|); !IsBlank(c) && (flags.comments ==> c != SLASH)
    ensures p + |t| <= |s| && SkipWhitespaceAndComments(flags, s, p, evs) == Ok(p + |t|, evs)
    decreases |t|
  {
    hide IsComment, SkipWhitespaceAndComments, At;
    AtEnd(s, p, t);
    if |t| == 0 {
      NothingToSkip(flags, s, p, evs);
    } else {
      if IsBlank(t[0]) && Blanks(flags.comments, t[1..]) {
        AtTail(s, p, t);
        BlankThrough(flags, s, p, evs);
        BlanksSkip(flags, s, p + 1, t[1..], evs);
      } else {
        var k :| 0 < k <= |t| && IsComment(t[..k]) && Blanks(flags.comments, t[k..]);
        assert t == t[..k] + t[k..];
        AtSplit(s, p, t[..k], t[k..]);
        CommentThrough(flags, s, p, t[..k], evs);
        BlanksSkip(flags, s, p + k, t[k..], evs);
      }
    }
  }

  lemma AtTail(s: Text, p: nat, t: Text)
    requires At(s, p, t) && |t| > 0
    ensures At(s, p + 1, t[1..]) && p < |s| && s[p] == t[0]
  {
    assert s[p + 1..p + 1 + |t[1..]|] == t[1..];
  }

  /** At the end of a text a last line without an end is skipped too. */
  lemma {:induction false} LastBlanksSkip(flags: Flags, s: Text, p: nat, t: Text, evs: seq<Event>)
    requires At(s, p, t) && LastBlanks(flags.comments, t) && Peek(s, p + |t|) == NUL
    ensures p + |t| <= |s| && SkipWhitespaceAndComments(flags, s, p, evs) == Ok(p + |t|, evs)
  {
    hide Blanks, SkipWhitespaceAndComments;
    if Blanks(flags.comments, t) {
      BlanksSkip(flags, s, p, t, evs);
    } else {
      var k :| 0 <= k <= |t| && Blanks(flags.comments, t[..k]) && IsLine(t[k..]);
      assert t == t[..k] + t[k..];
      AtSplit(s, p, t[..k], t[k..]);
      LineLast(flags, s, p, t[..k], t[k..], evs);
    }
  }

  lemma {:induction false} LineLast(flags: Flags, s: Text, p: nat, b: Text, line: Text, evs: seq<Event>)
    requires At(s, p, b) && At(s, p + |b|, line) && Blanks(true, b) && IsLine(line) && flags.comments
    requires Peek(s, p + |b| + |line|) == NUL
    ensures p + |b| + |line| <= |s| && SkipWhitespaceAndComments(flags, s, p, evs) == Ok(p + |b| + |line|, evs)
    decreases |b|
  {
    hide IsComment, IsLine, SkipWhitespaceAndComments, At;
    AtEnd(s, p, b);
    AtEnd(s, p + |b|, line);
    if |b| == 0 {
      LineEnds(s, p, line, evs);
      SolidusFirst(flags, s, p, evs);
    } else if IsBlank(b[0]) && Blanks(true, b[1..]) {
      AtTail(s, p, b);
      BlankThrough(flags, s, p, evs);
      LineLast(flags, s, p + 1, b[1..], line, evs);
    } else {
      var j :| 0 < j <= |b| && IsComment(b[..j]) && Blanks(true, b[j..]);
      assert b == b[..j] + b[j..];
      AtSplit(s, p, b[..j], b[j..]);
      CommentThrough(flags, s, p, b[..j], evs);
      LineLast(flags, s, p + j, b[j..], line, evs);
    }
  }

  lemma SolidusFirst(flags: Flags, s: Text, p: nat, evs: seq<Event>)
    requires p < |s| && s[p] == SLASH && flags.comments
    ensures SkipWhitespaceAndComments(flags, s, p, evs) == SkipComments(s, p, evs)
  {
    hide SkipComments;
  }

  lemma LineEnds(s: Text, p: nat, t: Text, evs: seq<Event>)
    requires At(s, p, t) && IsLine(t) && Peek(s, p + |t|) == NUL
    ensures p + |t| <= |s| && Peek(s, p) == SLASH && SkipComments(s, p, evs) == Ok(p + |t|, evs)
  {
    LineSkipped(s, p, t);
    AtTextEnd(s, p + |t|, evs);
  }

  /** Blanks are skipped up to q, not the end of the text, if and only if they are blanks and none follow. */
  lemma BlanksRead(flags: Flags, s: Text, p: nat, q: nat, evs: seq<Event>)
    requires p <= |s| && Peek(s, q) != NUL
    ensures SkipWhitespaceAndComments(flags, s, p, evs) == Ok(q, evs) <==>
            p <= q && Blanks(flags.comments, s[p..q]) && !IsBlank(s[q]) && (flags.comments ==> s[q] != Unit('/'))
  {
    hide SkipWhitespaceAndComments, Blanks;
    if SkipWhitespaceAndComments(flags, s, p, evs) == Ok(q, evs) {
      SkippedIsBlank(flags, s, p, evs);
    }
    if p <= q && Blanks(flags.comments, s[p..q]) && !IsBlank(s[q]) && (flags.comments ==> s[q] != Unit('/')) {
      BlanksSkip(flags, s, p, s[p..q], evs);
    }
  }

  // ------------------------------------------------------------- numbers

  predicate IsDecimal(c: byte) {
    Unit('0') <= c <= Unit('9')
  }

  predicate AllDecimal(t: Text) {
    forall i | 0 <= i < |t| :: IsDecimal(t[i])
  }

  /** A number: its sign, its digits, those of its fraction, the mark of its exponent and the digits of that. */
  datatype Numeral = Numeral(minus: bool, whole: Text, fraction: Text, mark: Text, exponent: Text)

  predicate IsMark(t: Text) {
    && (|t| == 1 || (|t| == 2 && (t[1] == Unit('+') || t[1] == Unit('-'))))
    && (t[0] == Unit('e') || t[0] == Unit('E'))
  }

  /** No leading zero, no period without digits behind it, no mark of an exponent without digits behind it. */
  predicate LegalNumeral(n: Numeral) {
    && |n.whole| > 0 && AllDecimal(n.whole) && (|n.whole| > 1 ==> n.whole[0] != Unit('0'))
    && AllDecimal(n.fraction) && AllDecimal(n.exponent)
    && (n.mark == [] <==> n.exponent == []) && (n.mark != [] ==> IsMark(n.mark))
  }

  function SignText(n: Numeral): Text {
    if n.minus then [Unit('-')] else []
  }

  function FractionText(n: Numeral): Text {
    if n.fraction == [] then [] else [Unit('.')] + n.fraction
  }

  function NumeralText(n: Numeral): Text {
    SignText(n) + n.whole + FractionText(n) + (n.mark + n.exponent)
  }

  /** What may stand behind a number without becoming part of it. */
  predicate EndsNumeral(c: byte) {
    !IsDecimal(c) && c != Unit('.') && c != Unit('e') && c != Unit('E')
  }

  /** Where the digits behind p end, of which there must be one. */
  function DigitsEnd(s: Text, p: nat): (q: Option<nat>)
    ensures q.Some? ==> p < q.value <= |s|
  {
    if IsDigit(Peek(s, p)) then Some(SkipDigits(s, p)) else None
  }

  function FractionEnd(s: Text, p: nat): (q: Option<nat>)
    requires p <= |s|
    ensures q.Some? ==> p <= q.value <= |s|
  {
    if Peek(s, p) == PERIOD then DigitsEnd(s, p + 1) else Some(p)
  }

  function ExponentEnd(s: Text, p: nat): (q: Option<nat>)
    requires p <= |s|
    ensures q.Some? ==> p <= q.value <= |s|
  {
    if IsExponentMark(Peek(s, p)) then
      var sign := Peek(s, p + 1);
      DigitsEnd(s, if sign == PLUS || sign == MINUS then p + 2 else p + 1)
    else Some(p)
  }

  /** Where a number at p ends. */
  function NumberEnd(s: Text, p: nat): (q: Option<nat>)
    requires p <= |s|
    ensures q.Some? ==> p < q.value <= |s|
  {
    var m := if Peek(s, p) == MINUS then p + 1 else p;
    if !IsDigit(Peek(s, m)) then None
    else
      var f := FractionEnd(s, Numbers.IntegerEnd(s, m));
      if f.None? then None else ExponentEnd(s, f.value)
  }

  lemma {:induction false} SkipDigitsFurther(s: Text, p: nat, q: nat)
    requires p <= q <= |s| && AllDigits(s[p..q])
    ensures SkipDigits(s, p) == SkipDigits(s, q)
    decreases q - p
  {
    if p < q {
      assert s[p..q][0] == s[p];
      assert s[p..q][1..] == s[p + 1..q];
      SkipDigitsFurther(s, p + 1, q);
    }
  }

  lemma {:induction false} ExactEnds(s: Text, f: Fraction)
    requires f.pos <= |s|
    ensures SkipDigits(s, f.pos) == SkipDigits(s, ScanFractionExact(s, f).pos)
    decreases |s| - f.pos
  {
    var c := Peek(s, f.pos);
    if IsDigit(c) && f.value <= MAX_EXACT {
      var v := f.value * 10 + (c - ZERO);
      ExactEnds(s, Fraction(f.pos + 1, v, f.expFrac - 1, f.significant + (if v != 0 then 1 else 0)));
    }
  }

  lemma {:induction false} DoubleEnds(s: Text, f: Fraction, nonzero: bool)
    requires f.pos <= |s|
    ensures ScanFractionDouble(s, f, nonzero).pos == SkipDigits(s, f.pos)
    decreases |s| - f.pos
  {
    var c := Peek(s, f.pos);
    if IsDigit(c) {
      var nz := nonzero || c != ZERO;
      if f.significant < 17 {
        DoubleEnds(s, f.(pos := f.pos + 1, expFrac := f.expFrac - 1,
                         significant := f.significant + (if nz then 1 else 0)), nz);
      } else {
        DoubleEnds(s, f.(pos := f.pos + 1), nonzero);
      }
    }
  }

  lemma FractionEnds(s: Text, i: IntPart)
    requires i.IntPart? && i.pos < |s|
    ensures ScanFraction(s, i).pos == SkipDigits(s, i.pos + 1)
  {
    var f := Fraction(i.pos + 1, i.value, 0, i.significant);
    var g := if i.repr.Floating? then f else ScanFractionExact(s, f);
    ExactEnds(s, f);
    DoubleEnds(s, g, g.value != 0);
    hide ScanFractionExact, ScanFractionDouble;
  }

  lemma {:induction false} NegativeEnds(s: Text, p: nat, exp: nat, maxExp: int)
    requires p <= |s|
    ensures ScanNegativeExponent(s, p, exp, maxExp).pos == SkipDigits(s, p)
    decreases |s| - p
  {
    if IsDigit(Peek(s, p)) {
      var e := exp * 10 + (s[p] - ZERO);
      if e <= maxExp {
        NegativeEnds(s, p + 1, e, maxExp);
      }
    }
  }

  lemma {:induction false} PositiveEnds(s: Text, p: nat, exp: nat, maxExp: int, start: nat)
    requires p <= |s|
    ensures var r := ScanPositiveExponent(s, p, exp, maxExp, start);
            if r.Exponent? then r.pos == SkipDigits(s, p) else r == BadExponent(NumberTooBig, start)
    decreases |s| - p
  {
    if IsDigit(Peek(s, p)) {
      var e := exp * 10 + (s[p] - ZERO);
      if e <= maxExp {
        PositiveEnds(s, p + 1, e, maxExp, start);
      }
    }
  }

  lemma ExponentEnds(s: Text, p: nat, expFrac: int, start: nat)
    requires p < |s| && IsExponentMark(s[p])
    ensures var r, q := ScanExponent(s, p, expFrac, start), ExponentEnd(s, p);
            if q.None? then r.BadExponent? && r.code == NumberMissExponent
            else (r.Exponent? && r.pos == q.value) || r == BadExponent(NumberTooBig, start)
  {
    var sign := Peek(s, p + 1);
    var d := if sign == PLUS || sign == MINUS then p + 2 else p + 1;
    if IsDigit(Peek(s, d)) {
      NegativeEnds(s, d + 1, s[d] - ZERO, MaxNegativeExponent(expFrac));
      PositiveEnds(s, d + 1, s[d] - ZERO, MaxPositiveExponent(expFrac), start);
    }
    hide ScanNegativeExponent, ScanPositiveExponent;
  }

  lemma FinishEnds(flags: Flags, s: Text, p: nat, q: nat, expFrac: int, evs: seq<Event>)
    requires p < q <= |s|
    ensures var r, x := FinishNumber(flags, s, p, q, expFrac, evs), ExponentEnd(s, q);
            if x.None? then r.Fail? && r.code == NumberMissExponent
            else r == Ok(x.value, evs + [DoubleEvent(s[p..x.value])]) || (r.Fail? && r.code == NumberTooBig)
  {
    hide ScanExponent, DigitsEnd;
    if IsExponentMark(Peek(s, q)) {
      ExponentEnds(s, q, expFrac, p);
    }
  }

  /** A number is read up to its end, or it is too big; without an end it is refused. */
  lemma NumberEnds(flags: Flags, s: Text, p: nat, evs: seq<Event>)
    requires p <= |s|
    ensures var r, q := ParseNumber(flags, s, p, evs), NumberEnd(s, p);
            if q.None? then r.Fail? && r.code != NumberTooBig
            else (r.Ok? && r.pos == q.value) || (r.Fail? && r.code == NumberTooBig)
  {
    hide ScanInt, ScanFraction, FinishNumber, ExponentEnd, SkipDigits, Numbers.IntegerEnd, Numbers.IntegerValue;
    var minus := Peek(s, p) == MINUS;
    var m := if minus then p + 1 else p;
    if IsDigit(Peek(s, m)) {
      Numbers.ScanIntExact(s, m, minus);
      var i := Numbers.IntegerEnd(s, m);
      var number := ScanInt(s, m, minus);
      if Peek(s, i) == PERIOD {
        if IsDigit(Peek(s, i + 1)) {
          FractionEnds(s, number);
          var f := ScanFraction(s, number);
          FinishEnds(flags, s, p, f.pos, f.expFrac, evs);
        }
      } else {
        FinishEnds(flags, s, p, i, 0, evs);
        if !IsExponentMark(Peek(s, i)) {
          NoExponent(s, i);
        }
      }
    } else {
      NoDigits(s, m, minus);
    }
  }

  lemma NoExponent(s: Text, p: nat)
    requires p <= |s| && !IsExponentMark(Peek(s, p))
    ensures ExponentEnd(s, p) == Some(p)
  {
  }

  lemma NoDigits(s: Text, m: nat, minus: bool)
    requires m <= |s| && !IsDigit(Peek(s, m))
    ensures ScanInt(s, m, minus) == NoInt(m)
  {
  }

  lemma NumberHasDigit(s: Text, p: nat)
    requires p <= |s| && NumberEnd(s, p).Some?
    ensures p < |s| && IsDigit(Peek(s, if s[p] == MINUS then p + 1 else p))
    ensures var i := Numbers.IntegerEnd(s, if s[p] == MINUS then p + 1 else p);
            NumberEnd(s, p).value == i <==> Peek(s, i) != PERIOD && !IsExponentMark(Peek(s, i))
  {
    hide DigitsEnd, SkipDigits;
  }

  /** The event of a number, told by where it ends and where its integer part does. */
  function EventAt(s: Text, p: nat): seq<Event>
    requires p <= |s| && NumberEnd(s, p).Some?
  {
    NumberHasDigit(s, p);
    var q, m := NumberEnd(s, p).value, if s[p] == MINUS then p + 1 else p;
    if q == Numbers.IntegerEnd(s, m) && Numbers.ExactEvent(s[p] == MINUS, Numbers.LiteralValue(s, p)) != []
    then Numbers.ExactEvent(s[p] == MINUS, Numbers.LiteralValue(s, p))
    else [DoubleEvent(s[p..q])]
  }

  lemma NumberEvent(flags: Flags, s: Text, p: nat, evs: seq<Event>)
    requires p <= |s| && ParseNumber(flags, s, p, evs).Ok?
    ensures NumberEnd(s, p).Some?
    ensures ParseNumber(flags, s, p, evs).pos == NumberEnd(s, p).value
    ensures ParseNumber(flags, s, p, evs).evs == evs + EventAt(s, p)
  {
    NumberEnds(flags, s, p, evs);
    NumberHasDigit(s, p);
    var q, m := NumberEnd(s, p).value, if s[p] == MINUS then p + 1 else p;
    hide ScanInt, ScanFraction, NumberEnd, Numbers.LiteralValue, Numbers.ExactEvent;
    if q == Numbers.IntegerEnd(s, m) {
      hide ParseNumber;
      Numbers.IntegerLiteral(flags, s, p, evs);
    } else {
      EndsDouble(flags, s, p, evs);
    }
  }

  lemma EndsDouble(flags: Flags, s: Text, p: nat, evs: seq<Event>)
    requires p < |s| && ParseNumber(flags, s, p, evs).Ok?
    requires IsDigit(Peek(s, if s[p] == MINUS then p + 1 else p))
    requires var i := Numbers.IntegerEnd(s, if s[p] == MINUS then p + 1 else p);
             Peek(s, i) == PERIOD || IsExponentMark(Peek(s, i))
    ensures var r := ParseNumber(flags, s, p, evs); p <= r.pos <= |s| && r.evs == evs + [DoubleEvent(s[p..r.pos])]
  {
    Numbers.ScanIntExact(s, if s[p] == MINUS then p + 1 else p, s[p] == MINUS);
    hide ScanInt, ScanFraction, ScanExponent, Numbers.IntegerValue, Numbers.IntegerEnd;
  }

  // ---------------------------------------------- numerals and their places

  /** The event of a numeral: exactly its integer if it is one that 64 bits hold, else its text. */
  function NumeralEvent(n: Numeral): seq<Event>
    requires LegalNumeral(n)
  {
    assert AllDigits(n.whole);
    var v: int := DecimalValue(n.whole);
    var exact := Numbers.ExactEvent(n.minus, if n.minus then -v else v);
    if n.fraction == [] && n.mark == [] && exact != [] then exact else [DoubleEvent(NumeralText(n))]
  }

  lemma {:induction false} DigitsSkip(s: Text, p: nat, t: Text)
    requires At(s, p, t) && AllDecimal(t) && !IsDigit(Peek(s, p + |t|))
    ensures p + |t| <= |s| && SkipDigits(s, p) == p + |t|
    decreases |t|
  {
    AtEnd(s, p, t);
    if |t| > 0 {
      AtTail(s, p, t);
      DigitsSkip(s, p + 1, t[1..]);
    }
  }

  lemma DigitsAt(s: Text, p: nat)
    requires p <= |s|
    ensures var q := SkipDigits(s, p); AllDecimal(s[p..q]) && At(s, p, s[p..q])
  {
    Numbers.SkipsDigits(s, p);
  }

  /** The places of a number that is written at p. */
  lemma NumeralPlaces(s: Text, p: nat, n: Numeral)
    requires LegalNumeral(n) && At(s, p, NumeralText(n)) && EndsNumeral(Peek(s, p + |NumeralText(n)|))
    ensures NumberEnd(s, p) == Some(p + |NumeralText(n)|) && p < |s| && (s[p] == MINUS <==> n.minus)
    ensures EventAt(s, p) == NumeralEvent(n)
  {
    var sign, whole, fraction, rest := SignText(n), n.whole, FractionText(n), n.mark + n.exponent;
    var m, i, f := p + |sign|, p + |sign| + |whole|, p + |sign| + |whole| + |fraction|;
    hide At;
    AtPieces(s, p, sign, whole, fraction, rest);
    AtSplit(s, i, fraction, rest);
    SignAt(s, p, n);
    ExponentAt(s, f, n);
    FractionAt(s, i, n);
    WholeAt(s, m, n);
    EndsThere(s, p, m, i, f, n);
    TextAt(s, p, NumeralText(n));
    TextAt(s, m, whole);
    hide NumberEnd, LegalNumeral, NumeralText;
    EventThere(s, p, m, i, n);
  }

  lemma EndsThere(s: Text, p: nat, m: nat, i: nat, f: nat, n: Numeral)
    requires p < |s| && (s[p] == MINUS <==> n.minus) && m == p + |SignText(n)|
    requires m < |s| && IsDigit(s[m]) && Numbers.IntegerEnd(s, m) == i && FractionEnd(s, i) == Some(f)
    ensures f <= |s| && NumberEnd(s, p) == ExponentEnd(s, f)
  {
    hide Numbers.IntegerEnd, FractionEnd, ExponentEnd;
  }

  lemma EventThere(s: Text, p: nat, m: nat, i: nat, n: Numeral)
    requires LegalNumeral(n) && p < |s| && (s[p] == MINUS <==> n.minus) && m == p + |SignText(n)|
    requires m < |s| && IsDigit(s[m]) && Numbers.IntegerEnd(s, m) == i == m + |n.whole| && s[m..i] == n.whole
    requires NumberEnd(s, p) == Some(p + |NumeralText(n)|) && s[p..p + |NumeralText(n)|] == NumeralText(n)
    requires i == p + |NumeralText(n)| <==> n.fraction == [] && n.mark == []
    ensures EventAt(s, p) == NumeralEvent(n)
  {
    hide NumberEnd, Numbers.IntegerEnd, NumeralText, LegalNumeral, Numbers.ExactEvent;
    assert LegalNumeral(n) ==> AllDigits(n.whole) by {
      WholeIsDigits(n);
    }
    assert Numbers.IntegerValue(s, m) == DecimalValue(n.whole);
  }

  lemma WholeIsDigits(n: Numeral)
    requires LegalNumeral(n)
    ensures AllDigits(n.whole)
  {
  }

  lemma TextAt(s: Text, p: nat, t: Text)
    requires At(s, p, t)
    ensures p + |t| <= |s| && s[p..p + |t|] == t
  {
  }

  lemma SignAt(s: Text, p: nat, n: Numeral)
    requires LegalNumeral(n) && At(s, p, SignText(n)) && At(s, p + |SignText(n)|, n.whole)
    ensures p < |s| && (s[p] == MINUS <==> n.minus)
  {
    AtUnit(s, p + |SignText(n)|, n.whole, 0);
    if n.minus {
      AtUnit(s, p, SignText(n), 0);
    }
  }

  lemma ExponentAt(s: Text, f: nat, n: Numeral)
    requires LegalNumeral(n) && At(s, f, n.mark + n.exponent) && EndsNumeral(Peek(s, f + |n.mark + n.exponent|))
    ensures f <= |s| && ExponentEnd(s, f) == Some(f + |n.mark + n.exponent|)
    ensures !IsDigit(Peek(s, f)) && Peek(s, f) != PERIOD
    ensures IsExponentMark(Peek(s, f)) <==> n.mark != []
  {
    AtSplit(s, f, n.mark, n.exponent);
    AtEnd(s, f, n.mark + n.exponent);
    if n.mark != [] {
      var d := f + |n.mark|;
      AtUnit(s, f, n.mark, 0);
      AtUnit(s, d, n.exponent, 0);
      if |n.mark| == 2 {
        AtUnit(s, f, n.mark, 1);
      }
      DigitsSkip(s, d, n.exponent);
      hide At, SkipDigits;
    }
  }

  lemma FractionAt(s: Text, i: nat, n: Numeral)
    requires LegalNumeral(n) && At(s, i, FractionText(n))
    requires !IsDigit(Peek(s, i + |FractionText(n)|)) && Peek(s, i + |FractionText(n)|) != PERIOD
    ensures i <= |s| && FractionEnd(s, i) == Some(i + |FractionText(n)|)
    ensures !IsDigit(Peek(s, i)) && (Peek(s, i) == PERIOD <==> n.fraction != [])
  {
    AtEnd(s, i, FractionText(n));
    if n.fraction != [] {
      AtSplit(s, i, [PERIOD], n.fraction);
      AtUnit(s, i, [PERIOD], 0);
      AtUnit(s, i + 1, n.fraction, 0);
      DigitsSkip(s, i + 1, n.fraction);
      hide At, SkipDigits;
    }
  }

  lemma WholeAt(s: Text, m: nat, n: Numeral)
    requires LegalNumeral(n) && At(s, m, n.whole) && !IsDigit(Peek(s, m + |n.whole|))
    ensures m < |s| && IsDigit(s[m]) && Numbers.IntegerEnd(s, m) == m + |n.whole|
  {
    AtTail(s, m, n.whole);
    AtUnit(s, m, n.whole, 0);
    DigitsSkip(s, m + 1, n.whole[1..]);
    hide SkipDigits;
  }

  lemma PlacesOf(s: Text, p: nat)
    requires p <= |s| && NumberEnd(s, p).Some?
    ensures p < |s|
    ensures var m := if s[p] == MINUS then p + 1 else p;
            && m < |s| && IsDigit(s[m])
            && var i := Numbers.IntegerEnd(s, m);
               FractionEnd(s, i).Some? && ExponentEnd(s, FractionEnd(s, i).value) == NumberEnd(s, p)
  {
    hide Numbers.IntegerEnd, FractionEnd, ExponentEnd;
  }

  /** The number that is read at p. */
  lemma NumeralOf(s: Text, p: nat) returns (n: Numeral)
    requires p <= |s| && NumberEnd(s, p).Some?
    ensures LegalNumeral(n) && At(s, p, NumeralText(n)) && NumberEnd(s, p) == Some(p + |NumeralText(n)|)
    ensures EventAt(s, p) == NumeralEvent(n)
  {
    hide NumberEnd, Numbers.IntegerEnd, FractionEnd, ExponentEnd, SkipDigits, At, NumeralText, AllDecimal, IsMark;
    PlacesOf(s, p);
    var minus := s[p] == MINUS;
    var m, q := if minus then p + 1 else p, NumberEnd(s, p).value;
    var i := Numbers.IntegerEnd(s, m);
    var f := FractionEnd(s, i).value;
    WholeOf(s, m);
    var fraction := FractionOf(s, i);
    var mark, exponent := ExponentOf(s, f);
    n := Numeral(minus, s[m..i], fraction, mark, exponent);
    assert s[p..m] == SignText(n);
    TextOf(s, p, m, i, f, q, n);
    EndOf(s, p, i, f, q, n);
    EventThere(s, p, m, i, n);
  }

  lemma EndOf(s: Text, p: nat, i: nat, f: nat, q: nat, n: Numeral)
    requires p <= i <= f <= q <= |s| && s[i..f] == FractionText(n) && s[f..q] == n.mark + n.exponent
    requires n.mark == [] <==> n.exponent == []
    ensures i == q <==> n.fraction == [] && n.mark == []
  {
    assert |s[i..f]| == f - i && |s[f..q]| == q - f;
  }

  lemma WholeOf(s: Text, m: nat)
    requires m < |s| && IsDigit(s[m])
    ensures var t := s[m..Numbers.IntegerEnd(s, m)]; |t| > 0 && AllDecimal(t) && (|t| > 1 ==> t[0] != Unit('0'))
  {
    Numbers.IntegerDigits(s, m);
    hide SkipDigits;
  }

  lemma FractionOf(s: Text, i: nat) returns (t: Text)
    requires i <= |s| && FractionEnd(s, i).Some?
    ensures AllDecimal(t)
    ensures var f := FractionEnd(s, i).value; s[i..f] == if t == [] then [] else [Unit('.')] + t
  {
    var f := FractionEnd(s, i).value;
    if Peek(s, i) == PERIOD {
      DigitsAt(s, i + 1);
      t := s[i + 1..f];
      assert s[i..f] == [s[i]] + t;
    } else {
      t := [];
    }
  }

  lemma ExponentOf(s: Text, f: nat) returns (mark: Text, t: Text)
    requires f <= |s| && ExponentEnd(s, f).Some?
    ensures AllDecimal(t) && (mark == [] <==> t == []) && (mark != [] ==> IsMark(mark))
    ensures s[f..ExponentEnd(s, f).value] == mark + t
  {
    var q := ExponentEnd(s, f).value;
    if IsExponentMark(Peek(s, f)) {
      var sign := Peek(s, f + 1);
      var d := if sign == PLUS || sign == MINUS then f + 2 else f + 1;
      DigitsAt(s, d);
      mark, t := s[f..d], s[d..q];
      assert s[f..q] == s[f..d] + s[d..q];
    } else {
      mark, t := [], [];
    }
  }

  lemma TextOf(s: Text, p: nat, m: nat, i: nat, f: nat, q: nat, n: Numeral)
    requires p <= m <= i <= f <= q <= |s| && s[p..m] == SignText(n) && s[m..i] == n.whole && s[i..f] == FractionText(n)
    requires s[f..q] == n.mark + n.exponent
    ensures s[p..q] == NumeralText(n) && At(s, p, NumeralText(n)) && q == p + |NumeralText(n)|
  {
    TwoSlices(s, p, m, i);
    TwoSlices(s, p, i, f);
    TwoSlices(s, p, f, q);
  }

  lemma TwoSlices(s: Text, p: nat, i: nat, q: nat)
    requires p <= i <= q <= |s|
    ensures s[p..q] == s[p..i] + s[i..q] && |s[p..q]| == q - p
  {
  }

  // ------------------------------------------------- numbers not too big

  /** The exponent is negative or at most 308, so that the number is too big only if its double is. */
  predicate SmallExponent(n: Numeral)
    requires LegalNumeral(n)
  {
    assert AllDigits(n.exponent);
    n.mark == [] || (|n.mark| == 2 && n.mark[1] == Unit('-')) || DecimalValue(n.exponent) <= 308
  }

  lemma {:induction false} PositiveFits(s: Text, p: nat, exp: nat, maxExp: int, start: nat)
    requires p <= |s| && AllDigits(s[p..SkipDigits(s, p)]) && Numbers.Extend(exp, s[p..SkipDigits(s, p)]) <= maxExp
    ensures ScanPositiveExponent(s, p, exp, maxExp, start).Exponent?
    decreases |s| - p
  {
    if IsDigit(Peek(s, p)) {
      var q := SkipDigits(s, p);
      assert s[p..q][1..] == s[p + 1..q];
      var e := exp * 10 + (s[p] - ZERO);
      Numbers.SkipsDigits(s, p + 1);
      Numbers.ExtendGrows(e, s[p + 1..q]);
      PositiveFits(s, p + 1, e, maxExp, start);
    }
  }

  lemma ExponentFits(s: Text, f: nat, n: Numeral, expFrac: int, start: nat)
    requires LegalNumeral(n) && SmallExponent(n) && n.mark != [] && expFrac <= 0
    requires At(s, f, n.mark + n.exponent) && EndsNumeral(Peek(s, f + |n.mark + n.exponent|))
    ensures f < |s| && ScanExponent(s, f, expFrac, start).Exponent?
  {
    hide ScanPositiveExponent, ScanNegativeExponent, SkipDigits, At;
    var d := f + |n.mark|;
    AtSplit(s, f, n.mark, n.exponent);
    AtUnit(s, f, n.mark, 0);
    if |n.mark| == 2 {
      AtUnit(s, f, n.mark, 1);
    }
    AtUnit(s, d, n.exponent, 0);
    if n.mark[|n.mark| - 1] != Unit('-') {
      DigitsFit(s, d, n.exponent, MaxPositiveExponent(expFrac), start);
    }
  }

  lemma DigitsFit(s: Text, d: nat, digits: Text, maxExp: int, start: nat)
    requires At(s, d, digits) && |digits| > 0 && AllDecimal(digits) && !IsDigit(Peek(s, d + |digits|))
    requires AllDigits(digits) && DecimalValue(digits) <= maxExp
    ensures d < |s| && IsDigit(s[d]) && ScanPositiveExponent(s, d + 1, s[d] - ZERO, maxExp, start).Exponent?
  {
    hide DecimalValue, ScanPositiveExponent;
    AtTail(s, d, digits);
    DigitsSkip(s, d + 1, digits[1..]);
    TextAt(s, d + 1, digits[1..]);
    Numbers.ExtendIsDecimalValue(digits);
    PositiveFits(s, d + 1, s[d] - ZERO, maxExp, start);
  }

  /** A number with a small exponent is read, unless its double is too big. */
  lemma NumberFits(flags: Flags, s: Text, p: nat, n: Numeral, evs: seq<Event>)
    requires LegalNumeral(n) && SmallExponent(n) && At(s, p, NumeralText(n))
    requires EndsNumeral(Peek(s, p + |NumeralText(n)|)) && !flags.tooBig(NumeralText(n))
    ensures p <= |s| && ParseNumber(flags, s, p, evs) == Ok(p + |NumeralText(n)|, evs + NumeralEvent(n))
  {
    var sign, whole, fraction, rest := SignText(n), n.whole, FractionText(n), n.mark + n.exponent;
    var m, i, f := p + |sign|, p + |sign| + |whole|, p + |sign| + |whole| + |fraction|;
    hide At;
    AtPieces(s, p, sign, whole, fraction, rest);
    AtSplit(s, i, fraction, rest);
    SignAt(s, p, n);
    ExponentAt(s, f, n);
    FractionAt(s, i, n);
    WholeAt(s, m, n);
    NumeralPlaces(s, p, n);
    TextAt(s, p, NumeralText(n));
    NumberNotTooBig(flags, s, p, m, i, f, n, evs);
    NumberEvent(flags, s, p, evs);
  }

  lemma NumberNotTooBig(flags: Flags, s: Text, p: nat, m: nat, i: nat, f: nat, n: Numeral, evs: seq<Event>)
    requires LegalNumeral(n) && SmallExponent(n) && !flags.tooBig(NumeralText(n))
    requires p < |s| && (s[p] == MINUS <==> n.minus) && m == p + |SignText(n)|
    requires m < |s| && IsDigit(s[m]) && Numbers.IntegerEnd(s, m) == i && FractionEnd(s, i) == Some(f)
    requires At(s, f, n.mark + n.exponent) && EndsNumeral(Peek(s, f + |n.mark + n.exponent|))
    requires IsExponentMark(Peek(s, f)) <==> n.mark != []
    requires NumberEnd(s, p) == Some(p + |NumeralText(n)|) && s[p..p + |NumeralText(n)|] == NumeralText(n)
    ensures ParseNumber(flags, s, p, evs).Ok?
  {
    hide ScanInt, ScanFraction, FinishNumber, LegalNumeral, NumeralText, SmallExponent, At, Numbers.IntegerEnd,
         Numbers.IntegerValue, SkipDigits;
    Numbers.ScanIntExact(s, m, n.minus);
    var number := ScanInt(s, m, n.minus);
    if Peek(s, i) == PERIOD {
      FractionEnds(s, number);
      var fr := ScanFraction(s, number);
      FinishFits(flags, s, p, f, n, fr.expFrac, evs);
    } else {
      FinishFits(flags, s, p, i, n, 0, evs);
    }
  }

  lemma FinishFits(flags: Flags, s: Text, p: nat, f: nat, n: Numeral, expFrac: int, evs: seq<Event>)
    requires LegalNumeral(n) && SmallExponent(n) && !flags.tooBig(NumeralText(n)) && expFrac <= 0
    requires p < f <= |s| && (IsExponentMark(Peek(s, f)) <==> n.mark != [])
    requires At(s, f, n.mark + n.exponent) && EndsNumeral(Peek(s, f + |n.mark + n.exponent|))
    requires ExponentEnd(s, f) == Some(p + |NumeralText(n)|) && s[p..p + |NumeralText(n)|] == NumeralText(n)
    ensures FinishNumber(flags, s, p, f, expFrac, evs).Ok?
  {
    hide ScanExponent, LegalNumeral, NumeralText, SmallExponent, At, DigitsEnd;
    if n.mark != [] {
      ExponentFits(s, f, n, expFrac, p);
      ExponentEnds(s, f, expFrac, p);
    } else {
      NoExponent(s, f);
    }
  }
}

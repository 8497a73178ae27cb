/** Where and why texts are refused: numbers, literals, comments, and the root; StringGrammar has the strings. */
module Refusals {
  import opened Bytes
  import opened Characters
  import opened Events
  import opened Options
  import opened Scanning
  import opened Reading
  import opened Lexemes
  import opened JsonGrammar
  import opened ReaderSound
  import opened ReaderComplete
  import opened ReaderGrammar
  import Numbers

  // --------------------------------------------------------------- numbers

  /** A number without a digit is refused where the digit should be. */
  lemma DigitMissing(flags: Flags, s: Text, p: nat, evs: seq<Event>)
    requires p <= |s|
    ensures var m := if Peek(s, p) == Unit('-') then p + 1 else p;
            !IsDecimal(Peek(s, m)) ==> ParseNumber(flags, s, p, evs) == Fail(ValueInvalid, m, evs)
  {
    var minus := Peek(s, p) == MINUS;
    var m := if minus then p + 1 else p;
    if !IsDigit(Peek(s, m)) {
      NoDigits(s, m, minus);
    }
  }

  /** The integer part and the fraction of a number that is followed by something else than a digit. */
  lemma MantissaAt(s: Text, p: nat, n: Numeral)
    requires LegalNumeral(n) && n.mark == [] && At(s, p, NumeralText(n)) && !IsDecimal(Peek(s, p + |NumeralText(n)|))
    requires Peek(s, p + |NumeralText(n)|) == PERIOD ==> n.fraction == []
    ensures var m, f := p + |SignText(n)|, p + |NumeralText(n)|;
            && p <= m < f <= |s| && (s[p] == MINUS <==> n.minus) && IsDigit(s[m])
            && Numbers.IntegerEnd(s, m) == m + |n.whole| && f == m + |n.whole| + |FractionText(n)|
            && (n.fraction == [] ==> f == m + |n.whole|)
            && (n.fraction != [] ==> FractionEnd(s, m + |n.whole|) == Some(f) && Peek(s, m + |n.whole|) == PERIOD)
  {
    var sign, whole, fraction := SignText(n), n.whole, FractionText(n);
    var m, i := p + |sign|, p + |sign| + |whole|;
    assert NumeralText(n) == sign + whole + fraction;
    AtEnd(s, p, NumeralText(n));
    AtPieces(s, p, sign, whole, fraction, []);
    hide At;
    SignAt(s, p, n);
    if n.fraction != [] {
      FractionAt(s, i, n);
    }
    WholeAt(s, m, n);
  }

  /** A period without a digit behind it is refused there. */
  lemma FractionMissing(flags: Flags, s: Text, p: nat, n: Numeral, evs: seq<Event>)
    requires LegalNumeral(n) && n.fraction == [] && n.mark == [] && At(s, p, NumeralText(n))
    requires var f := p + |NumeralText(n)|; Peek(s, f) == Unit('.') && !IsDecimal(Peek(s, f + 1))
    ensures p <= |s| && ParseNumber(flags, s, p, evs) == Fail(NumberMissFraction, p + |NumeralText(n)| + 1, evs)
  {
    hide At, ScanInt, Numbers.IntegerEnd, Numbers.IntegerValue, NumeralText, FractionText, FractionEnd;
    MantissaAt(s, p, n);
    Numbers.ScanIntExact(s, p + |SignText(n)|, n.minus);
  }

  /** The mark of an exponent without a digit behind it and its sign is refused where the digit should be. */
  lemma ExponentMissing(flags: Flags, s: Text, p: nat, n: Numeral, mark: Text, evs: seq<Event>)
    requires LegalNumeral(n) && n.mark == [] && IsMark(mark)
    requires At(s, p, NumeralText(n)) && At(s, p + |NumeralText(n)|, mark)
    requires var c := Peek(s, p + |NumeralText(n)| + |mark|);
             !IsDecimal(c) && (|mark| == 1 ==> c != Unit('+') && c != Unit('-'))
    ensures p <= |s|
    ensures ParseNumber(flags, s, p, evs) == Fail(NumberMissExponent, p + |NumeralText(n)| + |mark|, evs)
  {
    var m, f := p + |SignText(n)|, p + |NumeralText(n)|;
    hide At, ScanInt, ScanFraction, ScanExponent, IsMark, Numbers.IntegerEnd, Numbers.IntegerValue, NumeralText,
         FractionText, SkipDigits;
    MarkAlone(s, f, mark, 0, p);
    MantissaAt(s, p, n);
    Numbers.ScanIntExact(s, m, n.minus);
    if n.fraction != [] {
      FractionEnds(s, ScanInt(s, m, n.minus));
      MarkAlone(s, f, mark, ScanFraction(s, ScanInt(s, m, n.minus)).expFrac, p);
    }
  }

  lemma MarkAlone(s: Text, f: nat, mark: Text, expFrac: int, start: nat)
    requires IsMark(mark) && At(s, f, mark) && !IsDecimal(Peek(s, f + |mark|))
    requires |mark| == 1 ==> Peek(s, f + 1) != Unit('+') && Peek(s, f + 1) != Unit('-')
    ensures f < |s| && IsExponentMark(s[f]) && s[f] != PERIOD
    ensures ScanExponent(s, f, expFrac, start) == BadExponent(NumberMissExponent, f + |mark|)
  {
    AtUnit(s, f, mark, 0);
    if |mark| == 2 {
      AtUnit(s, f, mark, 1);
    }
  }

  // ------------------------------------------------- literals and comments

  /** A word that breaks off is refused at the first unit that differs. */
  lemma WordBroken(flags: Flags, s: Text, p: nat, word: Text, k: nat, evs: seq<Event>)
    requires word == ASCII("null") || word == ASCII("true") || word == ASCII("false")
    requires 0 < k < |word| && At(s, p, word[..k]) && Peek(s, p + k) != word[k]
    ensures p <= |s| && ParseValue(flags, s, p, evs) == Fail(ValueInvalid, p + k, evs)
  {
    hide MatchLiteral, ASCII, At;
    WordsAre();
    var rest := word[1..];
    assert word[..k] == [word[0]] + rest[..k - 1];
    AtSplit(s, p, [word[0]], rest[..k - 1]);
    AtUnit(s, p, [word[0]], 0);
    LiteralBreaks(s, p + 1, rest, k - 1, evs);
    assert rest == ULL || rest == RUE || rest == ALSE;
  }

  lemma {:induction false} LiteralBreaks(s: Text, p: nat, rest: Text, k: nat, evs: seq<Event>)
    requires NUL !in rest && k < |rest| && p <= |s| && At(s, p, rest[..k]) && Peek(s, p + k) != rest[k]
    ensures MatchLiteral(s, p, rest, evs) == Fail(ValueInvalid, p + k, evs)
    decreases k
  {
    if k > 0 {
      AtUnit(s, p, rest[..k], 0);
      AtTail(s, p, rest[..k]);
      assert rest[..k][1..] == rest[1..][..k - 1];
      LiteralBreaks(s, p + 1, rest[1..], k - 1, evs);
    }
  }

  /** A solidus that begins no comment is refused behind it. */
  lemma NoComment(flags: Flags, s: Text, p: nat, evs: seq<Event>)
    requires flags.comments && p < |s| && s[p] == Unit('/')
    requires Peek(s, p + 1) != Unit('*') && Peek(s, p + 1) != Unit('/')
    ensures SkipWhitespaceAndComments(flags, s, p, evs) == Fail(UnspecificSyntaxError, p + 1, evs)
  {
  }

  /** A block comment without an end is refused at the end of the text. */
  lemma CommentUnended(flags: Flags, s: Text, p: nat, q: nat, evs: seq<Event>)
    requires flags.comments && p + 2 <= q <= |s| && Starts(s, p, '/', '*') && Peek(s, q) == NUL && NUL !in s[p + 2..q]
    requires forall i | p + 2 <= i < q :: !Starts(s, i, '*', '/')
    ensures SkipWhitespaceAndComments(flags, s, p, evs) == Fail(UnspecificSyntaxError, q, evs)
  {
    BlockUnended(s, p + 2, q, evs);
  }

  lemma {:induction false} BlockUnended(s: Text, p: nat, q: nat, evs: seq<Event>)
    requires p <= q <= |s| && Peek(s, q) == NUL && NUL !in s[p..q] && forall i | p <= i < q :: !Starts(s, i, '*', '/')
    ensures SkipBlockComment(s, p, evs) == Fail(UnspecificSyntaxError, q, evs)
    decreases q - p
  {
    if p < q {
      assert s[p] in s[p..q];
      assert !Starts(s, p, '*', '/');
      assert forall c | c in s[p + 1..q] :: c in s[p..q];
      BlockUnended(s, p + 1, q, evs);
    }
  }

  // ------------------------------------------------------------------ root

  /** A text of blanks is empty. */
  lemma RootMissing(flags: Flags, s: Text, blanks: Text)
    requires LastBlanks(flags.comments, blanks) && At(s, 0, blanks) && Peek(s, |blanks|) == NUL
    ensures Parse(flags, s) == Fail(DocumentEmpty, |blanks|, [])
  {
    hide SkipWhitespaceAndComments, Blanks, LastBlanks;
    LastBlanksSkip(flags, s, 0, blanks, []);
  }

  /** Behind the root and blanks there must be nothing. */
  lemma SecondRoot(flags: Flags, s: Text, before: Text, t: Tree, after: Text)
    requires !flags.stopWhenDone && Blanks(flags.comments, before) && Legal(flags, t) && Blanks(flags.comments, after)
    requires Fits(flags, t) && At(s, 0, before + Spelled(flags, t) + after)
    requires var c := Peek(s, |before + Spelled(flags, t) + after|);
             && c != NUL && !IsBlank(c) && (flags.comments ==> c != Unit('/'))
             && (t.Number? && after == [] ==> EndsNumeral(c))
    ensures Parse(flags, s) == Fail(DocumentRootNotSingular, |before + Spelled(flags, t) + after|, EventsOf(flags, t))
  {
    hide SkipWhitespaceAndComments, ParseValue, Blanks, Legal, Spelled, EventsOf, Fits;
    AtSplit(s, 0, before + Spelled(flags, t), after);
    hide At;
    var p := |before| + |Spelled(flags, t)|;
    if |after| > 0 {
      BlanksBegin(flags.comments, after);
      AtUnit(s, p, after, 0);
    }
    RootComplete(flags, s, before, t);
    BlanksSkip(flags, s, p, after, EventsOf(flags, t));
  }
}

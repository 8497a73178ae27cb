/** The reader accepts exactly the grammar. */
module ReaderGrammar {
  import opened Bytes
  import opened Characters
  import opened Events
  import opened Scanning
  import opened Reading
  import opened ReaderEquivalence
  import opened Lexemes
  import opened JsonGrammar
  import opened ReaderSound
  import opened ReaderComplete

  /** The text up to q, where it ends: blanks, a value that means the events, and blanks. Its numbers fit, or not. */
  ghost predicate IsText(flags: Flags, s: Text, q: nat, evs: seq<Event>, fits: bool) {
    && q <= |s| && Peek(s, q) == NUL
    && exists before: Text, t: Tree, after: Text ::
         && Blanks(flags.comments, before) && Legal(flags, t) && LastBlanks(flags.comments, after)
         && Fits(flags, t) == fits && s[..q] == before + Spelled(flags, t) + after && evs == EventsOf(flags, t)
  }

  /** The text up to q: blanks and a value that means the events, a number or not. */
  ghost predicate IsPrefix(flags: Flags, s: Text, q: nat, evs: seq<Event>, fits: bool, number: bool) {
    && q <= |s|
    && exists before: Text, t: Tree ::
         && Blanks(flags.comments, before) && Legal(flags, t) && Fits(flags, t) == fits && t.Number? == number
         && s[..q] == before + Spelled(flags, t) && evs == EventsOf(flags, t)
  }

  lemma LastBegins(comments: bool, t: Text)
    requires LastBlanks(comments, t) && |t| > 0
    ensures IsBlank(t[0]) || t[0] == Unit('/')
  {
    if Blanks(comments, t) {
      BlanksBegin(comments, t);
    } else {
      var k :| 0 <= k <= |t| && Blanks(comments, t[..k]) && IsLine(t[k..]);
      if k > 0 {
        BlanksBegin(comments, t[..k]);
      } else {
        assert t[0..] == t;
      }
    }
  }

  /** Blanks and a value at the beginning of a text are read. */
  lemma RootComplete(flags: Flags, s: Text, before: Text, t: Tree)
    requires Blanks(flags.comments, before) && Legal(flags, t) && At(s, 0, before + Spelled(flags, t))
    requires t.Number? ==> EndsNumeral(Peek(s, |before| + |Spelled(flags, t)|))
    ensures |before| <= |s| && SkipWhitespaceAndComments(flags, s, 0, []) == Ok(|before|, [])
    ensures Peek(s, |before|) != NUL
    ensures Reads(Fits(flags, t), ParseValue(flags, s, |before|, []), |before| + |Spelled(flags, t)|, EventsOf(flags, t))
  {
    hide At, SkipWhitespaceAndComments, ParseValue, Blanks, Legal, Spelled, EventsOf;
    AtSplit(s, 0, before, Spelled(flags, t));
    ValueFirst(flags, t);
    AtUnit(s, |before|, Spelled(flags, t), 0);
    BlanksSkip(flags, s, 0, before, []);
    ValueComplete(flags, s, |before|, t, []);
    assert [] + EventsOf(flags, t) == EventsOf(flags, t);
  }

  lemma TextIsRead(flags: Flags, s: Text, q: nat, evs: seq<Event>, fits: bool)
    requires !flags.stopWhenDone && IsText(flags, s, q, evs, fits)
    ensures Reads(fits, Parse(flags, s), q, evs)
  {
    hide SkipWhitespaceAndComments, ParseValue, Blanks, LastBlanks, Legal, Spelled, EventsOf, Fits;
    var before: Text, t: Tree, after: Text :| && Blanks(flags.comments, before) && Legal(flags, t)
      && LastBlanks(flags.comments, after) && Fits(flags, t) == fits && s[..q] == before + Spelled(flags, t) + after
      && evs == EventsOf(flags, t);
    assert s[0..q] == s[..q];
    AtSplit(s, 0, before + Spelled(flags, t), after);
    hide At;
    var p := |before| + |Spelled(flags, t)|;
    AtEnd(s, p, after);
    if |after| > 0 {
      LastBegins(flags.comments, after);
      AtUnit(s, p, after, 0);
    }
    RootComplete(flags, s, before, t);
    LastBlanksSkip(flags, s, p, after, evs);
  }

  lemma ReadIsText(flags: Flags, s: Text)
    requires Parse(flags, s).Ok?
    ensures var r := Parse(flags, s);
            if flags.stopWhenDone then exists fits, number :: IsPrefix(flags, s, r.pos, r.evs, fits, number)
            else exists fits :: IsText(flags, s, r.pos, r.evs, fits)
  {
    hide SkipWhitespaceAndComments, ParseValue, Blanks, LastBlanks, Legal, Spelled, EventsOf, Fits, At;
    var p := SkipWhitespaceAndComments(flags, s, 0, []).pos;
    SkippedIsBlank(flags, s, 0, []);
    NoValueAtEnd(flags, s, p, []);
    var t := ValueSound(flags, s, p, []);
    assert [] + EventsOf(flags, t) == EventsOf(flags, t);
    var v := ParseValue(flags, s, p, []);
    Upto(s, p, Spelled(flags, t));
    assert s[0..p] == s[..p];
    if flags.stopWhenDone {
      assert IsPrefix(flags, s, v.pos, v.evs, Fits(flags, t), t.Number?);
    } else {
      SkippedIsBlank(flags, s, v.pos, v.evs);
      var q := SkipWhitespaceAndComments(flags, s, v.pos, v.evs).pos;
      assert s[..q] == s[..v.pos] + s[v.pos..q];
      assert s[..q] == s[..p] + Spelled(flags, t) + s[v.pos..q];
      assert IsText(flags, s, q, v.evs, Fits(flags, t));
    }
  }

  lemma Upto(s: Text, p: nat, t: Text)
    requires At(s, p, t)
    ensures p + |t| <= |s| && s[..p + |t|] == s[..p] + t
  {
  }

  /**
   * A text is read as some events up to q only if it is blanks, a value that means these events and blanks up to its end
   * at q. Every such text is read so if its numbers fit; otherwise it may be given up at a number that is too big. Both
   * parsers agree on it.
   */
  lemma ExactlyTheGrammar(flags: Flags, s: Text, q: nat, evs: seq<Event>)
    requires !flags.stopWhenDone
    ensures Parse(flags, s) == Ok(q, evs) ==> exists fits :: IsText(flags, s, q, evs, fits)
    ensures IsText(flags, s, q, evs, true) ==> Parse(flags, s) == Ok(q, evs)
    ensures IsText(flags, s, q, evs, false) ==>
              Parse(flags, s) == Ok(q, evs) || (Parse(flags, s).Fail? && Parse(flags, s).code == NumberTooBig)
    ensures Parse(flags, s).Ok? || (Parse(flags, s).Fail? && Parse(flags, s).code == NumberTooBig) ==>
              IterativeParse(flags, s) == Parse(flags, s)
  {
    hide Parse, IterativeParse, IsText;
    if Parse(flags, s) == Ok(q, evs) {
      ReadIsText(flags, s);
    }
    forall fits | IsText(flags, s, q, evs, fits) ensures Reads(fits, Parse(flags, s), q, evs) {
      TextIsRead(flags, s, q, evs, fits);
    }
    ParsersAgree(flags, s);
  }

  /** With the flag to stop at the end of the root, what comes behind the value is not looked at. */
  lemma ExactlyAPrefix(flags: Flags, s: Text, q: nat, evs: seq<Event>)
    requires flags.stopWhenDone
    ensures Parse(flags, s) == Ok(q, evs) ==> exists fits, number :: IsPrefix(flags, s, q, evs, fits, number)
    ensures forall fits, number | IsPrefix(flags, s, q, evs, fits, number) && (number ==> EndsNumeral(Peek(s, q))) ::
              Reads(fits, Parse(flags, s), q, evs)
  {
    hide Parse, IsPrefix, EndsNumeral, Reads;
    if Parse(flags, s) == Ok(q, evs) {
      ReadIsText(flags, s);
    }
    forall fits, number | IsPrefix(flags, s, q, evs, fits, number) && (number ==> EndsNumeral(Peek(s, q)))
      ensures Reads(fits, Parse(flags, s), q, evs)
    {
      PrefixIsRead(flags, s, q, evs, fits, number);
    }
  }

  lemma PrefixIsRead(flags: Flags, s: Text, q: nat, evs: seq<Event>, fits: bool, number: bool)
    requires flags.stopWhenDone && IsPrefix(flags, s, q, evs, fits, number) && (number ==> EndsNumeral(Peek(s, q)))
    ensures Reads(fits, Parse(flags, s), q, evs)
  {
    hide SkipWhitespaceAndComments, ParseValue, Blanks, Legal, Spelled, EventsOf, EndsNumeral, Fits;
    var before: Text, t: Tree :| && Blanks(flags.comments, before) && Legal(flags, t) && Fits(flags, t) == fits
      && t.Number? == number && s[..q] == before + Spelled(flags, t) && evs == EventsOf(flags, t);
    assert s[0..q] == s[..q];
    RootComplete(flags, s, before, t);
  }

  /** Without the flags for comments and last commas this is the grammar of the standard: no comment, no last comma. */
  lemma {:induction false} PlainBlanks(t: Text)
    requires Blanks(false, t)
    ensures forall i | 0 <= i < |t| :: IsBlank(t[i])
    decreases |t|
  {
    if |t| > 0 {
      PlainBlanks(t[1..]);
      assert forall i | 1 <= i < |t| :: t[i] == t[1..][i - 1];
    }
  }
}

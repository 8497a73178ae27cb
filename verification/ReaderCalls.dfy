/**
 * Event-by-event parsing with every flag. A call does not look at the error that skipping a comment may have
 * raised, so with comments it can go on, and even complete the root, after an error.
 */
module ReaderCalls {
  import opened Bytes
  import opened Events
  import opened Options
  import opened Scanning
  import opened Reading
  import opened ReaderEquivalence
  import opened ReaderMirror

  /**
   * How a call ends: its answer, where the parser stands, and whether an error has been flagged; after the answer
   * false only the events and the flag say anything about the reader. A second error trips the assertion that an error
   * is assigned only once.
   */
  datatype Call = Call(more: bool, state: State, pos: nat, stack: seq<Frame>, evs: seq<Event>, failed: bool) | Asserted

  /** One call from a position in front of blanks; failed says whether an error is already flagged. */
  function NextCall(flags: Flags, s: Text, src: State, p: nat, stack: seq<Frame>, evs: seq<Event>,
                    failed: bool): (c: Call)
    requires p <= |s| && Consistent(src, stack)
    ensures c.Call? && c.more ==> c.pos <= |s| && Consistent(c.state, c.stack)
    decreases |s| - p, 1
  {
    if Peek(s, p) == NUL then
      // The stack is cleared at the end of the text.
      if src.FinishState? then Call(true, src, p, [], evs, failed) else Call(false, src, p, [], evs, true)
    else
      match SkipWhitespaceAndComments(flags, s, p, evs)
      case Ok(q, _) => AtToken(flags, s, src, q, stack, evs, failed)
      case Fail(_, off, _) => if failed then Asserted else AtToken(flags, s, src, off, stack, evs, true)
  }

  /** The transition of a call, past the blanks. */
  function AtToken(flags: Flags, s: Text, src: State, p: nat, stack: seq<Frame>, evs: seq<Event>,
                   failed: bool): (c: Call)
    requires p <= |s| && Consistent(src, stack)
    ensures c.Call? && c.more ==> c.pos <= |s| && Consistent(c.state, c.stack)
    decreases |s| - p, 0
  {
    var n := Predict(src, Tokenize(Peek(s, p)));
    match CallTransit(flags, s, src, n, p, stack, evs, failed)
    case Trips => Asserted
    case Stops(q, e) => Call(false, src, q, stack, e, true)
    case Moves(d, q, st, e) =>
      if d.FinishState? then AfterRoot(flags, s, q, e, failed)
      else if IsDelimiterState(n) then NextCall(flags, s, d, q, st, e, failed)
      else Call(true, d, q, st, e, failed)
  }

  /** How a transition ends for a call: it moves on, stops with an error flagged, or raises a second error. */
  datatype CallStep = Moves(state: State, pos: nat, stack: seq<Frame>, evs: seq<Event>)
                    | Stops(pos: nat, evs: seq<Event>)
                    | Trips

  function CallTransit(flags: Flags, s: Text, src: State, dst: State, p: nat, stack: seq<Frame>, evs: seq<Event>,
                       failed: bool)
    : (r: CallStep)
    requires p <= |s| && Consistent(src, stack) && dst == Predict(src, Tokenize(Peek(s, p)))
    ensures r.Moves? ==> p < r.pos <= |s| && Consistent(r.state, r.stack)
  {
    if failed then FlaggedTransit(flags, s, src, dst, p, stack, evs)
    else
      match Transit(flags, s, src, dst, p, stack, evs)
      case Go(d, q, st, e) => Moves(d, q, st, e)
      case Halt(_, off, e) => Stops(off, e)
  }

  /** A transition with an error flagged before it. */
  function FlaggedTransit(flags: Flags, s: Text, src: State, dst: State, p: nat, stack: seq<Frame>, evs: seq<Event>)
    : (r: CallStep)
    requires p <= |s| && Consistent(src, stack) && dst == Predict(src, Tokenize(Peek(s, p)))
    ensures r.Moves? ==> p < r.pos <= |s| && Consistent(r.state, r.stack)
  {
    match dst
    case ErrorState => Stops(p, evs)
    case MemberKeyState | MemberValueState | ElementState | ValueState => FlaggedScalar(flags, s, p, evs)
    case _ =>
      match Transit(flags, s, src, dst, p, stack, evs)
      case Go(d, q, st, e) => Moves(d, q, st, e)
      case Halt(_, _, _) => Trips
  }

  /** A literal or a number is delivered before the flag is looked at, a string or a name is not. */
  function FlaggedScalar(flags: Flags, s: Text, p: nat, evs: seq<Event>): CallStep
    requires p <= |s|
  {
    if Peek(s, p) == QUOTE then
      match FlaggedString(s, p + 1)
      case Some(q) => Stops(q, evs)
      case None => Trips
    else
      match ParseValue(flags, s, p, evs)
      case Ok(q, e) => Stops(q, e)
      case Fail(_, _, _) => Trips
  }

  /**
   * The scan of a string with an error flagged before it: the flag is taken for an error in the first \u escape, right
   * behind whose four digits the scan ends, unless the string ends first or is not well-formed up to there.
   */
  function FlaggedString(s: Text, p: nat): (q: Option<nat>)
    requires p <= |s|
    ensures q.Some? ==> p < q.value <= |s|
    decreases |s| - p
  {
    var c := Peek(s, p);
    if c == BACKSLASH then
      if Escape(Peek(s, p + 1)) != 0 then FlaggedString(s, p + 2)
      else if Peek(s, p + 1) == LOWER_U && Hex4(s, p + 2) >= 0 then Some(p + 6)
      else None
    else if c == QUOTE then Some(p + 1)
    else if c < 0x20 then None
    else FlaggedString(s, p + 1)
  }

  /** The root is complete: unless parsing stops there, only blanks may follow. */
  function AfterRoot(flags: Flags, s: Text, p: nat, evs: seq<Event>, failed: bool): (c: Call)
    requires p <= |s|
    ensures c.Call? ==> c.pos <= |s| && c.state == FinishState && c.stack == [] && c.evs == evs
  {
    if flags.stopWhenDone then Call(true, FinishState, p, [], evs, failed)
    else
      match SkipWhitespaceAndComments(flags, s, p, evs)
      case Ok(q, _) => if Peek(s, q) != NUL then Call(false, FinishState, q, [], evs, true)
                       else Call(true, FinishState, q, [], evs, failed)
      case Fail(_, off, _) =>
        if failed then Asserted
        else Call(Peek(s, off) == NUL, FinishState, off, [], evs, true)
  }

  /** What a call has delivered. */
  predicate Delivered(c: Call, evs: seq<Event>) {
    c.Call? ==> evs <= c.evs && if c.more then |c.evs| == |evs| + 1 else |c.evs| <= |evs| + 1
  }

  /**
   * With every flag: a call that answers true before the root is complete has delivered exactly one event;
   * one that answers false has delivered at most one.
   */
  lemma {:induction false} OneEventPerCall(flags: Flags, s: Text, src: State, p: nat, stack: seq<Frame>,
                                           evs: seq<Event>,
                                           failed: bool)
    requires p <= |s| && Consistent(src, stack) && !src.FinishState?
    ensures Delivered(NextCall(flags, s, src, p, stack, evs, failed), evs)
    decreases |s| - p, 1
  {
    hide AtToken, SkipWhitespaceAndComments, Consistent;
    if Peek(s, p) != NUL {
      match SkipWhitespaceAndComments(flags, s, p, evs)
      case Ok(q, _) => OneEventAtToken(flags, s, src, q, stack, evs, failed);
      case Fail(_, off, _) => OneEventAtToken(flags, s, src, off, stack, evs, true);
    }
  }

  lemma {:induction false} OneEventAtToken(flags: Flags, s: Text, src: State, p: nat, stack: seq<Frame>,
                                           evs: seq<Event>,
                                           failed: bool)
    requires p <= |s| && Consistent(src, stack) && !src.FinishState?
    ensures Delivered(AtToken(flags, s, src, p, stack, evs, failed), evs)
    decreases |s| - p, 0
  {
    hide CallTransit, NextCall, Consistent;
    var n := Predict(src, Tokenize(Peek(s, p)));
    CallEmits(flags, s, src, p, stack, evs, failed);
    var step := CallTransit(flags, s, src, n, p, stack, evs, failed);
    if step.Moves? && IsDelimiterState(n) {
      OneEventPerCall(flags, s, step.state, step.pos, step.stack, step.evs, failed);
    }
  }

  /** A call moves on only where the automaton does, and to the same place. */
  lemma CallMoves(flags: Flags, s: Text, src: State, p: nat, stack: seq<Frame>, evs: seq<Event>, failed: bool)
    requires p <= |s| && Consistent(src, stack)
    ensures var r := CallTransit(flags, s, src, Predict(src, Tokenize(Peek(s, p))), p, stack, evs, failed);
            r.Moves? ==> !r.state.ErrorState? && Next(flags, s, src, p, stack, evs) == Go(r.state, r.pos, r.stack, r.evs)
  {
    hide Transit, FlaggedScalar;
    if Peek(s, p) != LBRACE && Peek(s, p) != LBRACKET {
      FlaggedEmits(flags, s, p, evs);
    }
  }

  /**
   * A transition of a call delivers one event if it moves on to anything but a delimiter, and at most one if it stops.
   */
  lemma CallEmits(flags: Flags, s: Text, src: State, p: nat, stack: seq<Frame>, evs: seq<Event>, failed: bool)
    requires p <= |s| && Consistent(src, stack)
    ensures var n := Predict(src, Tokenize(Peek(s, p)));
            var r := CallTransit(flags, s, src, n, p, stack, evs, failed);
            match r
            case Moves(d, _, _, e) => if IsDelimiterState(n) then e == evs && d == n else evs < e && |e| == |evs| + 1
            case Stops(_, e) => evs <= e && |e| <= |evs| + 1
            case Trips => true
  {
    hide Transit, Consistent, FlaggedScalar;
    TransitEmits(flags, s, src, p, stack, evs);
    if Peek(s, p) != LBRACE && Peek(s, p) != LBRACKET {
      FlaggedEmits(flags, s, p, evs);
    }
  }

  /** A scalar met with an error flagged delivers one event if it is a literal or a number, else none. */
  lemma FlaggedEmits(flags: Flags, s: Text, p: nat, evs: seq<Event>)
    requires p <= |s| && Peek(s, p) != LBRACE && Peek(s, p) != LBRACKET
    ensures var r := FlaggedScalar(flags, s, p, evs);
            r.Stops? ==> if Peek(s, p) == QUOTE then r.evs == evs else evs < r.evs && |r.evs| == |evs| + 1
    ensures !FlaggedScalar(flags, s, p, evs).Moves?
  {
    hide ParseValue, FlaggedString;
    ScalarEmitsOne(flags, s, p, evs);
  }

  /** Skipping goes on from where it stopped, or stops with the same error. */
  lemma RoundWithComments(flags: Flags, s: Text, src: State, p: nat, stack: seq<Frame>, evs: seq<Event>)
    requires p <= |s| && Consistent(src, stack) && !src.FinishState?
    ensures var skipped, rest := SkipWhitespaceAndComments(flags, s, p, evs), Resume(flags, s, src, p, stack, evs);
            if skipped.Fail? then rest.Fail? && rest.evs == evs
            else
              var step := Next(flags, s, src, skipped.pos, stack, evs);
              if step.Go? then rest == Resume(flags, s, step.state, step.pos, step.stack, step.evs)
              else rest.Fail? && rest.evs == evs
  {
    hide ParseValue, SkipWhitespaceAndComments;
    var skipped := SkipWhitespaceAndComments(flags, s, p, evs);
    if skipped.Ok? {
      var q := skipped.pos;
      if Peek(s, q) == NUL {
        HaltsAtEnd(flags, s, src, q, stack, evs);
      } else {
        TransitEmits(flags, s, src, q, stack, evs);
        hide Transit;
        assert Resume(flags, s, src, p, stack, evs) == Run(flags, s, src, q, stack, evs);
      }
    }
  }

  lemma EndFailsAnyway(flags: Flags, s: Text, src: State, p: nat, stack: seq<Frame>, evs: seq<Event>)
    requires p <= |s| && Consistent(src, stack) && !src.FinishState? && Peek(s, p) == NUL
    ensures Resume(flags, s, src, p, stack, evs).Fail?
  {
    var skipped := SkipWhitespaceAndComments(flags, s, p, evs);
    hide Next;
  }

  /**
   * A call answers as the whole parse goes on exactly as long as it flags no error: then the parse continues from
   * where the call stands. A call that answers false, or flags an error and answers true all the same, belongs to a
   * parse that fails.
   */
  lemma {:induction false} CallsFollowParse(flags: Flags, s: Text, src: State, p: nat, stack: seq<Frame>,
                                            evs: seq<Event>)
    requires p <= |s| && Consistent(src, stack) && !src.FinishState?
    ensures var c, rest := NextCall(flags, s, src, p, stack, evs, false), Resume(flags, s, src, p, stack, evs);
            if c.Asserted? || c.failed || !c.more then rest.Fail?
            else if c.state.FinishState? then rest == Ok(c.pos, c.evs)
            else rest == Resume(flags, s, c.state, c.pos, c.stack, c.evs)
    decreases |s| - p
  {
    hide Transit, FlaggedTransit, SkipWhitespaceAndComments, Resume, AfterRoot, Consistent;
    if Peek(s, p) == NUL {
      EndFailsAnyway(flags, s, src, p, stack, evs);
    } else {
      RoundWithComments(flags, s, src, p, stack, evs);
      var skipped := SkipWhitespaceAndComments(flags, s, p, evs);
      if skipped.Fail? {
        FlagStays(flags, s, src, skipped.off, stack, evs);
      } else {
        var q := skipped.pos;
        var step := Next(flags, s, src, q, stack, evs);
        if step.Go? && step.state.FinishState? {
          EndFollows(flags, s, step.pos, step.evs);
          FinishedStack(step.stack);
        } else if step.Go? && IsDelimiterState(Predict(src, Tokenize(Peek(s, q)))) {
          TransitEmits(flags, s, src, q, stack, evs);
          CallsFollowParse(flags, s, step.state, step.pos, step.stack, step.evs);
        }
      }
    }
  }

  lemma FinishedStack(stack: seq<Frame>)
    requires Consistent(FinishState, stack)
    ensures stack == []
  {
  }

  lemma EndFollows(flags: Flags, s: Text, p: nat, evs: seq<Event>)
    requires p <= |s|
    ensures var c, rest := AfterRoot(flags, s, p, evs, false), Resume(flags, s, FinishState, p, [], evs);
            if c.Asserted? || c.failed || !c.more then rest.Fail? else rest == Ok(c.pos, c.evs)
  {
    ResumesAfterRoot(flags, s, p, evs);
  }

  /** Once flagged, an error stays flagged. */
  lemma {:induction false} FlagStays(flags: Flags, s: Text, src: State, p: nat, stack: seq<Frame>, evs: seq<Event>)
    requires p <= |s| && Consistent(src, stack)
    ensures var c := AtToken(flags, s, src, p, stack, evs, true); c.Call? ==> c.failed
    decreases |s| - p, 0
  {
    hide Transit, FlaggedTransit, SkipWhitespaceAndComments;
    var n := Predict(src, Tokenize(Peek(s, p)));
    var step := FlaggedTransit(flags, s, src, n, p, stack, evs);
    if step.Moves? && IsDelimiterState(n) {
      FlagStaysInCall(flags, s, step.state, step.pos, step.stack, step.evs);
    }
  }

  lemma {:induction false} FlagStaysInCall(flags: Flags, s: Text, src: State, p: nat, stack: seq<Frame>,
                                           evs: seq<Event>)
    requires p <= |s| && Consistent(src, stack)
    ensures var c := NextCall(flags, s, src, p, stack, evs, true); c.Call? ==> c.failed
    decreases |s| - p, 1
  {
    hide AtToken, SkipWhitespaceAndComments;
    var skipped := SkipWhitespaceAndComments(flags, s, p, evs);
    if skipped.Ok? {
      FlagStays(flags, s, src, skipped.pos, stack, evs);
    }
  }

  const BROKEN: Text := [LBRACKET, SLASH, RBRACKET]

  lemma BrokenSkips(flags: Flags)
    requires flags.comments
    ensures SkipWhitespaceAndComments(flags, BROKEN, 0, []) == Ok(0, [])
    ensures SkipWhitespaceAndComments(flags, BROKEN, 1, [StartArray]) == Fail(UnspecificSyntaxError, 2, [StartArray])
    ensures SkipWhitespaceAndComments(flags, BROKEN, 3, [StartArray, EndArray(0)]) == Ok(3, [StartArray, EndArray(0)])
  {
    assert SkipWhitespace(BROKEN, 0) == 0 && SkipWhitespace(BROKEN, 1) == 1 && SkipWhitespace(BROKEN, 3) == 3;
  }

  lemma BrokenSteps(flags: Flags)
    ensures Next(flags, BROKEN, StartState, 0, [], []) == Go(ArrayInitialState, 1, [Frame(StartState, 0)], [StartArray])
    ensures FlaggedTransit(flags, BROKEN, ArrayInitialState, ArrayFinishState, 2, [Frame(StartState, 0)], [StartArray])
         == Moves(FinishState, 3, [], [StartArray, EndArray(0)])
  {
    hide ParseValue, ParseString;
    var frames := [Frame(StartState, 0)];
    assert [] + frames == frames && frames[..0] == [];
  }

  /**
   * The text [/] with comments switched on: the whole parse fails, but two calls deliver an empty array and answer
   * true, the second with the error flagged.
   */
  lemma CommentErrorUnnoticed(flags: Flags)
    requires flags.comments
    ensures IterativeParse(flags, BROKEN).Fail?
    ensures NextCall(flags, BROKEN, StartState, 0, [], [], false)
         == Call(true, ArrayInitialState, 1, [Frame(StartState, 0)], [StartArray], false)
    ensures NextCall(flags, BROKEN, ArrayInitialState, 1, [Frame(StartState, 0)], [StartArray], false)
         == Call(true, FinishState, 3, [], [StartArray, EndArray(0)], true)
  {
    hide SkipWhitespaceAndComments, Transit, FlaggedTransit;
    BrokenSkips(flags);
    BrokenSteps(flags);
    assert Resume(flags, BROKEN, ArrayInitialState, 1, [Frame(StartState, 0)], [StartArray]).Fail?;
  }

  /** Without comments no call answers true after an error, or trips an assertion. */
  lemma {:induction false} ErrorsNoticed(flags: Flags, s: Text, src: State, p: nat, stack: seq<Frame>, evs: seq<Event>)
    requires p <= |s| && Consistent(src, stack) && !flags.comments
    ensures var c := NextCall(flags, s, src, p, stack, evs, false); c.Call? && c.failed == !c.more
    decreases |s| - p
  {
    hide SkipWhitespace, Transit, FlaggedTransit;
    if Peek(s, p) != NUL {
      var q := SkipWhitespace(s, p);
      var step := Next(flags, s, src, q, stack, evs);
      if step.Go? && !step.state.FinishState? && IsDelimiterState(Predict(src, Tokenize(Peek(s, q)))) {
        ErrorsNoticed(flags, s, step.state, step.pos, step.stack, step.evs);
      }
    }
  }

  /** A call that starts without an error and answers true although it has met one. */
  ghost predicate AnswersDespiteError(flags: Flags, s: Text, src: State, p: nat, stack: seq<Frame>, evs: seq<Event>) {
    p <= |s| && Consistent(src, stack)
    && var c := NextCall(flags, s, src, p, stack, evs, false); c.Call? && c.more && c.failed
  }

  /** There are calls that answer true despite an error exactly for readers that skip comments. */
  lemma ErrorsUnnoticedWithComments(flags: Flags)
    ensures flags.comments <==> exists s, src, p: nat, stack, evs :: AnswersDespiteError(flags, s, src, p, stack, evs)
  {
    if flags.comments {
      CommentErrorUnnoticed(flags);
      assert AnswersDespiteError(flags, BROKEN, ArrayInitialState, 1, [Frame(StartState, 0)], [StartArray]);
    } else {
      forall s, src, p: nat, stack, evs | p <= |s| && Consistent(src, stack)
        ensures !AnswersDespiteError(flags, s, src, p, stack, evs)
      {
        ErrorsNoticed(flags, s, src, p, stack, evs);
      }
    }
  }

  // ------------------------------------------ which errors go unnoticed

  /** A transition that does not look for an error: to a delimiter, into a container, or out of one. */
  predicate LooksAtNoError(flags: Flags, src: State, c: byte) {
    var n := Predict(src, Tokenize(c));
    || n.ObjectInitialState? || n.ArrayInitialState? || IsDelimiterState(n)
    || ((n.ObjectFinishState? || n.ArrayFinishState?)
        && (flags.trailingCommas || !(src.MemberDelimiterState? || src.ElementDelimiterState?)))
  }

  predicate ClosesAt(src: State, c: byte) {
    var n := Predict(src, Tokenize(c));
    n.ObjectFinishState? || n.ArrayFinishState?
  }

  /** Only blanks and whole comments follow, if they are looked at. */
  predicate EndsClean(flags: Flags, s: Text, p: nat)
    requires p <= |s|
  {
    flags.stopWhenDone
    || var skip := SkipWhitespaceAndComments(flags, s, p, []);
       skip.Ok? && Peek(s, skip.pos) == NUL
  }

  /** Only blanks and comments follow, the last one broken at the end of the text, and they are looked at. */
  predicate EndsBroken(flags: Flags, s: Text, p: nat)
    requires p <= |s|
  {
    !flags.stopWhenDone
    && var skip := SkipWhitespaceAndComments(flags, s, p, []);
       skip.Fail? && Peek(s, skip.off) == NUL
  }

  /** From a token at p the events of one bracket are delivered, and if it closes the root a clean end follows. */
  predicate BracketGoesOn(flags: Flags, s: Text, src: State, p: nat, depth: nat)
    requires p <= |s|
  {
    && LooksAtNoError(flags, src, Peek(s, p)) && !IsDelimiterState(Predict(src, Tokenize(Peek(s, p))))
    && (depth == 1 && ClosesAt(src, Peek(s, p)) ==> EndsClean(flags, s, p + 1))
  }

  /** The token at p is such a bracket, or a delimiter with one behind it. */
  predicate GoesOn(flags: Flags, s: Text, src: State, p: nat, depth: nat)
    requires p <= |s|
  {
    var n := Predict(src, Tokenize(Peek(s, p)));
    if IsDelimiterState(n) then
      Peek(s, p + 1) != NUL
      && var skip := SkipWhitespaceAndComments(flags, s, p + 1, []);
         skip.Ok? && BracketGoesOn(flags, s, n, skip.pos, depth)
    else BracketGoesOn(flags, s, src, p, depth)
  }

  /** The token at p completes the root, and a comment behind it is broken at the end of the text. */
  ghost predicate RootEndsBroken(flags: Flags, s: Text, src: State, p: nat, stack: seq<Frame>, evs: seq<Event>)
    requires p <= |s| && Consistent(src, stack)
  {
    var step := Next(flags, s, src, p, stack, evs);
    step.Go? && step.state.FinishState? && EndsBroken(flags, s, step.pos)
  }

  /** A comment is broken before the next token or behind the root it completes, and goes unnoticed. */
  ghost predicate PassesBroken(flags: Flags, s: Text, src: State, p: nat, stack: seq<Frame>, evs: seq<Event>)
    requires p <= |s| && Consistent(src, stack)
  {
    && Peek(s, p) != NUL
    && var skip := SkipWhitespaceAndComments(flags, s, p, []);
       if skip.Fail? then GoesOn(flags, s, src, skip.off, |stack|)
       else RootEndsBroken(flags, s, src, skip.pos, stack, evs)
  }

  /** The next token is a delimiter, and a broken comment goes unnoticed behind it. */
  ghost predicate DelimiterPassesBroken(flags: Flags, s: Text, src: State, p: nat, stack: seq<Frame>, evs: seq<Event>)
    requires p <= |s| && Consistent(src, stack)
  {
    && Peek(s, p) != NUL
    && var skip := SkipWhitespaceAndComments(flags, s, p, []);
       && skip.Ok? && IsDelimiterState(Predict(src, Tokenize(Peek(s, skip.pos))))
       && var step := Next(flags, s, src, skip.pos, stack, evs);
          step.Go? && PassesBroken(flags, s, step.state, step.pos, step.stack, step.evs)
  }

  lemma {:induction false} SkipBlockSame(s: Text, p: nat, evs: seq<Event>)
    requires p <= |s|
    ensures SkipBlockComment(s, p, evs) == SkipBlockComment(s, p, []).(evs := evs)
    decreases |s| - p
  {
    if Peek(s, p) != NUL && !(Peek(s, p) == STAR && Peek(s, p + 1) == SLASH) {
      SkipBlockSame(s, p + 1, evs);
    }
  }

  lemma {:induction false} SkipCommentsSame(s: Text, p: nat, evs: seq<Event>)
    requires p <= |s|
    ensures SkipComments(s, p, evs) == SkipComments(s, p, []).(evs := evs)
    decreases |s| - p
  {
    hide SkipBlockComment, SkipWhitespace, SkipLineComment;
    if Peek(s, p) == SLASH && Peek(s, p + 1) == STAR {
      SkipBlockSame(s, p + 2, evs);
      var block := SkipBlockComment(s, p + 2, []);
      if block.Ok? {
        SkipCommentsSame(s, SkipWhitespace(s, block.pos), evs);
      }
    } else if Peek(s, p) == SLASH && Peek(s, p + 1) == SLASH {
      SkipCommentsSame(s, SkipWhitespace(s, SkipLineComment(s, p + 2)), evs);
    }
  }

  /** Where skipping ends does not depend on the events delivered before. */
  lemma SkipSame(flags: Flags, s: Text, p: nat, evs: seq<Event>)
    requires p <= |s|
    ensures SkipWhitespaceAndComments(flags, s, p, evs) == SkipWhitespaceAndComments(flags, s, p, []).(evs := evs)
  {
    SkipCommentsSame(s, SkipWhitespace(s, p), evs);
  }

  /** With an error flagged a transition moves on exactly if it does not look for an error, and then by one unit. */
  lemma FlaggedMoves(flags: Flags, s: Text, src: State, p: nat, stack: seq<Frame>, evs: seq<Event>)
    requires p <= |s| && Consistent(src, stack)
    ensures var c, n := Peek(s, p), Predict(src, Tokenize(Peek(s, p)));
            var r := FlaggedTransit(flags, s, src, n, p, stack, evs);
            && (r.Moves? <==> LooksAtNoError(flags, src, c))
            && (r.Moves? ==> r.pos == p + 1 && (r.state.FinishState? <==> |stack| == 1 && ClosesAt(src, c)))
            && (IsDelimiterState(n) ==> r.Moves? && r.state == n && |r.stack| == |stack|)
  {
    hide ParseValue, ParseString, FlaggedScalar, Close, Consistent;
    var n := Predict(src, Tokenize(Peek(s, p)));
    if Peek(s, p) != LBRACE && Peek(s, p) != LBRACKET {
      FlaggedEmits(flags, s, p, evs);
    }
    InsideHasFrame(src, stack);
    if ClosesAt(src, Peek(s, p)) {
      CloseMoves(flags, src, n, p, stack, evs);
    }
  }

  lemma InsideHasFrame(src: State, stack: seq<Frame>)
    requires Consistent(src, stack)
    ensures src.FinishState? || src.StartState? || |stack| > 0
  {
  }

  lemma CloseMoves(flags: Flags, src: State, dst: State, p: nat, stack: seq<Frame>, evs: seq<Event>)
    requires Consistent(src, stack) && (dst.ObjectFinishState? || dst.ArrayFinishState?)
    requires !(src.FinishState? || src.StartState?)
    ensures var r := Close(flags, src, dst, p, stack, evs);
            && (r.Go? <==> flags.trailingCommas || !(src.MemberDelimiterState? || src.ElementDelimiterState?))
            && (r.Go? ==> r.pos == p + 1 && (r.state.FinishState? <==> |stack| == 1))
  {
  }

  /** A call answers true. */
  predicate Answers(c: Call) {
    c.Call? && c.more
  }

  lemma BracketAnswers(flags: Flags, s: Text, src: State, p: nat, stack: seq<Frame>, evs: seq<Event>)
    requires p <= |s| && Consistent(src, stack) && !IsDelimiterState(Predict(src, Tokenize(Peek(s, p))))
    ensures Answers(AtToken(flags, s, src, p, stack, evs, true)) <==> BracketGoesOn(flags, s, src, p, |stack|)
  {
    hide FlaggedTransit, LooksAtNoError, ClosesAt, Predict, Tokenize, SkipWhitespaceAndComments, Consistent;
    FlaggedMoves(flags, s, src, p, stack, evs);
    var step := FlaggedTransit(flags, s, src, Predict(src, Tokenize(Peek(s, p))), p, stack, evs);
    if step.Moves? {
      SkipSame(flags, s, step.pos, step.evs);
    }
  }

  lemma TwoDelimiters(src: State, c: byte, d: byte)
    requires IsDelimiterState(Predict(src, Tokenize(c)))
    ensures !IsDelimiterState(Predict(Predict(src, Tokenize(c)), Tokenize(d)))
  {
  }

  /** With an error flagged a call goes on from a token exactly if that is said of it. */
  lemma GoesOnAnswers(flags: Flags, s: Text, src: State, p: nat, stack: seq<Frame>, evs: seq<Event>)
    requires p <= |s| && Consistent(src, stack)
    ensures Answers(AtToken(flags, s, src, p, stack, evs, true)) <==> GoesOn(flags, s, src, p, |stack|)
  {
    hide FlaggedTransit, LooksAtNoError, ClosesAt, Predict, Tokenize, SkipWhitespaceAndComments, Consistent,
         BracketGoesOn;
    var n := Predict(src, Tokenize(Peek(s, p)));
    if IsDelimiterState(n) {
      FlaggedMoves(flags, s, src, p, stack, evs);
      var step := FlaggedTransit(flags, s, src, n, p, stack, evs);
      SkipSame(flags, s, step.pos, step.evs);
      var skip := SkipWhitespaceAndComments(flags, s, step.pos, []);
      if skip.Ok? {
        TwoDelimiters(src, Peek(s, p), Peek(s, skip.pos));
        BracketAnswers(flags, s, n, skip.pos, step.stack, step.evs);
      }
    } else {
      BracketAnswers(flags, s, src, p, stack, evs);
    }
  }

  /** Which errors go unnoticed if the next token is not a delimiter. */
  lemma UnnoticedAtToken(flags: Flags, s: Text, src: State, p: nat, stack: seq<Frame>, evs: seq<Event>)
    requires p <= |s| && Consistent(src, stack)
    requires var skip := SkipWhitespaceAndComments(flags, s, p, []);
             skip.Ok? ==> !IsDelimiterState(Predict(src, Tokenize(Peek(s, skip.pos))))
    ensures AnswersDespiteError(flags, s, src, p, stack, evs) <==> PassesBroken(flags, s, src, p, stack, evs)
  {
    hide Transit, FlaggedTransit, Predict, Tokenize, SkipWhitespaceAndComments, Consistent, GoesOn;
    SkipSame(flags, s, p, evs);
    var skip := SkipWhitespaceAndComments(flags, s, p, evs);
    if skip.Fail? {
      GoesOnAnswers(flags, s, src, skip.off, stack, evs);
      FlagStays(flags, s, src, skip.off, stack, evs);
    } else if Peek(s, p) != NUL {
      assert NextCall(flags, s, src, p, stack, evs, false) == AtToken(flags, s, src, skip.pos, stack, evs, false);
      var step := Next(flags, s, src, skip.pos, stack, evs);
      if step.Go? {
        SkipSame(flags, s, step.pos, step.evs);
      }
    }
  }

  /**
   * A call answers true despite an error exactly if a comment is broken where only a bracket or a delimiter is looked
   * at next, or behind the root at the end of the text, be it at once or behind the one delimiter a call may pass.
   */
  lemma UnnoticedErrors(flags: Flags, s: Text, src: State, p: nat, stack: seq<Frame>, evs: seq<Event>)
    requires p <= |s| && Consistent(src, stack)
    ensures AnswersDespiteError(flags, s, src, p, stack, evs) <==>
            PassesBroken(flags, s, src, p, stack, evs) || DelimiterPassesBroken(flags, s, src, p, stack, evs)
  {
    hide Transit, FlaggedTransit, Predict, Tokenize, SkipWhitespaceAndComments, Consistent, GoesOn;
    SkipSame(flags, s, p, evs);
    var skip := SkipWhitespaceAndComments(flags, s, p, []);
    if Peek(s, p) != NUL && skip.Ok? && IsDelimiterState(Predict(src, Tokenize(Peek(s, skip.pos)))) {
      var step := Next(flags, s, src, skip.pos, stack, evs);
      TransitEmits(flags, s, src, skip.pos, stack, evs);
      assert NextCall(flags, s, src, p, stack, evs, false) == AtToken(flags, s, src, skip.pos, stack, evs, false);
      if step.Go? {
        var after := SkipWhitespaceAndComments(flags, s, step.pos, []);
        if after.Ok? {
          TwoDelimiters(src, Peek(s, skip.pos), Peek(s, after.pos));
        }
        UnnoticedAtToken(flags, s, step.state, step.pos, step.stack, step.evs);
      }
    } else if Peek(s, p) != NUL {
      UnnoticedAtToken(flags, s, src, p, stack, evs);
    }
  }
}

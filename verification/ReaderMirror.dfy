/** What the automaton's stack means: it mirrors the containers the delivered events have left open. */
module ReaderMirror {
  import opened Bytes
  import opened Events
  import opened Scanning
  import opened Reading
  import opened ReaderEquivalence

  /** An open container: its kind and how many values have been completed in it. */
  datatype Bracket = Bracket(isObject: bool, done: nat)

  /** One more value completed in the innermost container. */
  function Complete(open: seq<Bracket>): seq<Bracket> {
    if |open| == 0 then []
    else
      var top := open[|open| - 1];
      open[..|open| - 1] + [Bracket(top.isObject, top.done + 1)]
  }

  function Apply(open: seq<Bracket>, e: Event): seq<Bracket> {
    match e
    case StartObject => open + [Bracket(true, 0)]
    case StartArray => open + [Bracket(false, 0)]
    case EndObject(_) => if |open| == 0 then [] else Complete(open[..|open| - 1])
    case EndArray(_) => if |open| == 0 then [] else Complete(open[..|open| - 1])
    case KeyEvent(_) => open
    case _ => Complete(open)
  }

  /** The containers a sequence of events leaves open. */
  function OpenBrackets(evs: seq<Event>): seq<Bracket> {
    if |evs| == 0 then [] else Apply(OpenBrackets(evs[..|evs| - 1]), evs[|evs| - 1])
  }

  lemma OpenBracketsStep(evs: seq<Event>, e: Event)
    ensures OpenBrackets(evs + [e]) == Apply(OpenBrackets(evs), e)
  {
    assert (evs + [e])[..|evs|] == evs;
  }

  predicate InObject(state: State) {
    (state.ObjectInitialState? || state.MemberKeyState? || state.MemberValueState? || state.MemberDelimiterState? || state.KeyValueDelimiterState?)
  }

  predicate AfterItem(state: State) {
    (state.MemberValueState? || state.ElementState?)
  }

  /**
   * Below the innermost container: a frame counts the items completed before the one still open, modulo
   * 2^32, and saves the state its parent container needs afterwards.
   */
  ghost predicate MirrorsBelow(stack: seq<Frame>, open: seq<Bracket>) {
    && |stack| == |open|
    && (forall i | 0 < i < |stack| ::
          stack[i].state == if open[i - 1].isObject then MemberValueState else ElementState)
    && (forall i | 0 <= i < |stack| - 1 :: stack[i].count == open[i].done % TWO_32)
  }

  /** The innermost frame leaves out the last item until a comma or the end counts it. */
  predicate MirrorsTop(state: State, frame: Frame, bracket: Bracket) {
    && bracket.isObject == InObject(state)
    && (if AfterItem(state) then Inc(frame.count) else frame.count) == bracket.done % TWO_32
  }

  ghost predicate Mirrors(state: State, stack: seq<Frame>, open: seq<Bracket>) {
    && Consistent(state, stack)
    && MirrorsBelow(stack, open)
    && (|stack| > 0 ==> MirrorsTop(state, stack[|stack| - 1], open[|open| - 1]))
  }

  /** Events that stand for a whole value. */
  predicate IsScalarEvent(e: Event) {
    !e.StartObject? && !e.EndObject? && !e.StartArray? && !e.EndArray? && !e.KeyEvent?
  }

  lemma ScalarEmitsOne(flags: Flags, s: Text, p: nat, evs: seq<Event>)
    requires p <= |s| && (Peek(s, p) != LBRACE && Peek(s, p) != LBRACKET)
    ensures var r := ParseValue(flags, s, p, evs);
            r.Ok? ==> exists e :: IsScalarEvent(e) && r.evs == evs + [e]
    ensures ParseValue(flags, s, p, evs).Fail? ==> ParseValue(flags, s, p, evs).evs == evs
  {
    hide ScanString, ScanInt, ScanFraction, ScanExponent;
    var r := ParseValue(flags, s, p, evs);
    if r.Ok? {
      assert r.evs == evs + [r.evs[|r.evs| - 1]];
      assert IsScalarEvent(r.evs[|r.evs| - 1]);
    }
  }

  predicate IsDelimiterState(s: State) {
    (s.ElementDelimiterState? || s.MemberDelimiterState? || s.KeyValueDelimiterState?)
  }

  lemma NameEmitsOne(s: Text, p: nat, evs: seq<Event>)
    requires p < |s|
    ensures var r := ParseString(s, p, true, evs);
            if r.Ok? then evs < r.evs && |r.evs| == |evs| + 1 && r.evs[|evs|].KeyEvent? else r.evs == evs
  {
    hide ScanString;
  }

  /** A transition to a delimiter delivers nothing, every other one exactly one event, a failing one none. */
  lemma TransitEmits(flags: Flags, s: Text, src: State, p: nat, stack: seq<Frame>, evs: seq<Event>)
    requires p <= |s| && Consistent(src, stack)
    ensures var r := Next(flags, s, src, p, stack, evs);
            if r.Halt? || IsDelimiterState(Predict(src, Tokenize(Peek(s, p)))) then r.evs == evs
            else evs < r.evs && |r.evs| == |evs| + 1
    ensures var r := Next(flags, s, src, p, stack, evs);
            r.Go? && IsDelimiterState(Predict(src, Tokenize(Peek(s, p)))) ==> r.state == Predict(src, Tokenize(Peek(s, p)))
  {
    hide ParseValue, ParseString, Consistent;
    var dst := Predict(src, Tokenize(Peek(s, p)));
    if dst.ElementState? || dst.MemberValueState? || dst.ValueState? {
      ScalarEmitsOne(flags, s, p, evs);
    } else if dst.MemberKeyState? {
      NameEmitsOne(s, p, evs);
    }
  }

  lemma CompleteKeepsBelow(stack: seq<Frame>, open: seq<Bracket>)
    requires MirrorsBelow(stack, open)
    ensures MirrorsBelow(stack, Complete(open))
  {
    var done := Complete(open);
    assert forall i | 0 <= i < |open| - 1 :: done[i] == open[i];
  }

  lemma ItemKeepsMirror(src: State, stack: seq<Frame>, open: seq<Bracket>, after: State)
    requires Mirrors(src, stack, open) && Consistent(after, stack)
    requires |stack| > 0 ==> (src.ArrayInitialState? || src.ElementDelimiterState? || src.KeyValueDelimiterState?)
    requires |stack| > 0 ==> after == AfterValue(src)
    ensures Mirrors(after, stack, Complete(open))
  {
    CompleteKeepsBelow(stack, open);
    hide Consistent, MirrorsBelow;
  }

  lemma OpenKeepsMirror(src: State, dst: State, stack: seq<Frame>, open: seq<Bracket>)
    requires Mirrors(src, stack, open) && ExpectsValue(src)
    requires dst.ObjectInitialState? || dst.ArrayInitialState?
    requires Consistent(dst, stack + [Frame(SavedState(src), 0)])
    ensures Mirrors(dst, stack + [Frame(SavedState(src), 0)], open + [Bracket(dst.ObjectInitialState?, 0)])
  {
    assert |stack| == 0 <==> src.StartState?;
    hide Consistent;
  }

  lemma CommaKeepsMirror(src: State, dst: State, stack: seq<Frame>, open: seq<Bracket>)
    requires Mirrors(src, stack, open) && |stack| > 0
    requires (src.MemberValueState? && dst.MemberDelimiterState?) || (src.ElementState? && dst.ElementDelimiterState?)
    requires var n := |stack| - 1;
             Consistent(dst, stack[..n] + [Frame(stack[n].state, Inc(stack[n].count))])
    ensures var n := |stack| - 1;
            Mirrors(dst, stack[..n] + [Frame(stack[n].state, Inc(stack[n].count))], open)
  {
    hide Consistent;
  }

  lemma PopKeepsBelow(stack: seq<Frame>, open: seq<Bracket>)
    requires MirrorsBelow(stack, open) && |stack| > 0
    ensures var n := |stack| - 1;
            |open| == |stack| && MirrorsBelow(stack[..n], open[..n])
            && (n > 0 ==> stack[n].state == (if open[n - 1].isObject then MemberValueState else ElementState)
                          && stack[n - 1].count == open[n - 1].done % TWO_32)
  {
  }

  lemma IncCounts(done: nat)
    ensures Inc(done % TWO_32) == (done + 1) % TWO_32
  {
  }

  lemma CloseKeepsMirror(src: State, stack: seq<Frame>, open: seq<Bracket>)
    requires Mirrors(src, stack, open) && |stack| > 0
    requires Consistent(Restored(stack[|stack| - 1]), stack[..|stack| - 1])
    ensures |open| == |stack|
    ensures Mirrors(Restored(stack[|stack| - 1]), stack[..|stack| - 1], Complete(open[..|open| - 1]))
  {
    hide MirrorsBelow, Inc;
    var n := |stack| - 1;
    assert n > 0 ==> !stack[n].state.StartState?;
    PopKeepsBelow(stack, open);
    CompleteKeepsBelow(stack[..n], open[..n]);
    if n > 0 {
      hide Consistent;
      IncCounts(open[n - 1].done);
    }
  }

  /** After every transition the stack mirrors the containers that the delivered events have left open. */
  lemma NextKeepsMirror(flags: Flags, s: Text, src: State, p: nat, stack: seq<Frame>, evs: seq<Event>)
    requires p <= |s| && Mirrors(src, stack, OpenBrackets(evs))
    ensures var r := Next(flags, s, src, p, stack, evs);
            r.Go? ==> Mirrors(r.state, r.stack, OpenBrackets(r.evs))
  {
    hide MirrorsBelow, MirrorsTop, OpenBrackets, Complete, ParseValue, ParseString;
    var dst := Predict(src, Tokenize(Peek(s, p)));
    var r := Next(flags, s, src, p, stack, evs);
    var open := OpenBrackets(evs);
    if r.Go? {
      TransitEmits(flags, s, src, p, stack, evs);
      if IsDelimiterState(dst) {
        if !dst.KeyValueDelimiterState? {
          CommaKeepsMirror(src, dst, stack, open);
        } else {
          ColonKeepsMirror(stack, open);
        }
      } else {
        var e := r.evs[|evs|];
        assert r.evs == evs + [e];
        OpenBracketsStep(evs, e);
        if dst.ObjectInitialState? || dst.ArrayInitialState? {
          OpenKeepsMirror(src, dst, stack, open);
        } else if dst.ObjectFinishState? || dst.ArrayFinishState? {
          CloseKeepsMirror(src, stack, open);
        } else if dst.MemberKeyState? {
          NameEmitsOne(s, p, evs);
          KeyKeepsMirror(src, stack, open);
        } else {
          ScalarEmitsOne(flags, s, p, evs);
          ItemKeepsMirror(src, stack, open, r.state);
        }
      }
    }
  }

  /** One round of the automaton: blanks, a token and its transition; none at the end of the text or of a root. */
  function Round(flags: Flags, s: Text, at: Step): (r: Step)
    requires at.Go? ==> at.pos <= |s| && Consistent(at.state, at.stack)
    ensures r.Go? ==> r.pos <= |s| && Consistent(r.state, r.stack)
  {
    match at
    case Halt(_, _, _) => at
    case Go(state, p, stack, evs) =>
      if flags.stopWhenDone && state.FinishState? then Halt(StateError(state), p, evs)
      else
        match SkipWhitespaceAndComments(flags, s, p, evs)
        case Fail(code, off, e) => Halt(code, off, e)
        case Ok(q, e) => if Peek(s, q) == NUL then Halt(StateError(state), q, e) else Next(flags, s, state, q, stack, e)
  }

  /** Where the automaton stands after n rounds over a whole text, if it gets so far. */
  function Reached(flags: Flags, s: Text, n: nat): (r: Step)
    ensures r.Go? ==> r.pos <= |s| && Consistent(r.state, r.stack)
    decreases n
  {
    if n == 0 then Go(StartState, 0, [], []) else Round(flags, s, Reached(flags, s, n - 1))
  }

  /**
   * In a whole run: after every round the stack mirrors the containers that the events delivered so far have left open,
   * and going on from there is parsing the text.
   */
  lemma {:induction false} RunMirrors(flags: Flags, s: Text, n: nat)
    ensures var c := Reached(flags, s, n);
            c.Go? ==> Mirrors(c.state, c.stack, OpenBrackets(c.evs))
                      && Resume(flags, s, c.state, c.pos, c.stack, c.evs) == IterativeParse(flags, s)
    decreases n
  {
    hide MirrorsBelow, MirrorsTop, OpenBrackets, Transit, SkipWhitespaceAndComments, Consistent;
    if n == 0 {
      NothingOpen();
    } else {
      RunMirrors(flags, s, n - 1);
      var before := Reached(flags, s, n - 1);
      if before.Go? {
        var skip := SkipWhitespaceAndComments(flags, s, before.pos, before.evs);
        if skip.Ok? {
          NextKeepsMirror(flags, s, before.state, skip.pos, before.stack, before.evs);
        }
      }
    }
  }

  lemma NothingOpen()
    ensures Mirrors(StartState, [], OpenBrackets([]))
  {
  }

  lemma ColonKeepsMirror(stack: seq<Frame>, open: seq<Bracket>)
    requires Mirrors(MemberKeyState, stack, open)
    ensures Mirrors(KeyValueDelimiterState, stack, open)
  {
  }

  lemma KeyKeepsMirror(src: State, stack: seq<Frame>, open: seq<Bracket>)
    requires Mirrors(src, stack, open) && (src.ObjectInitialState? || src.MemberDelimiterState?)
    ensures Mirrors(MemberKeyState, stack, open)
  {
  }
}

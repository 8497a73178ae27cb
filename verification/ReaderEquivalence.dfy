/** The automaton and the recursive parser end every text in the same way. */
module ReaderEquivalence {
  import opened Bytes
  import opened Events
  import opened Scanning
  import opened Reading

  /** Units that no value starts with but that the automaton knows as tokens of their own. */
  predicate IsDelimiter(c: byte) {
    c == COMMA || c == COLON || c == RBRACKET || c == RBRACE
  }

  function Pop(stack: seq<Frame>): seq<Frame>
    requires |stack| > 0
  {
    stack[..|stack| - 1]
  }

  function Top(stack: seq<Frame>): Frame
    requires |stack| > 0
  {
    stack[|stack| - 1]
  }

  /** How the automaton goes on when the container or value below it ended with r. */
  function Continue(flags: Flags, s: Text, state: State, stack: seq<Frame>, r: Outcome): Outcome
    requires Consistent(state, stack)
    requires r.Ok? ==> r.pos <= |s|
  {
    match r
    case Ok(q, e) => Resume(flags, s, state, q, stack, e)
    case Fail(_, _, _) => r
  }

  // ---------------------------------------------------- single transitions

  lemma RunsOpening(flags: Flags, s: Text, src: State, p: nat, stack: seq<Frame>, evs: seq<Event>)
    requires p < |s| && Consistent(src, stack) && ExpectsValue(src) && (s[p] == LBRACE || s[p] == LBRACKET)
    ensures var inner := stack + [Frame(SavedState(src), 0)];
            var d := if s[p] == LBRACE then ObjectInitialState else ArrayInitialState;
            var e := evs + [if s[p] == LBRACE then StartObject else StartArray];
            Consistent(d, inner) && Run(flags, s, src, p, stack, evs) == Resume(flags, s, d, p + 1, inner, e)
  {
    hide ParseValue, ParseString;
  }

  lemma RunsComma(flags: Flags, s: Text, src: State, p: nat, stack: seq<Frame>, evs: seq<Event>)
    requires p < |s| && Consistent(src, stack) && (src.MemberValueState? || src.ElementState?) && s[p] == COMMA
    ensures var counted := Pop(stack) + [Frame(Top(stack).state, Inc(Top(stack).count))];
            var d := if src.MemberValueState? then MemberDelimiterState else ElementDelimiterState;
            Consistent(d, counted) && Run(flags, s, src, p, stack, evs) == Resume(flags, s, d, p + 1, counted, evs)
  {
    hide ParseValue, ParseString;
  }

  lemma RunsObjectClosing(flags: Flags, s: Text, src: State, p: nat, stack: seq<Frame>, evs: seq<Event>)
    requires p < |s| && Consistent(src, stack) && s[p] == RBRACE
    requires (src.ObjectInitialState? || src.MemberValueState?) || (src.MemberDelimiterState? && flags.trailingCommas)
    ensures var count := if src.MemberValueState? then Inc(Top(stack).count) else Top(stack).count;
            Consistent(Restored(Top(stack)), Pop(stack))
            && Run(flags, s, src, p, stack, evs)
            == Resume(flags, s, Restored(Top(stack)), p + 1, Pop(stack), evs + [EndObject(count)])
  {
    hide ParseValue, ParseString;
  }

  lemma RunsArrayClosing(flags: Flags, s: Text, src: State, p: nat, stack: seq<Frame>, evs: seq<Event>)
    requires p < |s| && Consistent(src, stack) && s[p] == RBRACKET
    requires (src.ArrayInitialState? || src.ElementState?) || (src.ElementDelimiterState? && flags.trailingCommas)
    ensures var count := if src.ElementState? then Inc(Top(stack).count) else Top(stack).count;
            Consistent(Restored(Top(stack)), Pop(stack))
            && Run(flags, s, src, p, stack, evs)
            == Resume(flags, s, Restored(Top(stack)), p + 1, Pop(stack), evs + [EndArray(count)])
  {
    hide ParseValue, ParseString;
  }

  lemma RunsKey(flags: Flags, s: Text, src: State, p: nat, stack: seq<Frame>, evs: seq<Event>)
    requires p < |s| && Consistent(src, stack) && (src.ObjectInitialState? || src.MemberDelimiterState?) && s[p] == QUOTE
    ensures Consistent(MemberKeyState, stack)
            && Run(flags, s, src, p, stack, evs)
            == Continue(flags, s, MemberKeyState, stack, ParseString(s, p, true, evs))
  {
  }

  lemma RunsColon(flags: Flags, s: Text, p: nat, stack: seq<Frame>, evs: seq<Event>)
    requires p < |s| && Consistent(MemberKeyState, stack) && s[p] == COLON
    ensures Run(flags, s, MemberKeyState, p, stack, evs)
         == Resume(flags, s, KeyValueDelimiterState, p + 1, stack, evs)
  {
    hide ParseValue, ParseString;
  }

  /** A state that waits for one particular unit fails at any other, in its own name. */
  lemma RunsStuck(flags: Flags, s: Text, src: State, p: nat, stack: seq<Frame>, evs: seq<Event>)
    requires p <= |s| && Consistent(src, stack)
    requires match src
             case ObjectInitialState => (Peek(s, p) != QUOTE && Peek(s, p) != RBRACE)
             case MemberDelimiterState => Peek(s, p) != QUOTE && (flags.trailingCommas ==> Peek(s, p) != RBRACE)
             case MemberKeyState => Peek(s, p) != COLON
             case MemberValueState => (Peek(s, p) != COMMA && Peek(s, p) != RBRACE)
             case ElementState => (Peek(s, p) != COMMA && Peek(s, p) != RBRACKET)
             case _ => false
    ensures Run(flags, s, src, p, stack, evs) == Fail(StateError(src), p, evs)
  {
    hide ParseValue, ParseString;
  }

  /** The recursive parser takes a delimiter for a number and fails on the spot. */
  lemma DelimiterIsNoValue(flags: Flags, s: Text, p: nat, evs: seq<Event>)
    requires p <= |s| && (IsDelimiter(Peek(s, p)) || Peek(s, p) == NUL)
    ensures ParseValue(flags, s, p, evs) == Fail(ValueInvalid, p, evs)
  {
  }

  lemma RunsNoValue(flags: Flags, s: Text, src: State, p: nat, stack: seq<Frame>, evs: seq<Event>)
    requires p <= |s| && Consistent(src, stack) && ExpectsValue(src) && !src.StartState?
    requires IsDelimiter(Peek(s, p)) || Peek(s, p) == NUL
    requires src.ArrayInitialState? || (src.ElementDelimiterState? && flags.trailingCommas) ==> Peek(s, p) != RBRACKET
    ensures Run(flags, s, src, p, stack, evs) == Fail(ValueInvalid, p, evs) == ParseValue(flags, s, p, evs)
  {
  }

  lemma RunsScalar(flags: Flags, s: Text, src: State, p: nat, stack: seq<Frame>, evs: seq<Event>)
    requires p < |s| && Consistent(src, stack) && ExpectsValue(src)
    requires s[p] != NUL && !IsDelimiter(s[p]) && (s[p] != LBRACE && s[p] != LBRACKET)
    ensures Consistent(AfterValue(src), stack)
    ensures Run(flags, s, src, p, stack, evs)
         == Continue(flags, s, AfterValue(src), stack, ParseValue(flags, s, p, evs))
  {
    assert IsScalarToken(Tokenize(s[p]));
  }

  lemma HaltsAtEnd(flags: Flags, s: Text, src: State, p: nat, stack: seq<Frame>, evs: seq<Event>)
    requires p <= |s| && Consistent(src, stack) && Peek(s, p) == NUL
    ensures Next(flags, s, src, p, stack, evs).Halt?
  {
  }

  // --------------------------------------------------- whole values

  /**
   * Where a value is expected, running the automaton is parsing that value recursively and then
   * resuming in the state after it.
   */
  lemma {:induction false} RunValue(flags: Flags, s: Text, src: State, p: nat, stack: seq<Frame>, evs: seq<Event>)
    requires p <= |s| && Consistent(src, stack) && ExpectsValue(src)
    requires src.StartState? ==> Peek(s, p) != NUL && !IsDelimiter(Peek(s, p))
    requires src.ArrayInitialState? || (src.ElementDelimiterState? && flags.trailingCommas) ==> Peek(s, p) != RBRACKET
    ensures Consistent(AfterValue(src), stack)
    ensures Run(flags, s, src, p, stack, evs)
         == Continue(flags, s, AfterValue(src), stack, ParseValue(flags, s, p, evs))
    decreases |s| - p, 2
  {
    hide Run, SkipWhitespaceAndComments, ParseString;
    var c := Peek(s, p);
    if c == NUL || IsDelimiter(c) {
      RunsNoValue(flags, s, src, p, stack, evs);
    } else if c == LBRACE {
      RunObject(flags, s, src, p, stack, evs);
    } else if c == LBRACKET {
      RunArray(flags, s, src, p, stack, evs);
    } else {
      RunsScalar(flags, s, src, p, stack, evs);
    }
  }

  lemma {:induction false} RunObject(flags: Flags, s: Text, src: State, p: nat, stack: seq<Frame>, evs: seq<Event>)
    requires p < |s| && Consistent(src, stack) && ExpectsValue(src) && s[p] == LBRACE
    ensures Run(flags, s, src, p, stack, evs)
         == Continue(flags, s, AfterValue(src), stack, ParseObject(flags, s, p, evs))
    decreases |s| - p, 1
  {
    hide Run, SkipWhitespaceAndComments, ParseString;
    var inner := stack + [Frame(SavedState(src), 0)];
    var e := evs + [StartObject];
    RunsOpening(flags, s, src, p, stack, evs);
    assert Pop(inner) == stack;
    var skip := SkipWhitespaceAndComments(flags, s, p + 1, e);
    if skip.Ok? {
      if Peek(s, skip.pos) == RBRACE {
        RunsObjectClosing(flags, s, ObjectInitialState, skip.pos, inner, e);
      } else {
        RunMembers(flags, s, ObjectInitialState, skip.pos, inner, e);
      }
    }
  }

  /** From the start of a member on, the automaton parses the rest of the object recursively and closes it. */
  lemma {:induction false} RunMembers(flags: Flags, s: Text, src: State, p: nat, stack: seq<Frame>, evs: seq<Event>)
    requires p <= |s| && Consistent(src, stack) && (src.ObjectInitialState? || src.MemberDelimiterState?)
    requires src.ObjectInitialState? || flags.trailingCommas ==> Peek(s, p) != RBRACE
    ensures Consistent(Restored(Top(stack)), Pop(stack))
    ensures Run(flags, s, src, p, stack, evs)
         == Continue(flags, s, Restored(Top(stack)), Pop(stack), ParseMembers(flags, s, p, evs, Top(stack).count))
    decreases |s| - p, 0
  {
    hide Run, SkipWhitespaceAndComments, ParseString;
    if Peek(s, p) == QUOTE {
      var key := ParseString(s, p, true, evs);
      RunsKey(flags, s, src, p, stack, evs);
      if key.Ok? {
        RunMemberValue(flags, s, key.pos, stack, key.evs);
        var v := ParseMemberValue(flags, s, key.pos, key.evs);
        if v.Ok? {
          RunMemberEnd(flags, s, v.pos, stack, v.evs);
        }
      }
    } else {
      RunsStuck(flags, s, src, p, stack, evs);
    }
  }

  lemma {:induction false} RunMemberValue(flags: Flags, s: Text, p: nat, stack: seq<Frame>, evs: seq<Event>)
    requires p <= |s| && Consistent(MemberKeyState, stack)
    ensures Consistent(MemberValueState, stack)
    ensures Resume(flags, s, MemberKeyState, p, stack, evs)
         == Continue(flags, s, MemberValueState, stack, ParseMemberValue(flags, s, p, evs))
    decreases |s| - p, 0
  {
    hide Run, SkipWhitespaceAndComments, ParseString;
    var skip := SkipWhitespaceAndComments(flags, s, p, evs);
    if skip.Ok? {
      if Peek(s, skip.pos) == COLON {
        RunsColon(flags, s, skip.pos, stack, skip.evs);
        var skip2 := SkipWhitespaceAndComments(flags, s, skip.pos + 1, skip.evs);
        if skip2.Ok? {
          RunValue(flags, s, KeyValueDelimiterState, skip2.pos, stack, skip2.evs);
        }
      } else {
        RunsStuck(flags, s, MemberKeyState, skip.pos, stack, skip.evs);
      }
    }
  }

  lemma {:induction false} RunMemberEnd(flags: Flags, s: Text, p: nat, stack: seq<Frame>, evs: seq<Event>)
    requires p <= |s| && Consistent(MemberValueState, stack)
    ensures Consistent(Restored(Top(stack)), Pop(stack))
    ensures Resume(flags, s, MemberValueState, p, stack, evs)
         == Continue(flags, s, Restored(Top(stack)), Pop(stack),
                     ParseMemberEnd(flags, s, p, evs, Inc(Top(stack).count)))
    decreases |s| - p, 0
  {
    hide Run, SkipWhitespaceAndComments, ParseString;
    var skip := SkipWhitespaceAndComments(flags, s, p, evs);
    if skip.Ok? {
      var c := Peek(s, skip.pos);
      if c == COMMA {
        RunsComma(flags, s, MemberValueState, skip.pos, stack, skip.evs);
        var counted := Pop(stack) + [Frame(Top(stack).state, Inc(Top(stack).count))];
        assert Pop(counted) == Pop(stack);
        RunNextMember(flags, s, skip.pos + 1, counted, skip.evs);
      } else if c == RBRACE {
        RunsObjectClosing(flags, s, MemberValueState, skip.pos, stack, skip.evs);
      } else {
        RunsStuck(flags, s, MemberValueState, skip.pos, stack, skip.evs);
      }
    }
  }

  lemma {:induction false} RunNextMember(flags: Flags, s: Text, p: nat, stack: seq<Frame>, evs: seq<Event>)
    requires p <= |s| && Consistent(MemberDelimiterState, stack)
    ensures Consistent(Restored(Top(stack)), Pop(stack))
    ensures Resume(flags, s, MemberDelimiterState, p, stack, evs)
         == Continue(flags, s, Restored(Top(stack)), Pop(stack), ParseNextMember(flags, s, p, evs, Top(stack).count))
    decreases |s| - p, 1
  {
    hide Run, SkipWhitespaceAndComments, ParseString;
    var skip := SkipWhitespaceAndComments(flags, s, p, evs);
    if skip.Ok? {
      if flags.trailingCommas && Peek(s, skip.pos) == RBRACE {
        RunsObjectClosing(flags, s, MemberDelimiterState, skip.pos, stack, skip.evs);
      } else {
        RunMembers(flags, s, MemberDelimiterState, skip.pos, stack, skip.evs);
      }
    }
  }

  lemma {:induction false} RunArray(flags: Flags, s: Text, src: State, p: nat, stack: seq<Frame>, evs: seq<Event>)
    requires p < |s| && Consistent(src, stack) && ExpectsValue(src) && s[p] == LBRACKET
    ensures Run(flags, s, src, p, stack, evs)
         == Continue(flags, s, AfterValue(src), stack, ParseArray(flags, s, p, evs))
    decreases |s| - p, 1
  {
    hide Run, SkipWhitespaceAndComments, ParseString;
    var inner := stack + [Frame(SavedState(src), 0)];
    var e := evs + [StartArray];
    RunsOpening(flags, s, src, p, stack, evs);
    assert Pop(inner) == stack;
    var skip := SkipWhitespaceAndComments(flags, s, p + 1, e);
    if skip.Ok? {
      if Peek(s, skip.pos) == RBRACKET {
        RunsArrayClosing(flags, s, ArrayInitialState, skip.pos, inner, e);
      } else {
        RunElements(flags, s, ArrayInitialState, skip.pos, inner, e);
      }
    }
  }

  /** From the start of an element on, the automaton parses the rest of the array recursively and closes it. */
  lemma {:induction false} RunElements(flags: Flags, s: Text, src: State, p: nat, stack: seq<Frame>, evs: seq<Event>)
    requires p <= |s| && Consistent(src, stack) && (src.ArrayInitialState? || src.ElementDelimiterState?)
    requires src.ArrayInitialState? || flags.trailingCommas ==> Peek(s, p) != RBRACKET
    ensures Consistent(Restored(Top(stack)), Pop(stack))
    ensures Run(flags, s, src, p, stack, evs)
         == Continue(flags, s, Restored(Top(stack)), Pop(stack), ParseElements(flags, s, p, evs, Top(stack).count))
    decreases |s| - p, 3
  {
    hide Run, SkipWhitespaceAndComments, ParseString;
    RunValue(flags, s, src, p, stack, evs);
    var v := ParseValue(flags, s, p, evs);
    if v.Ok? {
      RunElementEnd(flags, s, v.pos, stack, v.evs);
    }
  }

  lemma {:induction false} RunElementEnd(flags: Flags, s: Text, p: nat, stack: seq<Frame>, evs: seq<Event>)
    requires p <= |s| && Consistent(ElementState, stack)
    ensures Consistent(Restored(Top(stack)), Pop(stack))
    ensures Resume(flags, s, ElementState, p, stack, evs)
         == Continue(flags, s, Restored(Top(stack)), Pop(stack),
                     ParseElementEnd(flags, s, p, evs, Inc(Top(stack).count)))
    decreases |s| - p, 0
  {
    hide Run, SkipWhitespaceAndComments, ParseString;
    var skip := SkipWhitespaceAndComments(flags, s, p, evs);
    if skip.Ok? {
      var c := Peek(s, skip.pos);
      if c == COMMA {
        RunsComma(flags, s, ElementState, skip.pos, stack, skip.evs);
        var counted := Pop(stack) + [Frame(Top(stack).state, Inc(Top(stack).count))];
        assert Pop(counted) == Pop(stack);
        RunNextElement(flags, s, skip.pos + 1, counted, skip.evs);
      } else if c == RBRACKET {
        RunsArrayClosing(flags, s, ElementState, skip.pos, stack, skip.evs);
      } else {
        RunsStuck(flags, s, ElementState, skip.pos, stack, skip.evs);
      }
    }
  }

  lemma {:induction false} RunNextElement(flags: Flags, s: Text, p: nat, stack: seq<Frame>, evs: seq<Event>)
    requires p <= |s| && Consistent(ElementDelimiterState, stack)
    ensures Consistent(Restored(Top(stack)), Pop(stack))
    ensures Resume(flags, s, ElementDelimiterState, p, stack, evs)
         == Continue(flags, s, Restored(Top(stack)), Pop(stack), ParseNextElement(flags, s, p, evs, Top(stack).count))
    decreases |s| - p, 4
  {
    hide Run, SkipWhitespaceAndComments, ParseString;
    var skip := SkipWhitespaceAndComments(flags, s, p, evs);
    if skip.Ok? {
      if flags.trailingCommas && Peek(s, skip.pos) == RBRACKET {
        RunsArrayClosing(flags, s, ElementDelimiterState, skip.pos, stack, skip.evs);
      } else {
        RunElements(flags, s, ElementDelimiterState, skip.pos, stack, skip.evs);
      }
    }
  }

  // --------------------------------------------------------- whole texts

  /** The first significant unit of a text is a delimiter. */
  predicate RootIsDelimiter(flags: Flags, s: Text) {
    var skip := SkipWhitespaceAndComments(flags, s, 0, []);
    skip.Ok? && IsDelimiter(Peek(s, skip.pos))
  }

  lemma ResumesAfterRoot(flags: Flags, s: Text, p: nat, evs: seq<Event>)
    requires p <= |s|
    ensures Resume(flags, s, FinishState, p, [], evs) == ParseEnd(flags, s, p, evs)
  {
  }

  /**
   * For every text and every flags: same verdict, same events with the same counts, same end position,
   * same error offset; and the same error code unless the root starts with a delimiter, where the
   * recursive parser says ValueInvalid and the automaton DocumentEmpty.
   */
  lemma ParsersAgree(flags: Flags, s: Text)
    ensures RootIsDelimiter(flags, s) <==> IterativeParse(flags, s) != Parse(flags, s)
    ensures RootIsDelimiter(flags, s) ==>
              var off := SkipWhitespaceAndComments(flags, s, 0, []).pos;
              Parse(flags, s) == Fail(ValueInvalid, off, []) && IterativeParse(flags, s) == Fail(DocumentEmpty, off, [])
  {
    var skip := SkipWhitespaceAndComments(flags, s, 0, []);
    if skip.Ok? {
      var p := skip.pos;
      if Peek(s, p) == NUL {
      } else if IsDelimiter(Peek(s, p)) {
        DelimiterIsNoValue(flags, s, p, []);
      } else {
        RunValue(flags, s, StartState, p, [], []);
        var v := ParseValue(flags, s, p, []);
        if v.Ok? {
          ResumesAfterRoot(flags, s, v.pos, v.evs);
        }
      }
    }
  }

  /** A text of one bracket: the parsers report different codes at the same place. */
  lemma CodesDiffer(flags: Flags)
    ensures Parse(flags, [RBRACKET]) == Fail(ValueInvalid, 0, [])
    ensures IterativeParse(flags, [RBRACKET]) == Fail(DocumentEmpty, 0, [])
  {
    assert SkipWhitespaceAndComments(flags, [RBRACKET], 0, []) == Ok(0, []);
    ParsersAgree(flags, [RBRACKET]);
  }
}

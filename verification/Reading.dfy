/** The two parsers as functions of the text: recursive descent, and the table-driven automaton with its stack. */
module Reading {
  import opened Bytes
  import opened Events
  import opened Scanning

  // ---------------------------------------------------- recursive descent

  function ParseValue(flags: Flags, s: Text, p: nat, evs: seq<Event>): (r: Outcome)
    requires p <= |s|
    ensures r.Ok? ==> p < r.pos <= |s|
    decreases |s| - p, 2
  {
    var c := Peek(s, p);
    if c == LOWER_N then ParseLiteral(s, p, ULL, NullEvent, evs)
    else if c == LOWER_T then ParseLiteral(s, p, RUE, BoolEvent(true), evs)
    else if c == LOWER_F then ParseLiteral(s, p, ALSE, BoolEvent(false), evs)
    else if c == QUOTE then ParseString(s, p, false, evs)
    else if c == LBRACE then ParseObject(flags, s, p, evs)
    else if c == LBRACKET then ParseArray(flags, s, p, evs)
    else ParseNumber(flags, s, p, evs)
  }

  function ParseObject(flags: Flags, s: Text, p: nat, evs: seq<Event>): (r: Outcome)
    requires p < |s|
    ensures r.Ok? ==> p < r.pos <= |s|
    decreases |s| - p, 1
  {
    var (q, e) :- SkipWhitespaceAndComments(flags, s, p + 1, evs + [StartObject]);
    if Peek(s, q) == RBRACE then Ok(q + 1, e + [EndObject(0)])
    else ParseMembers(flags, s, q, e, 0)
  }

  /** Members from p on, count of them already parsed. */
  function ParseMembers(flags: Flags, s: Text, p: nat, evs: seq<Event>, count: nat): (r: Outcome)
    requires p <= |s|
    ensures r.Ok? ==> p < r.pos <= |s|
    decreases |s| - p, 0
  {
    if Peek(s, p) != QUOTE then Fail(ObjectMissName, p, evs)
    else
      var (q, e) :- ParseString(s, p, true, evs);
      var (q, e) :- ParseMemberValue(flags, s, q, e);
      ParseMemberEnd(flags, s, q, e, Inc(count))
  }

  /** The colon and the value of a member whose name has been parsed. */
  function ParseMemberValue(flags: Flags, s: Text, p: nat, evs: seq<Event>): (r: Outcome)
    requires p <= |s|
    ensures r.Ok? ==> p < r.pos <= |s|
    decreases |s| - p, 0
  {
    var (q, e) :- SkipWhitespaceAndComments(flags, s, p, evs);
    if Peek(s, q) != COLON then Fail(ObjectMissColon, q, e)
    else
      var (q, e) :- SkipWhitespaceAndComments(flags, s, q + 1, e);
      ParseValue(flags, s, q, e)
  }

  /** After a member value: the end of the object, or a comma and more; count includes the member. */
  function ParseMemberEnd(flags: Flags, s: Text, p: nat, evs: seq<Event>, count: nat): (r: Outcome)
    requires p <= |s|
    ensures r.Ok? ==> p < r.pos <= |s|
    decreases |s| - p, 0
  {
    var (q, e) :- SkipWhitespaceAndComments(flags, s, p, evs);
    if Peek(s, q) == COMMA then ParseNextMember(flags, s, q + 1, e, count)
    else if Peek(s, q) == RBRACE then Ok(q + 1, e + [EndObject(count)])
    else Fail(ObjectMissCommaOrCurlyBracket, q, e)
  }

  /** After the comma of a member. */
  function ParseNextMember(flags: Flags, s: Text, p: nat, evs: seq<Event>, count: nat): (r: Outcome)
    requires p <= |s|
    ensures r.Ok? ==> p < r.pos <= |s|
    decreases |s| - p, 1
  {
    var (q, e) :- SkipWhitespaceAndComments(flags, s, p, evs);
    if flags.trailingCommas && Peek(s, q) == RBRACE then Ok(q + 1, e + [EndObject(count)])
    else ParseMembers(flags, s, q, e, count)
  }

  function ParseArray(flags: Flags, s: Text, p: nat, evs: seq<Event>): (r: Outcome)
    requires p < |s|
    ensures r.Ok? ==> p < r.pos <= |s|
    decreases |s| - p, 1
  {
    var (q, e) :- SkipWhitespaceAndComments(flags, s, p + 1, evs + [StartArray]);
    if Peek(s, q) == RBRACKET then Ok(q + 1, e + [EndArray(0)])
    else ParseElements(flags, s, q, e, 0)
  }

  /** Elements from p on, count of them already parsed. */
  function ParseElements(flags: Flags, s: Text, p: nat, evs: seq<Event>, count: nat): (r: Outcome)
    requires p <= |s|
    ensures r.Ok? ==> p < r.pos <= |s|
    decreases |s| - p, 3
  {
    var (q, e) :- ParseValue(flags, s, p, evs);
    ParseElementEnd(flags, s, q, e, Inc(count))
  }

  /** After an element: the end of the array, or a comma and more; count includes the element. */
  function ParseElementEnd(flags: Flags, s: Text, p: nat, evs: seq<Event>, count: nat): (r: Outcome)
    requires p <= |s|
    ensures r.Ok? ==> p < r.pos <= |s|
    decreases |s| - p, 0
  {
    var (q, e) :- SkipWhitespaceAndComments(flags, s, p, evs);
    if Peek(s, q) == COMMA then ParseNextElement(flags, s, q + 1, e, count)
    else if Peek(s, q) == RBRACKET then Ok(q + 1, e + [EndArray(count)])
    else Fail(ArrayMissCommaOrSquareBracket, q, e)
  }

  /** After the comma of an element. */
  function ParseNextElement(flags: Flags, s: Text, p: nat, evs: seq<Event>, count: nat): (r: Outcome)
    requires p <= |s|
    ensures r.Ok? ==> p < r.pos <= |s|
    decreases |s| - p, 4
  {
    var (q, e) :- SkipWhitespaceAndComments(flags, s, p, evs);
    if flags.trailingCommas && Peek(s, q) == RBRACKET then Ok(q + 1, e + [EndArray(count)])
    else ParseElements(flags, s, q, e, count)
  }

  /** A whole text by recursive descent. */
  function Parse(flags: Flags, s: Text): (r: Outcome)
    ensures r.Ok? ==> r.pos <= |s|
  {
    var (p, e) :- SkipWhitespaceAndComments(flags, s, 0, []);
    if Peek(s, p) == NUL then Fail(DocumentEmpty, p, e)
    else
      var (p, e) :- ParseValue(flags, s, p, e);
      ParseEnd(flags, s, p, e)
  }

  /** After the root: nothing but blanks may follow, unless parsing stops there. */
  function ParseEnd(flags: Flags, s: Text, p: nat, evs: seq<Event>): (r: Outcome)
    requires p <= |s|
    ensures r.Ok? ==> r.pos <= |s|
  {
    if flags.stopWhenDone then Ok(p, evs)
    else
      var (q, e) :- SkipWhitespaceAndComments(flags, s, p, evs);
      if Peek(s, q) != NUL then Fail(DocumentRootNotSingular, q, e) else Ok(q, e)
  }

  // ------------------------------------------------------------ automaton

  datatype State =
    | FinishState
    | ErrorState
    | StartState
    | ObjectInitialState
    | MemberKeyState
    | MemberValueState
    | ObjectFinishState
    | ArrayInitialState
    | ElementState
    | ArrayFinishState
    | ValueState
    | ElementDelimiterState
    | MemberDelimiterState
    | KeyValueDelimiterState

  datatype Token =
    | LeftBracketToken
    | RightBracketToken
    | LeftCurlyBracketToken
    | RightCurlyBracketToken
    | CommaToken
    | ColonToken
    | StringToken
    | FalseToken
    | TrueToken
    | NullToken
    | NumberToken

  function Tokenize(c: byte): Token {
    if c == QUOTE then StringToken
    else if c == COMMA then CommaToken
    else if c == COLON then ColonToken
    else if c == LBRACKET then LeftBracketToken
    else if c == RBRACKET then RightBracketToken
    else if c == LOWER_F then FalseToken
    else if c == LOWER_N then NullToken
    else if c == LOWER_T then TrueToken
    else if c == LBRACE then LeftCurlyBracketToken
    else if c == RBRACE then RightCurlyBracketToken
    else NumberToken
  }

  predicate IsScalarToken(t: Token) {
    (t.StringToken? || t.FalseToken? || t.TrueToken? || t.NullToken? || t.NumberToken?)
  }

  /** The row of a state that expects a value, which becomes onValue when the value is a scalar. */
  function PredictValue(t: Token, onValue: State): State {
    if t == LeftBracketToken then ArrayInitialState
    else if t == LeftCurlyBracketToken then ObjectInitialState
    else if IsScalarToken(t) then onValue
    else ErrorState
  }

  /** The transition table: current state and one token of lookahead. */
  function Predict(state: State, t: Token): State {
    match state
    case StartState => PredictValue(t, ValueState)
    case ObjectInitialState | MemberDelimiterState =>
      if t == RightCurlyBracketToken then ObjectFinishState
      else if t == StringToken then MemberKeyState
      else ErrorState
    case MemberKeyState => if t == ColonToken then KeyValueDelimiterState else ErrorState
    case MemberValueState =>
      if t == RightCurlyBracketToken then ObjectFinishState
      else if t == CommaToken then MemberDelimiterState
      else ErrorState
    case ArrayInitialState | ElementDelimiterState =>
      if t == RightBracketToken then ArrayFinishState else PredictValue(t, ElementState)
    case ElementState =>
      if t == RightBracketToken then ArrayFinishState
      else if t == CommaToken then ElementDelimiterState
      else ErrorState
    case KeyValueDelimiterState => PredictValue(t, MemberValueState)
    case _ => ErrorState
  }

  /** A saved state and the members or elements counted so far. */
  datatype Frame = Frame(state: State, count: nat)

  /** The state a container returns to when it closes, and the state a scalar leads to. */
  function AfterValue(src: State): State {
    match src
    case ArrayInitialState | ElementDelimiterState => ElementState
    case KeyValueDelimiterState => MemberValueState
    case _ => FinishState
  }

  function SavedState(src: State): State {
    if src.StartState? then StartState else AfterValue(src)
  }

  predicate ExpectsValue(src: State) {
    src.StartState? || src.ArrayInitialState? || src.ElementDelimiterState? || src.KeyValueDelimiterState?
  }

  /** What the automaton is inside of: states with an open container have a frame, only the bottom frame saves Start. */
  ghost predicate Consistent(state: State, stack: seq<Frame>) {
    ((state.FinishState? || state.StartState?) <==> |stack| == 0)
    && !(state.ErrorState? || state.ObjectFinishState? || state.ArrayFinishState? || state.ValueState?)
    && (forall i | 0 <= i < |stack| ::
          if i == 0 then stack[i].state.StartState? else (stack[i].state.ElementState? || stack[i].state.MemberValueState?))
  }

  /** The state after closing the innermost container. */
  function Restored(frame: Frame): State {
    if frame.state.StartState? then FinishState else frame.state
  }

  datatype Step = Go(state: State, pos: nat, stack: seq<Frame>, evs: seq<Event>)
                | Halt(code: ErrorCode, off: nat, evs: seq<Event>)

  /** The error reported for a state that could not go on. */
  function StateError(src: State): ErrorCode {
    match src
    case StartState => DocumentEmpty
    case FinishState => DocumentRootNotSingular
    case ObjectInitialState | MemberDelimiterState => ObjectMissName
    case MemberKeyState => ObjectMissColon
    case MemberValueState => ObjectMissCommaOrCurlyBracket
    case KeyValueDelimiterState | ArrayInitialState | ElementDelimiterState => ValueInvalid
    case _ => ArrayMissCommaOrSquareBracket
  }

  function FromOutcome(r: Outcome, state: State, stack: seq<Frame>): Step {
    match r
    case Ok(q, e) => Go(state, q, stack, e)
    case Fail(code, off, e) => Halt(code, off, e)
  }

  /** Opening a container saves where to go on after it and starts its count. */
  function Open(src: State, dst: State, p: nat, stack: seq<Frame>, evs: seq<Event>): (r: Step)
    requires Consistent(src, stack) && ExpectsValue(src)
    requires (dst.ObjectInitialState? || dst.ArrayInitialState?)
    ensures r.Go? && r.pos == p + 1 && Consistent(r.state, r.stack)
  {
    Go(dst, p + 1, stack + [Frame(SavedState(src), 0)], evs + [if dst.ObjectInitialState? then StartObject else StartArray])
  }

  /** A comma counts the item before it. */
  function Comma(dst: State, p: nat, stack: seq<Frame>, evs: seq<Event>): (r: Step)
    requires Consistent(dst, stack) && (dst.MemberDelimiterState? || dst.ElementDelimiterState?)
    ensures r.Go? && r.pos == p + 1 && Consistent(r.state, r.stack)
  {
    var n := |stack| - 1;
    Go(dst, p + 1, stack[..n] + [Frame(stack[n].state, Inc(stack[n].count))], evs)
  }

  /** Closing a container: a trailing comma needs the flag, and the last item is counted if no comma counted it. */
  function Close(flags: Flags, src: State, dst: State, p: nat, stack: seq<Frame>, evs: seq<Event>): (r: Step)
    requires Consistent(src, stack) && (dst.ObjectFinishState? || dst.ArrayFinishState?)
    requires !(src.FinishState? || src.StartState?)
    ensures r.Go? ==> r.pos == p + 1 && Consistent(r.state, r.stack)
  {
    if !flags.trailingCommas && (src.MemberDelimiterState? || src.ElementDelimiterState?) then
      Halt(if dst.ObjectFinishState? then ObjectMissName else ValueInvalid, p, evs)
    else
      var top := stack[|stack| - 1];
      var count := if (src.MemberValueState? || src.ElementState?) then Inc(top.count) else top.count;
      Go(Restored(top), p + 1, stack[..|stack| - 1],
         evs + [if dst.ObjectFinishState? then EndObject(count) else EndArray(count)])
  }

  /** One transition towards the predicted state dst. */
  function Transit(flags: Flags, s: Text, src: State, dst: State, p: nat, stack: seq<Frame>, evs: seq<Event>): (r: Step)
    requires p <= |s| && Consistent(src, stack) && dst == Predict(src, Tokenize(Peek(s, p)))
    ensures r.Go? ==> p < r.pos <= |s| && Consistent(r.state, r.stack)
  {
    match dst
    case ErrorState => Halt(StateError(src), p, evs)
    case ObjectInitialState | ArrayInitialState => Open(src, dst, p, stack, evs)
    case MemberKeyState => FromOutcome(ParseString(s, p, true, evs), dst, stack)
    case KeyValueDelimiterState => Go(dst, p + 1, stack, evs)
    case MemberValueState | ElementState => FromOutcome(ParseValue(flags, s, p, evs), dst, stack)
    case MemberDelimiterState | ElementDelimiterState => Comma(dst, p, stack, evs)
    case ObjectFinishState | ArrayFinishState => Close(flags, src, dst, p, stack, evs)
    case _ => FromOutcome(ParseValue(flags, s, p, evs), FinishState, stack)
  }

  function Next(flags: Flags, s: Text, src: State, p: nat, stack: seq<Frame>, evs: seq<Event>): (r: Step)
    requires p <= |s| && Consistent(src, stack)
    ensures r.Go? ==> p < r.pos <= |s| && Consistent(r.state, r.stack)
  {
    Transit(flags, s, src, Predict(src, Tokenize(Peek(s, p))), p, stack, evs)
  }

  /** The main loop, entered with blanks already skipped. */
  function Run(flags: Flags, s: Text, state: State, p: nat, stack: seq<Frame>, evs: seq<Event>): (r: Outcome)
    requires p <= |s| && Consistent(state, stack)
    ensures r.Ok? ==> r.pos <= |s|
    decreases |s| - p, 0
  {
    if Peek(s, p) == NUL then
      if state.FinishState? then Ok(p, evs) else Fail(StateError(state), p, evs)
    else
      match Next(flags, s, state, p, stack, evs)
      case Halt(code, off, e) => Fail(code, off, e)
      case Go(d, q, st, e) => Resume(flags, s, d, q, st, e)
  }

  /** The end of one round: stop at a finished root if asked to, else skip blanks and go on. */
  function Resume(flags: Flags, s: Text, state: State, p: nat, stack: seq<Frame>, evs: seq<Event>): (r: Outcome)
    requires p <= |s| && Consistent(state, stack)
    ensures r.Ok? ==> r.pos <= |s|
    decreases |s| - p, 1
  {
    if flags.stopWhenDone && state.FinishState? then Ok(p, evs)
    else
      var (q, e) :- SkipWhitespaceAndComments(flags, s, p, evs);
      Run(flags, s, state, q, stack, e)
  }

  /** A whole text by the automaton. */
  function IterativeParse(flags: Flags, s: Text): (r: Outcome)
    ensures r.Ok? ==> r.pos <= |s|
  {
    var (p, e) :- SkipWhitespaceAndComments(flags, s, 0, []);
    Run(flags, s, StartState, p, [], e)
  }
}

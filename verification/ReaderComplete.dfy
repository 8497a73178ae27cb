/** Every text spelled as the grammar says is read as the events it means, unless a number is too big for a double. */
module ReaderComplete {
  import opened Bytes
  import opened Characters
  import opened Events
  import opened Scanning
  import opened Reading
  import opened Lexemes
  import opened JsonGrammar
  import opened ReaderSound
  import S = StringGrammar

  /** Reading gets to q with evs delivered, or gives up at a number that is too big, if there is one. */
  predicate Reads(fits: bool, r: Outcome, q: nat, evs: seq<Event>) {
    r == Ok(q, evs) || (!fits && r.Fail? && r.code == NumberTooBig)
  }

  // ------------------------------------------------------------ fitting numbers

  /** No number has an exponent above 308 or a double that is too big. */
  predicate Fits(flags: Flags, t: Tree)
    requires Legal(flags, t)
    decreases t, 2
  {
    match t
    case Number(n) => SmallExponent(n) && !flags.tooBig(NumeralText(n))
    case List(elements, _, _) => AllFit(flags, elements)
    case Record(members, _, _) => AllMembersFit(flags, members)
    case _ => true
  }

  predicate AllFit(flags: Flags, elements: seq<Element>)
    requires AllLegal(flags, elements)
    decreases elements, 1
  {
    |elements| > 0 ==> Fits(flags, elements[0].value) && AllFit(flags, elements[1..])
  }

  predicate AllMembersFit(flags: Flags, members: seq<Entry>)
    requires AllMembersLegal(flags, members)
    decreases members, 1
  {
    |members| > 0 ==> Fits(flags, members[0].value) && AllMembersFit(flags, members[1..])
  }

  lemma ElementsFit(flags: Flags, elements: seq<Element>)
    requires AllLegal(flags, elements) && |elements| > 0
    ensures Legal(flags, elements[0].value) && AllLegal(flags, elements[1..])
    ensures AllFit(flags, elements) == (Fits(flags, elements[0].value) && AllFit(flags, elements[1..]))
  {
    hide Legal, Fits;
  }

  lemma MembersFit(flags: Flags, members: seq<Entry>)
    requires AllMembersLegal(flags, members) && |members| > 0
    ensures Legal(flags, members[0].value) && AllMembersLegal(flags, members[1..])
    ensures AllMembersFit(flags, members) == (Fits(flags, members[0].value) && AllMembersFit(flags, members[1..]))
  {
    hide Legal, Fits;
  }

  /** A unit a value may begin with. */
  predicate BeginsValue(c: byte) {
    && c != NUL && !IsBlank(c) && c != Unit('/') && c != Unit(',') && c != Unit(':') && c != Unit(']') && c != Unit('}')
  }

  lemma NumeralFirst(n: Numeral)
    requires LegalNumeral(n)
    ensures |NumeralText(n)| > 0 && (NumeralText(n)[0] == MINUS || IsDigit(NumeralText(n)[0]))
  {
    assert NumeralText(n)[0] == (SignText(n) + n.whole)[0];
  }

  lemma ValueFirst(flags: Flags, t: Tree)
    requires Legal(flags, t)
    ensures |Spelled(flags, t)| > 0 && BeginsValue(Spelled(flags, t)[0])
    ensures Spelled(flags, t)[0] == LBRACKET <==> t.List?
    ensures Spelled(flags, t)[0] == LBRACE <==> t.Record?
  {
    hide ListTail, RecordTail, S.Body, NumeralText, LegalNumeral;
    WordsAre();
    if t.Number? {
      NumeralFirst(t.numeral);
    }
  }

  lemma {:induction false} WordComplete(s: Text, p: nat, first: byte, rest: Text, ev: Event, evs: seq<Event>)
    requires NUL !in rest && At(s, p, [first] + rest)
    ensures p < |s| && s[p] == first && ParseLiteral(s, p, rest, ev, evs) == Ok(p + 1 + |rest|, evs + [ev])
  {
    AtSplit(s, p, [first], rest);
    AtUnit(s, p, [first], 0);
    LiteralMatches(s, p + 1, rest, evs);
  }

  lemma QuotedComplete(s: Text, p: nat, pieces: seq<S.Piece>)
    requires S.AllLegal(pieces) && At(s, p, QuotedText(pieces))
    ensures p < |s| && s[p] == QUOTE
    ensures ScanString(s, p + 1, []) == Scanned(p + |QuotedText(pieces)|, S.Value(pieces))
  {
    hide At, S.Body, S.Value, S.Legal, ScanString;
    var body := S.Body(pieces);
    assert QuotedText(pieces) == [QUOTE] + body + [QUOTE] + [];
    AtPieces(s, p, [QUOTE], body, [QUOTE], []);
    assert [QUOTE] + [] == [QUOTE];
    AtUnit(s, p, [QUOTE], 0);
    AtUnit(s, p + 1 + |body|, [QUOTE], 0);
    S.PiecesScan(s, p + 1, pieces, []);
    assert [] + S.Value(pieces) == S.Value(pieces);
  }

  lemma NumberComplete(flags: Flags, s: Text, p: nat, n: Numeral, evs: seq<Event>)
    requires LegalNumeral(n) && At(s, p, NumeralText(n)) && EndsNumeral(Peek(s, p + |NumeralText(n)|))
    ensures p <= |s| && Reads(SmallExponent(n) && !flags.tooBig(NumeralText(n)), ParseNumber(flags, s, p, evs),
                            p + |NumeralText(n)|, evs + NumeralEvent(n))
  {
    hide ParseNumber, NumberEnd, NumeralText, LegalNumeral, At;
    NumeralPlaces(s, p, n);
    NumberEnds(flags, s, p, evs);
    if ParseNumber(flags, s, p, evs).Ok? {
      NumberEvent(flags, s, p, evs);
    }
    if SmallExponent(n) && !flags.tooBig(NumeralText(n)) {
      NumberFits(flags, s, p, n, evs);
    }
  }

  lemma ScalarComplete(flags: Flags, s: Text, p: nat, t: Tree, evs: seq<Event>)
    requires Legal(flags, t) && At(s, p, Spelled(flags, t)) && !t.List? && !t.Record?
    requires t.Number? ==> EndsNumeral(Peek(s, p + |Spelled(flags, t)|))
    ensures p <= |s| && Reads(Fits(flags, t), ParseValue(flags, s, p, evs), p + |Spelled(flags, t)|,
                            evs + EventsOf(flags, t))
  {
    hide ParseNumber, ParseLiteral, ScanString, At, NumeralText, NumeralEvent, LegalNumeral, S.Legal, S.Value, S.Body,
         ASCII;
    ValueFirst(flags, t);
    AtUnit(s, p, Spelled(flags, t), 0);
    match t
    case Word(word) =>
      WordsAre();
      if word == "null" {
        WordComplete(s, p, LOWER_N, ULL, NullEvent, evs);
      } else if word == "true" {
        WordComplete(s, p, LOWER_T, RUE, BoolEvent(true), evs);
      } else {
        WordComplete(s, p, LOWER_F, ALSE, BoolEvent(false), evs);
      }
    case Quoted(pieces) => QuotedComplete(s, p, pieces);
    case Number(n) =>
      NumeralFirst(n);
      NumberComplete(flags, s, p, n, evs);
  }

  // ---------------------------------------------------------------- arrays

  lemma Dispatches(flags: Flags, s: Text, p: nat, evs: seq<Event>)
    requires p < |s|
    ensures s[p] == LBRACKET ==> ParseValue(flags, s, p, evs) == ParseArray(flags, s, p, evs)
    ensures s[p] == LBRACE ==> ParseValue(flags, s, p, evs) == ParseObject(flags, s, p, evs)
  {
    hide ParseArray, ParseObject;
  }

  lemma {:induction false} ValueComplete(flags: Flags, s: Text, p: nat, t: Tree, evs: seq<Event>)
    requires Legal(flags, t) && At(s, p, Spelled(flags, t))
    requires t.Number? ==> EndsNumeral(Peek(s, p + |Spelled(flags, t)|))
    ensures p <= |s| && Reads(Fits(flags, t), ParseValue(flags, s, p, evs), p + |Spelled(flags, t)|,
                            evs + EventsOf(flags, t))
    decreases t, 1
  {
    hide ParseValue, ParseArray, ParseObject, At, Spelled, Legal, EventsOf, EndsNumeral, Reads;
    AtEnd(s, p, Spelled(flags, t));
    match t
    case List(elements, trailing, rest) =>
      ListComplete(flags, s, p, elements, trailing, rest, evs);
      Dispatches(flags, s, p, evs);
    case Record(members, trailing, rest) =>
      RecordComplete(flags, s, p, members, trailing, rest, evs);
      Dispatches(flags, s, p, evs);
    case _ => ScalarComplete(flags, s, p, t, evs);
  }

  /** The text of a list from its first element on begins with that, behind blanks. */
  lemma TailBegins(flags: Flags, s: Text, p: nat, elements: seq<Element>, trailing: bool, rest: Text)
    requires AllLegal(flags, elements) && |elements| > 0 && At(s, p, ListTail(flags, elements, trailing, rest))
    ensures var e, q := elements[0], p + |elements[0].before|;
            && Blanks(flags.comments, e.before) && Legal(flags, e.value) && Blanks(flags.comments, e.after)
            && AllLegal(flags, elements[1..])
            && At(s, p, e.before) && At(s, q, Spelled(flags, e.value)) && BeginsValue(Peek(s, q))
            && At(s, q + |Spelled(flags, e.value)|, Behind(flags, e.after, elements[1..], trailing, rest))
            && |ListTail(flags, elements, trailing, rest)|
               == |e.before| + |Spelled(flags, e.value)| + |Behind(flags, e.after, elements[1..], trailing, rest)|
  {
    hide At, Blanks, Legal, Spelled;
    var e, more := elements[0], elements[1..];
    var comma := if |more| > 0 || trailing then [COMMA] else [];
    var tail := ListTail(flags, more, trailing, rest);
    ElementText(e.before + Spelled(flags, e.value), e.after, comma, tail);
    hide ListTail;
    assert e.before + Spelled(flags, e.value) + (e.after + comma + tail)
        == e.before + Spelled(flags, e.value) + Behind(flags, e.after, more, trailing, rest) + [];
    AtPieces(s, p, e.before, Spelled(flags, e.value), Behind(flags, e.after, more, trailing, rest), []);
    assert Behind(flags, e.after, more, trailing, rest) + [] == Behind(flags, e.after, more, trailing, rest);
    ValueFirst(flags, e.value);
    AtUnit(s, p + |e.before|, Spelled(flags, e.value), 0);
  }

  lemma BlanksBegin(comments: bool, t: Text)
    requires Blanks(comments, t) && |t| > 0
    ensures IsBlank(t[0]) || t[0] == Unit('/')
  {
    if !(IsBlank(t[0]) && Blanks(comments, t[1..])) {
      var k :| 0 < k <= |t| && IsComment(t[..k]) && Blanks(comments, t[k..]);
      assert t[..k][0] == t[0];
      if !IsBlockComment(t[..k]) {
        assert t[..k][..k - 1][0] == t[0];
      }
    }
  }

  /** What stands behind blanks does not prolong a number, if that unit does not. */
  lemma EndsBehind(comments: bool, s: Text, p: nat, blanks: Text, c: byte)
    requires Blanks(comments, blanks) && At(s, p, blanks) && Peek(s, p + |blanks|) == c && EndsNumeral(c)
    ensures EndsNumeral(Peek(s, p))
  {
    if |blanks| > 0 {
      BlanksBegin(comments, blanks);
      AtUnit(s, p, blanks, 0);
    }
  }

  lemma CommaBehind(s: Text, p: nat, after: Text, tail: Text)
    requires At(s, p, after + [COMMA] + tail)
    ensures At(s, p, after) && Peek(s, p + |after|) == COMMA && At(s, p + |after| + 1, tail)
  {
    AtSplit(s, p, after + [COMMA], tail);
    AtSplit(s, p, after, [COMMA]);
    AtUnit(s, p + |after|, [COMMA], 0);
  }

  lemma BracketBehind(s: Text, p: nat, after: Text, rest: Text, tail: Text, bracket: byte)
    requires rest == [] && tail == rest + [bracket] && At(s, p, after + [] + tail)
    ensures At(s, p, after) && Peek(s, p + |after|) == bracket && |tail| == 1
  {
    assert after + [] + tail == after + [bracket];
    AtSplit(s, p, after, [bracket]);
    AtUnit(s, p + |after|, [bracket], 0);
  }

  /** Behind an element: its blanks, and a comma with the rest of the list or the end of it. */
  lemma BehindSplits(flags: Flags, s: Text, p: nat, after: Text, more: seq<Element>, trailing: bool, rest: Text)
    requires AllLegal(flags, more) && LegalRest(flags, 1 + |more|, trailing, rest) && Blanks(flags.comments, after)
    requires At(s, p, Behind(flags, after, more, trailing, rest))
    ensures At(s, p, after) && EndsNumeral(Peek(s, p))
    ensures var q := p + |after|;
            if |more| > 0 || trailing then
              && Peek(s, q) == COMMA && At(s, q + 1, ListTail(flags, more, trailing, rest))
              && |Behind(flags, after, more, trailing, rest)| == |after| + 1 + |ListTail(flags, more, trailing, rest)|
            else Peek(s, q) == RBRACKET && |Behind(flags, after, more, trailing, rest)| == |after| + 1
  {
    hide At, AllLegal, Blanks, ListTail, ElementEvents;
    var tail := ListTail(flags, more, trailing, rest);
    if |more| > 0 || trailing {
      CommaBehind(s, p, after, tail);
    } else {
      NoElements(flags, trailing, rest);
      BracketBehind(s, p, after, rest, tail, RBRACKET);
    }
    EndsBehind(flags.comments, s, p, after, Peek(s, p + |after|));
  }

  /** Blanks up to a closing bracket. */
  lemma RestSkips(flags: Flags, s: Text, p: nat, rest: Text, bracket: byte, evs: seq<Event>)
    requires At(s, p, rest + [bracket]) && Blanks(flags.comments, rest) && (bracket == RBRACKET || bracket == RBRACE)
    ensures p + |rest| < |s| && s[p + |rest|] == bracket
    ensures SkipWhitespaceAndComments(flags, s, p, evs) == Ok(p + |rest|, evs)
  {
    hide At, Blanks, SkipWhitespaceAndComments;
    AtSplit(s, p, rest, [bracket]);
    AtUnit(s, p + |rest|, [bracket], 0);
    BlanksSkip(flags, s, p, rest, evs);
  }

  lemma {:induction false} ListComplete(flags: Flags, s: Text, p: nat, elements: seq<Element>, trailing: bool, rest: Text,
                                        evs: seq<Event>)
    requires Legal(flags, List(elements, trailing, rest)) && At(s, p, Spelled(flags, List(elements, trailing, rest)))
    ensures var t := List(elements, trailing, rest);
            p < |s| && s[p] == LBRACKET
            && Reads(AllFit(flags, elements), ParseArray(flags, s, p, evs), p + |Spelled(flags, t)|,
                     evs + EventsOf(flags, t))
    decreases elements, 3
  {
    hide SkipWhitespaceAndComments, ParseElements, ParseArray, ListTail, AllLegal, ElementEvents, Blanks, At, Legal,
         Spelled, EventsOf;
    ListParts(flags, elements, trailing, rest);
    var tail, begun := ListTail(flags, elements, trailing, rest), evs + [StartArray];
    AtSplit(s, p, [LBRACKET], tail);
    AtUnit(s, p, [LBRACKET], 0);
    AtEnd(s, p + 1, tail);
    EventsJoin(evs, StartArray, ElementEvents(flags, elements), EndArray(|elements| % TWO_32));
    if |elements| == 0 {
      NoElements(flags, trailing, rest);
      RestSkips(flags, s, p + 1, rest, RBRACKET, begun);
      ArrayOpens(flags, s, p, evs, p + 1 + |rest|);
    } else {
      hide LegalRest;
      TailBegins(flags, s, p + 1, elements, trailing, rest);
      BlanksSkip(flags, s, p + 1, elements[0].before, begun);
      ArrayOpens(flags, s, p, evs, p + 1 + |elements[0].before|);
      ElementsComplete(flags, s, p + 1, elements, trailing, rest, begun, 0);
    }
  }

  lemma ListParts(flags: Flags, elements: seq<Element>, trailing: bool, rest: Text)
    requires Legal(flags, List(elements, trailing, rest))
    ensures var t := List(elements, trailing, rest);
            && AllLegal(flags, elements) && LegalRest(flags, |elements|, trailing, rest)
            && Spelled(flags, t) == [LBRACKET] + ListTail(flags, elements, trailing, rest)
            && EventsOf(flags, t) == [StartArray] + ElementEvents(flags, elements) + [EndArray(|elements| % TWO_32)]
  {
    hide ListTail, ElementEvents, AllLegal;
  }

  lemma RecordParts(flags: Flags, members: seq<Entry>, trailing: bool, rest: Text)
    requires Legal(flags, Record(members, trailing, rest))
    ensures var t := Record(members, trailing, rest);
            && AllMembersLegal(flags, members) && LegalRest(flags, |members|, trailing, rest)
            && Spelled(flags, t) == [LBRACE] + RecordTail(flags, members, trailing, rest)
            && EventsOf(flags, t) == [StartObject] + MemberEvents(flags, members) + [EndObject(|members| % TWO_32)]
  {
    hide RecordTail, MemberEvents, AllMembersLegal;
  }

  /** An array whose opening bracket and the blanks behind it have been read. */
  lemma ArrayOpens(flags: Flags, s: Text, p: nat, evs: seq<Event>, q: nat)
    requires p < |s| && s[p] == LBRACKET
    requires SkipWhitespaceAndComments(flags, s, p + 1, evs + [StartArray]) == Ok(q, evs + [StartArray])
    ensures q <= |s|
    ensures ParseArray(flags, s, p, evs) == if Peek(s, q) == RBRACKET then Ok(q + 1, evs + [StartArray] + [EndArray(0)])
                                            else ParseElements(flags, s, q, evs + [StartArray], 0)
  {
    hide SkipWhitespaceAndComments, ParseElements;
  }

  /** The elements of a list, the blanks before the first of which have been skipped. */
  lemma {:induction false} ElementsComplete(flags: Flags, s: Text, p: nat, elements: seq<Element>, trailing: bool,
                                            rest: Text, evs: seq<Event>, count: nat)
    requires AllLegal(flags, elements) && LegalRest(flags, |elements|, trailing, rest) && |elements| > 0
    requires At(s, p, ListTail(flags, elements, trailing, rest)) && count < TWO_32
    ensures var q := p + |elements[0].before|;
            && q <= |s|
            && Reads(AllFit(flags, elements), ParseElements(flags, s, q, evs, count),
                     p + |ListTail(flags, elements, trailing, rest)|,
                     evs + ElementEvents(flags, elements) + [EndArray((count + |elements|) % TWO_32)])
    decreases elements, 2
  {
    hide ParseValue, ParseElementEnd, ListTail, AllLegal, ElementEvents, Blanks, At, Legal, Spelled, EventsOf, Behind, Fits,
         AllFit;
    var e, more := elements[0], elements[1..];
    TailBegins(flags, s, p, elements, trailing, rest);
    ElementsFit(flags, elements);
    assert elements == [e] + more;
    ConsElement(flags, e, more, trailing, rest);
    var q, r := p + |e.before|, p + |e.before| + |Spelled(flags, e.value)|;
    AtEnd(s, r, Behind(flags, e.after, more, trailing, rest));
    BehindSplits(flags, s, r, e.after, more, trailing, rest);
    ValueComplete(flags, s, q, e.value, evs);
    var v := evs + EventsOf(flags, e.value);
    BehindComplete(flags, s, r, e.after, more, trailing, rest, v, Inc(count));
    MoreEvents(evs, EventsOf(flags, e.value), ElementEvents(flags, more), [EndArray((count + |elements|) % TWO_32)]);
    CountOn(count, |more|);
  }

  /** The blanks before the first element are skipped. */
  lemma ElementReached(flags: Flags, s: Text, p: nat, elements: seq<Element>, trailing: bool, rest: Text,
                       evs: seq<Event>)
    requires AllLegal(flags, elements) && |elements| > 0 && At(s, p, ListTail(flags, elements, trailing, rest))
    ensures p <= |s| && BeginsValue(Peek(s, p + |elements[0].before|)) && Peek(s, p + |elements[0].before|) != RBRACKET
    ensures SkipWhitespaceAndComments(flags, s, p, evs) == Ok(p + |elements[0].before|, evs)
  {
    hide ListTail, Behind, At, SkipWhitespaceAndComments, Spelled, Legal, Blanks;
    TailBegins(flags, s, p, elements, trailing, rest);
    AtEnd(s, p, elements[0].before);
    BlanksSkip(flags, s, p, elements[0].before, evs);
  }

  lemma {:induction false} BehindComplete(flags: Flags, s: Text, p: nat, after: Text, more: seq<Element>, trailing: bool,
                                          rest: Text, evs: seq<Event>, count: nat)
    requires AllLegal(flags, more) && LegalRest(flags, 1 + |more|, trailing, rest) && Blanks(flags.comments, after)
    requires At(s, p, Behind(flags, after, more, trailing, rest)) && count < TWO_32
    ensures p <= |s|
    ensures Reads(AllFit(flags, more), ParseElementEnd(flags, s, p, evs, count),
                  p + |Behind(flags, after, more, trailing, rest)|,
                  evs + ElementEvents(flags, more) + [EndArray((count + |more|) % TWO_32)])
    decreases more, 4
  {
    hide SkipWhitespaceAndComments, ParseElements, ListTail, AllLegal, ElementEvents, Blanks, At, Behind, BeginsValue;
    AtEnd(s, p, Behind(flags, after, more, trailing, rest));
    BehindSplits(flags, s, p, after, more, trailing, rest);
    BlanksSkip(flags, s, p, after, evs);
    var q := p + |after|;
    if |more| > 0 {
      ElementReached(flags, s, q + 1, more, trailing, rest, evs);
      ElementsComplete(flags, s, q + 1, more, trailing, rest, evs, count);
    } else {
      NoElements(flags, trailing, rest);
      assert evs + [] == evs;
      if trailing {
        RestSkips(flags, s, q + 1, rest, RBRACKET, evs);
      }
    }
  }

  // --------------------------------------------------------------- objects

  /** The text of a record from its first member on, up to the value of that member. */
  lemma RecordTailBegins(flags: Flags, s: Text, p: nat, members: seq<Entry>, trailing: bool, rest: Text)
    requires AllMembersLegal(flags, members) && |members| > 0 && At(s, p, RecordTail(flags, members, trailing, rest))
    ensures var e := members[0];
            var q := p + |e.before|;
            var a := q + |QuotedText(e.name)|;
            var c := a + |e.afterName|;
            var b := c + 1 + |e.beforeValue|;
            && AllMembersLegal(flags, members[1..])
            && Blanks(flags.comments, e.before) && S.AllLegal(e.name) && Blanks(flags.comments, e.afterName)
            && Blanks(flags.comments, e.beforeValue) && Legal(flags, e.value) && Blanks(flags.comments, e.after)
            && At(s, p, e.before) && At(s, q, QuotedText(e.name)) && At(s, a, e.afterName) && Peek(s, c) == COLON
            && At(s, c + 1, e.beforeValue) && At(s, b, Spelled(flags, e.value))
            && At(s, b + |Spelled(flags, e.value)|, BehindMember(flags, e.after, members[1..], trailing, rest))
            && p + |RecordTail(flags, members, trailing, rest)|
               == b + |Spelled(flags, e.value)| + |BehindMember(flags, e.after, members[1..], trailing, rest)|
  {
    hide At, Blanks, Legal, Spelled, QuotedText, S.AllLegal;
    var e, more := members[0], members[1..];
    var comma := if |more| > 0 || trailing then [COMMA] else [];
    var tail := RecordTail(flags, more, trailing, rest);
    var head := e.before + QuotedText(e.name) + e.afterName + [COLON] + e.beforeValue;
    ElementText(head + Spelled(flags, e.value), e.after, comma, tail);
    hide RecordTail;
    var behind := BehindMember(flags, e.after, more, trailing, rest);
    AtSplit(s, p, head + Spelled(flags, e.value), behind);
    AtSplit(s, p, head, Spelled(flags, e.value));
    AtSplit(s, p, e.before + QuotedText(e.name) + e.afterName + [COLON], e.beforeValue);
    AtSplit(s, p, e.before + QuotedText(e.name) + e.afterName, [COLON]);
    AtSplit(s, p, e.before + QuotedText(e.name), e.afterName);
    AtSplit(s, p, e.before, QuotedText(e.name));
    AtUnit(s, p + |e.before + QuotedText(e.name) + e.afterName|, [COLON], 0);
  }

  lemma BehindMemberSplits(flags: Flags, s: Text, p: nat, after: Text, more: seq<Entry>, trailing: bool, rest: Text)
    requires AllMembersLegal(flags, more) && LegalRest(flags, 1 + |more|, trailing, rest) && Blanks(flags.comments, after)
    requires At(s, p, BehindMember(flags, after, more, trailing, rest))
    ensures At(s, p, after) && EndsNumeral(Peek(s, p))
    ensures var q := p + |after|;
            if |more| > 0 || trailing then
              && Peek(s, q) == COMMA && At(s, q + 1, RecordTail(flags, more, trailing, rest))
              && |BehindMember(flags, after, more, trailing, rest)|
                 == |after| + 1 + |RecordTail(flags, more, trailing, rest)|
            else Peek(s, q) == RBRACE && |BehindMember(flags, after, more, trailing, rest)| == |after| + 1
  {
    hide At, AllMembersLegal, Blanks, RecordTail, MemberEvents;
    var tail := RecordTail(flags, more, trailing, rest);
    if |more| > 0 || trailing {
      CommaBehind(s, p, after, tail);
    } else {
      NoMembers(flags, trailing, rest);
      BracketBehind(s, p, after, rest, tail, RBRACE);
    }
    EndsBehind(flags.comments, s, p, after, Peek(s, p + |after|));
  }

  lemma {:induction false} RecordComplete(flags: Flags, s: Text, p: nat, members: seq<Entry>, trailing: bool, rest: Text,
                                          evs: seq<Event>)
    requires Legal(flags, Record(members, trailing, rest)) && At(s, p, Spelled(flags, Record(members, trailing, rest)))
    ensures var t := Record(members, trailing, rest);
            p < |s| && s[p] == LBRACE
            && Reads(AllMembersFit(flags, members), ParseObject(flags, s, p, evs), p + |Spelled(flags, t)|,
                     evs + EventsOf(flags, t))
    decreases members, 3
  {
    hide SkipWhitespaceAndComments, ParseMembers, RecordTail, AllMembersLegal, MemberEvents, Blanks, At, Legal, Spelled,
         EventsOf;
    RecordParts(flags, members, trailing, rest);
    var tail, begun := RecordTail(flags, members, trailing, rest), evs + [StartObject];
    AtSplit(s, p, [LBRACE], tail);
    AtUnit(s, p, [LBRACE], 0);
    AtEnd(s, p + 1, tail);
    EventsJoin(evs, StartObject, MemberEvents(flags, members), EndObject(|members| % TWO_32));
    if |members| == 0 {
      NoMembers(flags, trailing, rest);
      RestSkips(flags, s, p + 1, rest, RBRACE, begun);
    } else {
      NameReached(flags, s, p + 1, members, trailing, rest, begun);
      MembersComplete(flags, s, p + 1, members, trailing, rest, begun, 0);
    }
  }

  /** The blanks before the first name are skipped. */
  lemma NameReached(flags: Flags, s: Text, p: nat, members: seq<Entry>, trailing: bool, rest: Text, evs: seq<Event>)
    requires AllMembersLegal(flags, members) && |members| > 0 && At(s, p, RecordTail(flags, members, trailing, rest))
    ensures p <= |s| && Peek(s, p + |members[0].before|) == QUOTE
    ensures SkipWhitespaceAndComments(flags, s, p, evs) == Ok(p + |members[0].before|, evs)
  {
    hide RecordTail, At, SkipWhitespaceAndComments, Spelled, Legal, Blanks;
    RecordTailBegins(flags, s, p, members, trailing, rest);
    AtEnd(s, p, members[0].before);
    AtUnit(s, p + |members[0].before|, QuotedText(members[0].name), 0);
    BlanksSkip(flags, s, p, members[0].before, evs);
  }

  /** A name, the colon and the value of a member. */
  lemma {:induction false} MemberComplete(flags: Flags, s: Text, q: nat, e: Entry, evs: seq<Event>)
    requires S.AllLegal(e.name) && Blanks(flags.comments, e.afterName) && Blanks(flags.comments, e.beforeValue)
    requires Legal(flags, e.value) && At(s, q, QuotedText(e.name))
    requires var a := q + |QuotedText(e.name)|;
             var c := a + |e.afterName|;
             var b := c + 1 + |e.beforeValue|;
             && At(s, a, e.afterName) && Peek(s, c) == COLON && At(s, c + 1, e.beforeValue)
             && At(s, b, Spelled(flags, e.value)) && EndsNumeral(Peek(s, b + |Spelled(flags, e.value)|))
    ensures var k := ParseString(s, q, true, evs);
            var b := q + |QuotedText(e.name)| + |e.afterName| + 1 + |e.beforeValue|;
            && q < |s| && s[q] == QUOTE && k.Ok? && k.evs == evs + [KeyEvent(S.Value(e.name))]
            && Reads(Fits(flags, e.value), ParseMemberValue(flags, s, k.pos, k.evs), b + |Spelled(flags, e.value)|,
                     evs + [KeyEvent(S.Value(e.name))] + EventsOf(flags, e.value))
    decreases e.value, 2
  {
    hide SkipWhitespaceAndComments, ScanString, ParseValue, Blanks, At, Legal, Spelled, EventsOf, S.AllLegal, S.Value,
         QuotedText;
    QuotedComplete(s, q, e.name);
    var named := evs + [KeyEvent(S.Value(e.name))];
    var a := q + |QuotedText(e.name)|;
    var c := a + |e.afterName|;
    var b := c + 1 + |e.beforeValue|;
    BlanksSkip(flags, s, a, e.afterName, named);
    ValueFirst(flags, e.value);
    AtUnit(s, b, Spelled(flags, e.value), 0);
    BlanksSkip(flags, s, c + 1, e.beforeValue, named);
    ValueComplete(flags, s, b, e.value, named);
  }

  lemma {:induction false} MembersComplete(flags: Flags, s: Text, p: nat, members: seq<Entry>, trailing: bool,
                                           rest: Text, evs: seq<Event>, count: nat)
    requires AllMembersLegal(flags, members) && LegalRest(flags, |members|, trailing, rest) && |members| > 0
    requires At(s, p, RecordTail(flags, members, trailing, rest)) && count < TWO_32
    ensures var q := p + |members[0].before|;
            && q <= |s|
            && Reads(AllMembersFit(flags, members), ParseMembers(flags, s, q, evs, count),
                     p + |RecordTail(flags, members, trailing, rest)|,
                     evs + MemberEvents(flags, members) + [EndObject((count + |members|) % TWO_32)])
    decreases members, 2
  {
    hide ParseString, ParseMemberValue, ParseMemberEnd, RecordTail, AllMembersLegal, MemberEvents, Blanks, At, Legal,
         Spelled, EventsOf, BehindMember, QuotedText, S.AllLegal, S.Value, Fits, AllMembersFit;
    var e, more := members[0], members[1..];
    assert members == [e] + more;
    RecordTailBegins(flags, s, p, members, trailing, rest);
    MembersFit(flags, members);
    ConsMember(flags, e, more, trailing, rest);
    var q := p + |e.before|;
    var r := q + |QuotedText(e.name)| + |e.afterName| + 1 + |e.beforeValue| + |Spelled(flags, e.value)|;
    AtEnd(s, r, BehindMember(flags, e.after, more, trailing, rest));
    BehindMemberSplits(flags, s, r, e.after, more, trailing, rest);
    MemberComplete(flags, s, q, e, evs);
    var v := evs + [KeyEvent(S.Value(e.name))] + EventsOf(flags, e.value);
    BehindMemberComplete(flags, s, r, e.after, more, trailing, rest, v, Inc(count));
    MoreMemberEvents(evs, [KeyEvent(S.Value(e.name))], EventsOf(flags, e.value), MemberEvents(flags, more),
                     [EndObject((count + |members|) % TWO_32)]);
    CountOn(count, |more|);
  }

  lemma {:induction false} BehindMemberComplete(flags: Flags, s: Text, p: nat, after: Text, more: seq<Entry>,
                                                trailing: bool, rest: Text, evs: seq<Event>, count: nat)
    requires AllMembersLegal(flags, more) && LegalRest(flags, 1 + |more|, trailing, rest) && Blanks(flags.comments, after)
    requires At(s, p, BehindMember(flags, after, more, trailing, rest)) && count < TWO_32
    ensures p <= |s|
    ensures Reads(AllMembersFit(flags, more), ParseMemberEnd(flags, s, p, evs, count),
                  p + |BehindMember(flags, after, more, trailing, rest)|,
                  evs + MemberEvents(flags, more) + [EndObject((count + |more|) % TWO_32)])
    decreases more, 4
  {
    hide SkipWhitespaceAndComments, ParseMembers, RecordTail, AllMembersLegal, MemberEvents, Blanks, At, BehindMember;
    AtEnd(s, p, BehindMember(flags, after, more, trailing, rest));
    BehindMemberSplits(flags, s, p, after, more, trailing, rest);
    BlanksSkip(flags, s, p, after, evs);
    var q := p + |after|;
    if |more| > 0 {
      NameReached(flags, s, q + 1, more, trailing, rest, evs);
      MembersComplete(flags, s, q + 1, more, trailing, rest, evs, count);
    } else {
      NoMembers(flags, trailing, rest);
      assert evs + [] == evs;
      if trailing {
        RestSkips(flags, s, q + 1, rest, RBRACE, evs);
      }
    }
  }
}

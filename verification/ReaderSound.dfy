/** Every text the reader accepts is spelled as the grammar says, and means the events that are delivered. */
module ReaderSound {
  import opened Bytes
  import opened Characters
  import opened Events
  import opened Scanning
  import opened Reading
  import opened Lexemes
  import opened JsonGrammar
  import S = StringGrammar

  lemma AtJoin(s: Text, p: nat, a: Text, b: Text)
    requires At(s, p, a) && At(s, p + |a|, b)
    ensures At(s, p, a + b)
  {
    assert s[p..p + |a + b|] == s[p..p + |a|] + s[p + |a|..p + |a| + |b|];
  }

  lemma AtSlice(s: Text, p: nat, q: nat)
    requires p <= q <= |s|
    ensures At(s, p, s[p..q])
  {
  }

  lemma AtOne(s: Text, p: nat, c: byte)
    requires Peek(s, p) == c && c != NUL
    ensures p < |s| && At(s, p, [c])
  {
    assert s[p..p + 1] == [s[p]];
  }

  /** A tree stands at p, and reading it ended behind it with its events delivered. */
  ghost predicate Found(flags: Flags, s: Text, p: nat, evs: seq<Event>, t: Tree, r: Outcome) {
    && r.Ok? && Legal(flags, t) && At(s, p, Spelled(flags, t)) && r.pos == p + |Spelled(flags, t)|
    && r.evs == evs + EventsOf(flags, t)
  }

  // --------------------------------------------------------------- scalars

  lemma {:induction false} LiteralMatches(s: Text, p: nat, rest: Text, evs: seq<Event>)
    requires p <= |s| && NUL !in rest
    ensures MatchLiteral(s, p, rest, evs).Ok? <==> At(s, p, rest)
    ensures At(s, p, rest) ==> MatchLiteral(s, p, rest, evs) == Ok(p + |rest|, evs)
    decreases |rest|
  {
    if |rest| == 0 {
      assert s[p..p] == [];
    } else if Peek(s, p) == rest[0] {
      LiteralMatches(s, p + 1, rest[1..], evs);
      assert rest == [rest[0]] + rest[1..];
      if At(s, p + 1, rest[1..]) {
        AtOne(s, p, rest[0]);
        AtJoin(s, p, [rest[0]], rest[1..]);
      }
      if At(s, p, rest) {
        AtSplit(s, p, [rest[0]], rest[1..]);
      }
    } else if At(s, p, rest) {
      AtUnit(s, p, rest, 0);
    }
  }

  lemma WordsAre()
    ensures ASCII("null") == [LOWER_N] + ULL && ASCII("true") == [LOWER_T] + RUE && ASCII("false") == [LOWER_F] + ALSE
  {
  }

  lemma WordSound(s: Text, p: nat, rest: Text, ev: Event, evs: seq<Event>)
    requires p < |s| && NUL !in rest && ParseLiteral(s, p, rest, ev, evs).Ok?
    ensures At(s, p, [s[p]] + rest) && ParseLiteral(s, p, rest, ev, evs) == Ok(p + 1 + |rest|, evs + [ev])
  {
    LiteralMatches(s, p + 1, rest, evs);
    if s[p] != NUL {
      AtOne(s, p, s[p]);
    } else {
      assert s[p..p + 1] == [s[p]];
    }
    AtJoin(s, p, [s[p]], rest);
  }

  lemma QuotedSound(s: Text, p: nat) returns (pieces: seq<S.Piece>)
    requires p < |s| && s[p] == QUOTE && ScanString(s, p + 1, []).Scanned?
    ensures S.AllLegal(pieces) && At(s, p, QuotedText(pieces))
    ensures ScanString(s, p + 1, []) == Scanned(p + |QuotedText(pieces)|, S.Value(pieces))
  {
    hide ScanString, S.Body, S.Value, At, S.Legal;
    pieces := S.ScannedPieces(s, p + 1);
    var q := ScanString(s, p + 1, []).pos;
    AtOne(s, p, QUOTE);
    AtSlice(s, p + 1, q - 1);
    AtOne(s, q - 1, QUOTE);
    AtJoin(s, p, [QUOTE], S.Body(pieces));
    AtJoin(s, p, [QUOTE] + S.Body(pieces), [QUOTE]);
  }

  lemma ScalarSound(flags: Flags, s: Text, p: nat, evs: seq<Event>) returns (t: Tree)
    requires p <= |s| && ParseValue(flags, s, p, evs).Ok? && Peek(s, p) != LBRACE && Peek(s, p) != LBRACKET
    ensures Found(flags, s, p, evs, t, ParseValue(flags, s, p, evs))
  {
    hide ParseNumber, ParseLiteral, ScanString, At, S.Body, S.Value, NumeralText, NumeralEvent, LegalNumeral, S.Legal;
    WordsAre();
    var c := Peek(s, p);
    if c == LOWER_N {
      WordSound(s, p, ULL, NullEvent, evs);
      t := Word("null");
    } else if c == LOWER_T {
      WordSound(s, p, RUE, BoolEvent(true), evs);
      t := Word("true");
    } else if c == LOWER_F {
      WordSound(s, p, ALSE, BoolEvent(false), evs);
      t := Word("false");
    } else if c == QUOTE {
      var pieces := QuotedSound(s, p);
      t := Quoted(pieces);
    } else {
      NumberEvent(flags, s, p, evs);
      var n := NumeralOf(s, p);
      t := Number(n);
    }
  }

  lemma NoValueAtEnd(flags: Flags, s: Text, p: nat, evs: seq<Event>)
    requires p <= |s| && ParseValue(flags, s, p, evs).Ok?
    ensures Peek(s, p) != NUL
  {
    if Peek(s, p) == NUL {
      NumberEnds(flags, s, p, evs);
    }
  }

  // ---------------------------------------------------------------- arrays

  /** The end of a list or a record: blanks and the bracket. */
  lemma RestAt(s: Text, p: nat, q: nat, bracket: byte)
    requires p <= q <= |s| && Peek(s, q) == bracket && bracket != NUL
    ensures At(s, p, s[p..q] + [bracket])
  {
    AtSlice(s, p, q);
    AtOne(s, q, bracket);
    AtJoin(s, p, s[p..q], [bracket]);
  }

  /** One more element in front of a list. */
  lemma ConsElement(flags: Flags, e: Element, elements: seq<Element>, trailing: bool, rest: Text)
    requires Blanks(flags.comments, e.before) && Legal(flags, e.value) && Blanks(flags.comments, e.after)
    requires AllLegal(flags, elements)
    ensures AllLegal(flags, [e] + elements)
    ensures ListTail(flags, [e] + elements, trailing, rest)
         == e.before + Spelled(flags, e.value) + e.after + (if |elements| > 0 || trailing then [COMMA] else [])
            + ListTail(flags, elements, trailing, rest)
    ensures ElementEvents(flags, [e] + elements) == EventsOf(flags, e.value) + ElementEvents(flags, elements)
  {
    hide Blanks, Legal, Spelled, EventsOf;
    assert ([e] + elements)[1..] == elements;
  }

  lemma NoElements(flags: Flags, trailing: bool, rest: Text)
    ensures AllLegal(flags, []) && ListTail(flags, [], trailing, rest) == rest + [RBRACKET]
    ensures ElementEvents(flags, []) == []
  {
  }

  /** Elements found from p0 on, of which the blanks before the first end at p. */
  ghost predicate ElementsFound(flags: Flags, s: Text, p0: nat, evs: seq<Event>, count: nat, elements: seq<Element>,
                                trailing: bool, rest: Text, r: Outcome)
  {
    && r.Ok? && AllLegal(flags, elements) && LegalRest(flags, |elements|, trailing, rest) && |elements| > 0
    && At(s, p0, ListTail(flags, elements, trailing, rest))
    && r.pos == p0 + |ListTail(flags, elements, trailing, rest)|
    && r.evs == evs + ElementEvents(flags, elements) + [EndArray((count + |elements|) % TWO_32)]
  }

  lemma {:induction false} ValueSound(flags: Flags, s: Text, p: nat, evs: seq<Event>) returns (t: Tree)
    requires p <= |s| && ParseValue(flags, s, p, evs).Ok?
    ensures Found(flags, s, p, evs, t, ParseValue(flags, s, p, evs))
    decreases |s| - p, 2
  {
    if Peek(s, p) == LBRACE {
      t := ObjectSound(flags, s, p, evs);
    } else if Peek(s, p) == LBRACKET {
      t := ArraySound(flags, s, p, evs);
    } else {
      t := ScalarSound(flags, s, p, evs);
    }
  }

  lemma {:induction false} ArraySound(flags: Flags, s: Text, p: nat, evs: seq<Event>) returns (t: Tree)
    requires p < |s| && s[p] == LBRACKET && ParseArray(flags, s, p, evs).Ok?
    ensures Found(flags, s, p, evs, t, ParseArray(flags, s, p, evs))
    decreases |s| - p, 1
  {
    hide SkipWhitespaceAndComments, ParseElements, AllLegal, ListTail, ElementEvents, LegalRest, Blanks, At;
    var begun := evs + [StartArray];
    var q := SkipWhitespaceAndComments(flags, s, p + 1, begun).pos;
    SkippedIsBlank(flags, s, p + 1, begun);
    AtOne(s, p, LBRACKET);
    var elements, trailing, rest := [], false, s[p + 1..q];
    if Peek(s, q) == RBRACKET {
      NoElements(flags, false, rest);
      EmptyRest(flags, rest);
      RestAt(s, p + 1, q, RBRACKET);
    } else {
      elements, trailing, rest := ElementsSound(flags, s, p + 1, q, begun, 0);
    }
    t := List(elements, trailing, rest);
    AtJoin(s, p, [LBRACKET], ListTail(flags, elements, trailing, rest));
    EventsJoin(evs, StartArray, ElementEvents(flags, elements), EndArray(|elements| % TWO_32));
  }

  lemma EmptyRest(flags: Flags, rest: Text)
    requires Blanks(flags.comments, rest)
    ensures LegalRest(flags, 0, false, rest)
  {
  }

  lemma EventsJoin(evs: seq<Event>, start: Event, inner: seq<Event>, end: Event)
    ensures evs + [start] + inner + [end] == evs + ([start] + inner + [end])
    ensures inner == [] ==> evs + [start] + [end] == evs + ([start] + inner + [end])
  {
  }

  /** What stands behind an element: blanks, a comma if more is to come, and the rest of the list. */
  function Behind(flags: Flags, after: Text, more: seq<Element>, trailing: bool, rest: Text): Text
    requires AllLegal(flags, more)
  {
    after + (if |more| > 0 || trailing then [COMMA] else []) + ListTail(flags, more, trailing, rest)
  }

  ghost predicate BehindFound(flags: Flags, s: Text, p: nat, evs: seq<Event>, count: nat, after: Text, more: seq<Element>,
                              trailing: bool, rest: Text, r: Outcome)
  {
    && r.Ok? && Blanks(flags.comments, after) && AllLegal(flags, more) && LegalRest(flags, 1 + |more|, trailing, rest)
    && At(s, p, Behind(flags, after, more, trailing, rest)) && r.pos == p + |Behind(flags, after, more, trailing, rest)|
    && r.evs == evs + ElementEvents(flags, more) + [EndArray((count + |more|) % TWO_32)]
  }

  lemma {:induction false} ElementsSound(flags: Flags, s: Text, p0: nat, p: nat, evs: seq<Event>, count: nat)
    returns (elements: seq<Element>, trailing: bool, rest: Text)
    requires p0 <= p <= |s| && ParseElements(flags, s, p, evs, count).Ok? && count < TWO_32
    requires Peek(s, p) != NUL ==> Blanks(flags.comments, s[p0..p])
    ensures ElementsFound(flags, s, p0, evs, count, elements, trailing, rest, ParseElements(flags, s, p, evs, count))
    decreases |s| - p, 3
  {
    hide ParseValue, ParseElementEnd, AllLegal, ListTail, ElementEvents, LegalRest, Blanks, At, Spelled, EventsOf, Legal;
    NoValueAtEnd(flags, s, p, evs);
    var v := ValueSound(flags, s, p, evs);
    var r := ParseValue(flags, s, p, evs);
    var after, more;
    after, more, trailing, rest := AfterElement(flags, s, r.pos, r.evs, Inc(count));
    var e := Element(s[p0..p], v, after);
    elements := [e] + more;
    ConsElement(flags, e, more, trailing, rest);
    AtSlice(s, p0, p);
    AtJoin(s, p0, e.before, Spelled(flags, v));
    AtJoin(s, p0, e.before + Spelled(flags, v), Behind(flags, after, more, trailing, rest));
    ElementText(e.before + Spelled(flags, v), after, if |more| > 0 || trailing then [COMMA] else [],
                ListTail(flags, more, trailing, rest));
    MoreEvents(evs, EventsOf(flags, v), ElementEvents(flags, more), [EndArray((count + |elements|) % TWO_32)]);
    CountOn(count, |more|);
  }

  lemma ElementText(a: Text, b: Text, c: Text, d: Text)
    ensures a + (b + c + d) == a + b + c + d
  {
  }

  lemma MoreEvents(a: seq<Event>, b: seq<Event>, c: seq<Event>, d: seq<Event>)
    ensures a + b + c + d == a + (b + c) + d
  {
  }

  lemma CountOn(count: nat, n: nat)
    requires count < TWO_32
    ensures Inc(count) < TWO_32 && (Inc(count) + n) % TWO_32 == (count + 1 + n) % TWO_32
  {
  }

  lemma {:induction false} AfterElement(flags: Flags, s: Text, p: nat, evs: seq<Event>, count: nat)
    returns (after: Text, more: seq<Element>, trailing: bool, rest: Text)
    requires p <= |s| && ParseElementEnd(flags, s, p, evs, count).Ok? && count < TWO_32
    ensures BehindFound(flags, s, p, evs, count, after, more, trailing, rest, ParseElementEnd(flags, s, p, evs, count))
    decreases |s| - p, 0
  {
    hide SkipWhitespaceAndComments, ParseElements, AllLegal, ListTail, ElementEvents, LegalRest, Blanks, At;
    var q := SkipWhitespaceAndComments(flags, s, p, evs).pos;
    SkippedIsBlank(flags, s, p, evs);
    after, more, trailing, rest := s[p..q], [], false, [];
    AtSlice(s, p, q);
    NoBlanks(flags.comments);
    if Peek(s, q) == COMMA {
      AtOne(s, q, COMMA);
      AtJoin(s, p, after, [COMMA]);
      more, trailing, rest := AfterComma(flags, s, q + 1, evs, count);
      AtJoin(s, p, after + [COMMA], ListTail(flags, more, trailing, rest));
    } else {
      NoElements(flags, false, []);
      PlainRest(flags);
      AtOne(s, q, RBRACKET);
      AtJoin(s, p, after, [RBRACKET]);
      assert [] + [RBRACKET] == [RBRACKET];
      assert after + [] + [RBRACKET] == after + [RBRACKET];
      assert evs + [] == evs;
    }
  }

  lemma PlainRest(flags: Flags)
    ensures LegalRest(flags, 1, false, [])
  {
    NoBlanks(flags.comments);
  }

  lemma {:induction false} AfterComma(flags: Flags, s: Text, p: nat, evs: seq<Event>, count: nat)
    returns (more: seq<Element>, trailing: bool, rest: Text)
    requires p <= |s| && ParseNextElement(flags, s, p, evs, count).Ok? && count < TWO_32
    ensures var r := ParseNextElement(flags, s, p, evs, count);
            && r.Ok? && AllLegal(flags, more) && LegalRest(flags, 1 + |more|, trailing, rest) && (|more| > 0 || trailing)
            && At(s, p, ListTail(flags, more, trailing, rest)) && r.pos == p + |ListTail(flags, more, trailing, rest)|
            && r.evs == evs + ElementEvents(flags, more) + [EndArray((count + |more|) % TWO_32)]
    decreases |s| - p, 4
  {
    hide SkipWhitespaceAndComments, ParseElements, AllLegal, ListTail, ElementEvents, Blanks, At;
    var q := SkipWhitespaceAndComments(flags, s, p, evs).pos;
    SkippedIsBlank(flags, s, p, evs);
    if flags.trailingCommas && Peek(s, q) == RBRACKET {
      more, trailing, rest := [], true, s[p..q];
      NoElements(flags, true, rest);
      RestAt(s, p, q, RBRACKET);
      assert evs + [] == evs;
    } else {
      more, trailing, rest := ElementsSound(flags, s, p, q, evs, count);
    }
  }

  // --------------------------------------------------------------- objects

  lemma ConsMember(flags: Flags, e: Entry, members: seq<Entry>, trailing: bool, rest: Text)
    requires Blanks(flags.comments, e.before) && S.AllLegal(e.name) && Blanks(flags.comments, e.afterName)
    requires Blanks(flags.comments, e.beforeValue) && Legal(flags, e.value) && Blanks(flags.comments, e.after)
    requires AllMembersLegal(flags, members)
    ensures AllMembersLegal(flags, [e] + members)
    ensures RecordTail(flags, [e] + members, trailing, rest)
         == e.before + QuotedText(e.name) + e.afterName + [COLON] + e.beforeValue + Spelled(flags, e.value) + e.after
            + (if |members| > 0 || trailing then [COMMA] else []) + RecordTail(flags, members, trailing, rest)
    ensures MemberEvents(flags, [e] + members)
         == [KeyEvent(S.Value(e.name))] + EventsOf(flags, e.value) + MemberEvents(flags, members)
  {
    hide Blanks, Legal, Spelled, EventsOf, S.AllLegal, QuotedText, S.Value;
    assert ([e] + members)[1..] == members;
  }

  lemma NoMembers(flags: Flags, trailing: bool, rest: Text)
    ensures AllMembersLegal(flags, []) && RecordTail(flags, [], trailing, rest) == rest + [RBRACE]
    ensures MemberEvents(flags, []) == []
  {
  }

  ghost predicate MembersFound(flags: Flags, s: Text, p0: nat, evs: seq<Event>, count: nat, members: seq<Entry>,
                               trailing: bool, rest: Text, r: Outcome)
  {
    && r.Ok? && AllMembersLegal(flags, members) && LegalRest(flags, |members|, trailing, rest) && |members| > 0
    && At(s, p0, RecordTail(flags, members, trailing, rest))
    && r.pos == p0 + |RecordTail(flags, members, trailing, rest)|
    && r.evs == evs + MemberEvents(flags, members) + [EndObject((count + |members|) % TWO_32)]
  }

  /** What stands behind a member: blanks, a comma if more is to come, and the rest of the record. */
  function BehindMember(flags: Flags, after: Text, more: seq<Entry>, trailing: bool, rest: Text): Text
    requires AllMembersLegal(flags, more)
  {
    after + (if |more| > 0 || trailing then [COMMA] else []) + RecordTail(flags, more, trailing, rest)
  }

  ghost predicate BehindMemberFound(flags: Flags, s: Text, p: nat, evs: seq<Event>, count: nat, after: Text,
                                    more: seq<Entry>, trailing: bool, rest: Text, r: Outcome)
  {
    && r.Ok? && Blanks(flags.comments, after) && AllMembersLegal(flags, more)
    && LegalRest(flags, 1 + |more|, trailing, rest)
    && At(s, p, BehindMember(flags, after, more, trailing, rest))
    && r.pos == p + |BehindMember(flags, after, more, trailing, rest)|
    && r.evs == evs + MemberEvents(flags, more) + [EndObject((count + |more|) % TWO_32)]
  }

  lemma {:induction false} ObjectSound(flags: Flags, s: Text, p: nat, evs: seq<Event>) returns (t: Tree)
    requires p < |s| && s[p] == LBRACE && ParseObject(flags, s, p, evs).Ok?
    ensures Found(flags, s, p, evs, t, ParseObject(flags, s, p, evs))
    decreases |s| - p, 1
  {
    hide SkipWhitespaceAndComments, ParseMembers, AllMembersLegal, RecordTail, MemberEvents, LegalRest, Blanks, At;
    var begun := evs + [StartObject];
    var q := SkipWhitespaceAndComments(flags, s, p + 1, begun).pos;
    SkippedIsBlank(flags, s, p + 1, begun);
    AtOne(s, p, LBRACE);
    var members, trailing, rest := [], false, s[p + 1..q];
    if Peek(s, q) == RBRACE {
      NoMembers(flags, false, rest);
      EmptyRest(flags, rest);
      RestAt(s, p + 1, q, RBRACE);
    } else {
      members, trailing, rest := MembersSound(flags, s, p + 1, q, begun, 0);
    }
    t := Record(members, trailing, rest);
    AtJoin(s, p, [LBRACE], RecordTail(flags, members, trailing, rest));
    EventsJoin(evs, StartObject, MemberEvents(flags, members), EndObject(|members| % TWO_32));
  }

  /** A name, the colon and the value of a member. */
  lemma {:induction false} MemberSound(flags: Flags, s: Text, p0: nat, p: nat, evs: seq<Event>) returns (e: Entry)
    requires p0 <= p < |s| && s[p] == QUOTE && Blanks(flags.comments, s[p0..p])
    requires ParseString(s, p, true, evs).Ok?
    requires var k := ParseString(s, p, true, evs); ParseMemberValue(flags, s, k.pos, k.evs).Ok?
    ensures var k := ParseString(s, p, true, evs);
            var r := ParseMemberValue(flags, s, k.pos, k.evs);
            && e.after == [] && Blanks(flags.comments, e.before) && S.AllLegal(e.name)
            && Blanks(flags.comments, e.afterName) && Blanks(flags.comments, e.beforeValue) && Legal(flags, e.value)
            && var text := e.before + QuotedText(e.name) + e.afterName + [COLON] + e.beforeValue + Spelled(flags, e.value);
               && At(s, p0, text) && r.pos == p0 + |text|
               && r.evs == evs + [KeyEvent(S.Value(e.name))] + EventsOf(flags, e.value)
    decreases |s| - p, 0
  {
    hide SkipWhitespaceAndComments, ScanString, ParseValue, Blanks, At, Legal, Spelled, EventsOf, S.AllLegal, S.Value,
         QuotedText;
    var name := QuotedSound(s, p);
    var k := ParseString(s, p, true, evs);
    var a := SkipWhitespaceAndComments(flags, s, k.pos, k.evs).pos;
    SkippedIsBlank(flags, s, k.pos, k.evs);
    var b := SkipWhitespaceAndComments(flags, s, a + 1, k.evs).pos;
    SkippedIsBlank(flags, s, a + 1, k.evs);
    NoValueAtEnd(flags, s, b, k.evs);
    var v := ValueSound(flags, s, b, k.evs);
    e := Entry(s[p0..p], name, s[k.pos..a], s[a + 1..b], v, []);
    AtSlice(s, p0, p);
    AtJoin(s, p0, e.before, QuotedText(name));
    AtSlice(s, k.pos, a);
    AtJoin(s, p0, e.before + QuotedText(name), e.afterName);
    AtOne(s, a, COLON);
    AtJoin(s, p0, e.before + QuotedText(name) + e.afterName, [COLON]);
    AtSlice(s, a + 1, b);
    AtJoin(s, p0, e.before + QuotedText(name) + e.afterName + [COLON], e.beforeValue);
    AtJoin(s, p0, e.before + QuotedText(name) + e.afterName + [COLON] + e.beforeValue, Spelled(flags, v));
  }

  lemma {:induction false} MembersSound(flags: Flags, s: Text, p0: nat, p: nat, evs: seq<Event>, count: nat)
    returns (members: seq<Entry>, trailing: bool, rest: Text)
    requires p0 <= p <= |s| && ParseMembers(flags, s, p, evs, count).Ok? && count < TWO_32
    requires Peek(s, p) != NUL ==> Blanks(flags.comments, s[p0..p])
    ensures MembersFound(flags, s, p0, evs, count, members, trailing, rest, ParseMembers(flags, s, p, evs, count))
    decreases |s| - p, 3
  {
    hide ParseString, ParseMemberValue, ParseMemberEnd, AllMembersLegal, RecordTail, MemberEvents, LegalRest, Blanks, At,
         Spelled, EventsOf, Legal, S.AllLegal, QuotedText, S.Value;
    var first := MemberSound(flags, s, p0, p, evs);
    var k := ParseString(s, p, true, evs);
    var r := ParseMemberValue(flags, s, k.pos, k.evs);
    var after, more;
    after, more, trailing, rest := AfterMember(flags, s, r.pos, r.evs, Inc(count));
    var e := first.(after := after);
    members := [e] + more;
    ConsMember(flags, e, more, trailing, rest);
    var text := e.before + QuotedText(e.name) + e.afterName + [COLON] + e.beforeValue + Spelled(flags, e.value);
    AtJoin(s, p0, text, BehindMember(flags, after, more, trailing, rest));
    ElementText(text, after, if |more| > 0 || trailing then [COMMA] else [], RecordTail(flags, more, trailing, rest));
    MoreMemberEvents(evs, [KeyEvent(S.Value(e.name))], EventsOf(flags, e.value), MemberEvents(flags, more),
                     [EndObject((count + |members|) % TWO_32)]);
    CountOn(count, |more|);
  }

  lemma MoreMemberEvents(a: seq<Event>, k: seq<Event>, b: seq<Event>, c: seq<Event>, d: seq<Event>)
    ensures a + k + b + c + d == a + (k + b + c) + d
  {
  }

  lemma {:induction false} AfterMember(flags: Flags, s: Text, p: nat, evs: seq<Event>, count: nat)
    returns (after: Text, more: seq<Entry>, trailing: bool, rest: Text)
    requires p <= |s| && ParseMemberEnd(flags, s, p, evs, count).Ok? && count < TWO_32
    ensures BehindMemberFound(flags, s, p, evs, count, after, more, trailing, rest,
                              ParseMemberEnd(flags, s, p, evs, count))
    decreases |s| - p, 0
  {
    hide SkipWhitespaceAndComments, ParseMembers, AllMembersLegal, RecordTail, MemberEvents, LegalRest, Blanks, At;
    var q := SkipWhitespaceAndComments(flags, s, p, evs).pos;
    SkippedIsBlank(flags, s, p, evs);
    after, more, trailing, rest := s[p..q], [], false, [];
    AtSlice(s, p, q);
    NoBlanks(flags.comments);
    if Peek(s, q) == COMMA {
      AtOne(s, q, COMMA);
      AtJoin(s, p, after, [COMMA]);
      more, trailing, rest := AfterMemberComma(flags, s, q + 1, evs, count);
      AtJoin(s, p, after + [COMMA], RecordTail(flags, more, trailing, rest));
    } else {
      NoMembers(flags, false, []);
      PlainRest(flags);
      AtOne(s, q, RBRACE);
      AtJoin(s, p, after, [RBRACE]);
      assert [] + [RBRACE] == [RBRACE];
      assert after + [] + [RBRACE] == after + [RBRACE];
      assert evs + [] == evs;
    }
  }

  lemma {:induction false} AfterMemberComma(flags: Flags, s: Text, p: nat, evs: seq<Event>, count: nat)
    returns (more: seq<Entry>, trailing: bool, rest: Text)
    requires p <= |s| && ParseNextMember(flags, s, p, evs, count).Ok? && count < TWO_32
    ensures var r := ParseNextMember(flags, s, p, evs, count);
            && r.Ok? && AllMembersLegal(flags, more) && LegalRest(flags, 1 + |more|, trailing, rest)
            && (|more| > 0 || trailing)
            && At(s, p, RecordTail(flags, more, trailing, rest)) && r.pos == p + |RecordTail(flags, more, trailing, rest)|
            && r.evs == evs + MemberEvents(flags, more) + [EndObject((count + |more|) % TWO_32)]
    decreases |s| - p, 4
  {
    hide SkipWhitespaceAndComments, ParseMembers, AllMembersLegal, RecordTail, MemberEvents, Blanks, At;
    var q := SkipWhitespaceAndComments(flags, s, p, evs).pos;
    SkippedIsBlank(flags, s, p, evs);
    if flags.trailingCommas && Peek(s, q) == RBRACE {
      more, trailing, rest := [], true, s[p..q];
      NoMembers(flags, true, rest);
      RestAt(s, p, q, RBRACE);
      assert evs + [] == evs;
    } else {
      more, trailing, rest := MembersSound(flags, s, p, q, evs, count);
    }
  }
}

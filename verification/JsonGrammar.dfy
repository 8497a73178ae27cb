/** The texts a reader accepts: the grammar of RFC 8259 with what the flags add, as trees that keep their spelling. */
module JsonGrammar {
  import opened Bytes
  import opened Characters
  import opened Events
  import opened Lexemes
  import S = StringGrammar

  /**
   * A value as it is spelled. Rest is what stands before the closing bracket: of an empty container, or behind a last
   * comma.
   */
  datatype Tree =
    | Word(word: string)
    | Quoted(pieces: seq<S.Piece>)
    | Number(numeral: Numeral)
    | List(elements: seq<Element>, trailing: bool, rest: Text)
    | Record(members: seq<Entry>, trailing: bool, rest: Text)

  datatype Element = Element(before: Text, value: Tree, after: Text)

  datatype Entry = Entry(before: Text, name: seq<S.Piece>, afterName: Text, beforeValue: Text, value: Tree, after: Text)

  // -------------------------------------------------------------- legality

  predicate Legal(flags: Flags, t: Tree)
    decreases t, 1
  {
    match t
    case Word(word) => word == "null" || word == "true" || word == "false"
    case Quoted(pieces) => S.AllLegal(pieces)
    case Number(numeral) => LegalNumeral(numeral)
    case List(elements, trailing, rest) => AllLegal(flags, elements) && LegalRest(flags, |elements|, trailing, rest)
    case Record(members, trailing, rest) => AllMembersLegal(flags, members) && LegalRest(flags, |members|, trailing, rest)
  }

  /** A comma before the closing bracket needs an item before it, and the flag. */
  predicate LegalRest(flags: Flags, count: nat, trailing: bool, rest: Text) {
    && Blanks(flags.comments, rest)
    && (if trailing then flags.trailingCommas && count > 0 else count > 0 ==> rest == [])
  }

  predicate AllLegal(flags: Flags, elements: seq<Element>)
    decreases elements, 0
  {
    |elements| > 0 ==>
      && Blanks(flags.comments, elements[0].before) && Legal(flags, elements[0].value)
      && Blanks(flags.comments, elements[0].after) && AllLegal(flags, elements[1..])
  }

  predicate AllMembersLegal(flags: Flags, members: seq<Entry>)
    decreases members, 0
  {
    |members| > 0 ==>
      && Blanks(flags.comments, members[0].before) && S.AllLegal(members[0].name)
      && Blanks(flags.comments, members[0].afterName) && Blanks(flags.comments, members[0].beforeValue)
      && Legal(flags, members[0].value) && Blanks(flags.comments, members[0].after)
      && AllMembersLegal(flags, members[1..])
  }

  // -------------------------------------------------------------- spelling

  function QuotedText(pieces: seq<S.Piece>): Text
    requires S.AllLegal(pieces)
  {
    [Unit('\"')] + S.Body(pieces) + [Unit('\"')]
  }

  function Spelled(flags: Flags, t: Tree): Text
    requires Legal(flags, t)
    decreases t, 2
  {
    match t
    case Word(word) => ASCII(word)
    case Quoted(pieces) => QuotedText(pieces)
    case Number(numeral) => NumeralText(numeral)
    case List(elements, trailing, rest) => [Unit('[')] + ListTail(flags, elements, trailing, rest)
    case Record(members, trailing, rest) => [Unit('{')] + RecordTail(flags, members, trailing, rest)
  }

  /** Elements with commas between them, and the end of the list. */
  function ListTail(flags: Flags, elements: seq<Element>, trailing: bool, rest: Text): Text
    requires AllLegal(flags, elements)
    decreases elements, 1
  {
    if |elements| == 0 then rest + [Unit(']')]
    else
      elements[0].before + Spelled(flags, elements[0].value) + elements[0].after
      + (if |elements| > 1 || trailing then [Unit(',')] else []) + ListTail(flags, elements[1..], trailing, rest)
  }

  function RecordTail(flags: Flags, members: seq<Entry>, trailing: bool, rest: Text): Text
    requires AllMembersLegal(flags, members)
    decreases members, 1
  {
    if |members| == 0 then rest + [Unit('}')]
    else
      members[0].before + QuotedText(members[0].name) + members[0].afterName + [Unit(':')] + members[0].beforeValue
      + Spelled(flags, members[0].value) + members[0].after
      + (if |members| > 1 || trailing then [Unit(',')] else []) + RecordTail(flags, members[1..], trailing, rest)
  }

  // --------------------------------------------------------------- meaning

  /** The events of a value; counts are 32-bit. */
  function EventsOf(flags: Flags, t: Tree): seq<Event>
    requires Legal(flags, t)
    decreases t, 2
  {
    match t
    case Word(word) => [if word == "null" then NullEvent else BoolEvent(word == "true")]
    case Quoted(pieces) => [StringEvent(S.Value(pieces))]
    case Number(numeral) => NumeralEvent(numeral)
    case List(elements, _, _) =>
      [StartArray] + ElementEvents(flags, elements) + [EndArray(|elements| % TWO_32)]
    case Record(members, _, _) =>
      [StartObject] + MemberEvents(flags, members) + [EndObject(|members| % TWO_32)]
  }

  function ElementEvents(flags: Flags, elements: seq<Element>): seq<Event>
    requires AllLegal(flags, elements)
    decreases elements, 1
  {
    if |elements| == 0 then [] else EventsOf(flags, elements[0].value) + ElementEvents(flags, elements[1..])
  }

  function MemberEvents(flags: Flags, members: seq<Entry>): seq<Event>
    requires AllMembersLegal(flags, members)
    decreases members, 1
  {
    if |members| == 0 then []
    else
      [KeyEvent(S.Value(members[0].name))] + EventsOf(flags, members[0].value) + MemberEvents(flags, members[1..])
  }
}

/** The writers: an event at a time into text, with a level stack; plain, pretty, and with an ASCII target. */
module Writing {
  import opened Bytes
  import opened Encodings
  import opened Events
  import opened Document

  /** Layout of the output: none, or that of the pretty writer. */
  datatype Layout = Compact | Pretty(indentChar: byte, indentCount: nat, singleLineArrays: bool)

  /** ascii stands for a target encoding that cannot represent units above 0x7F. */
  datatype Style = Style(layout: Layout, ascii: bool)

  /** The indent character of the pretty writer must be a blank. */
  predicate ValidStyle(style: Style) {
    style.layout.Pretty? ==> IsWhitespace(style.layout.indentChar)
  }

  datatype Level = Level(valueCount: nat, inArray: bool)

  datatype Sink = Sink(out: Text, levels: seq<Level>, hasRoot: bool)

  const EMPTY_SINK := Sink([], [], false)

  function Repeat(c: byte, n: nat): (r: Text)
    ensures |r| == n && forall i | 0 <= i < n :: r[i] == c
  {
    if n == 0 then [] else Repeat(c, n - 1) + [c]
  }

  function Indent(layout: Layout, depth: nat): Text
    requires layout.Pretty?
  {
    Repeat(layout.indentChar, depth * layout.indentCount)
  }

  /** What a value inside a container is preceded by; depth counts the open containers. */
  function PrefixText(layout: Layout, depth: nat, level: Level): Text {
    match layout
    case Compact =>
      if level.valueCount == 0 then []
      else if level.inArray || level.valueCount % 2 == 0 then [COMMA]
      else [COLON]
    case Pretty(_, _, single) =>
      if level.inArray then
        (if level.valueCount > 0 then [COMMA] + (if single then [SPACE] else []) else [])
        + (if single then [] else [NEWLINE] + Indent(layout, depth))
      else if level.valueCount == 0 then [NEWLINE] + Indent(layout, depth)
      else if level.valueCount % 2 == 0 then [COMMA, NEWLINE] + Indent(layout, depth)
      else [COLON, SPACE]
  }

  /** What the end of a non-empty container is preceded by; depth counts the containers around it. */
  function ClosingText(layout: Layout, depth: nat, level: Level): Text {
    if layout.Compact? || level.valueCount == 0 || (level.inArray && layout.singleLineArrays) then []
    else [NEWLINE] + Indent(layout, depth)
  }

  /** The escape table: nothing, u, or the letter of a short escape. */
  function EscapeLetter(c: byte): byte {
    if c == BACKSPACE then LOWER_B
    else if c == TAB then LOWER_T
    else if c == NEWLINE then LOWER_N
    else if c == FORMFEED then LOWER_F
    else if c == RETURN then LOWER_R
    else if c < 0x20 then LOWER_U
    else if c == QUOTE || c == BACKSLASH then c
    else 0
  }

  /** Four hexadecimal digits after \u. */
  function UnicodeEscape(n: nat): (r: Text)
    requires n < 0x1_0000
    ensures |r| == 6
  {
    [BACKSLASH, LOWER_U, HexDigit(n / 4096), HexDigit(n / 256 % 16), HexDigit(n / 16 % 16), HexDigit(n % 16)]
  }

  function EscapedCodePoint(c: nat): Text
    requires IsScalar(c)
  {
    if c <= 0xFFFF then UnicodeEscape(c)
    else UnicodeEscape(Lead(c)) + UnicodeEscape(Trail(c))
  }

  function EscapedUnit(c: byte): Text {
    var letter := EscapeLetter(c);
    if letter == 0 then [c]
    else if letter == LOWER_U then [BACKSLASH, LOWER_U, ZERO, ZERO, HexDigit(c / 16), HexDigit(c % 16)]
    else [BACKSLASH, letter]
  }

  datatype Written = Written(ok: bool, text: Text)

  /** The body of a string from unit i on; an ASCII target stops at the first malformed sequence. */
  function StringBody(ascii: bool, str: Text, i: nat): Written
    requires i <= |str|
    decreases |str| - i
  {
    if i == |str| then Written(true, [])
    else if ascii && str[i] >= 0x80 then
      var d := Decode(str, i);
      if !d.ok then Written(false, [])
      else
        DecodeAcceptsExactlyUTF8(str, i);
        AcceptedInside(str, i);
        var rest := StringBody(ascii, str, d.pos);
        Written(rest.ok, EscapedCodePoint(d.code) + rest.text)
    else
      var rest := StringBody(ascii, str, i + 1);
      Written(rest.ok, EscapedUnit(str[i]) + rest.text)
  }

  /** What the first piece of a body contributes: a unit, or with an ASCII target a whole UTF-8 sequence. */
  lemma PlainBody(ascii: bool, str: Text, i: nat)
    requires i < |str| && !(ascii && str[i] >= 0x80)
    ensures StringBody(ascii, str, i).ok == StringBody(ascii, str, i + 1).ok
    ensures StringBody(ascii, str, i).text == EscapedUnit(str[i]) + StringBody(ascii, str, i + 1).text
  {
    hide EscapedUnit, EscapedCodePoint, Decode;
  }

  lemma SequenceBody(str: Text, i: nat)
    requires i < |str| && str[i] >= 0x80
    ensures !Decode(str, i).ok ==> StringBody(true, str, i) == Written(false, [])
    ensures Decode(str, i).ok ==>
              var d := Decode(str, i);
              && i < d.pos <= |str| && IsScalar(d.code) && Encode(d.code) == str[i..d.pos]
              && StringBody(true, str, i).ok == StringBody(true, str, d.pos).ok
              && StringBody(true, str, i).text == EscapedCodePoint(d.code) + StringBody(true, str, d.pos).text
  {
    DecodeAcceptsExactlyUTF8(str, i);
    if Decode(str, i).ok {
      AcceptedInside(str, i);
    }
    hide Decode, EscapedCodePoint, EscapedUnit, Encode, UTF8Char;
  }

  lemma BodyDone(ascii: bool, str: Text)
    ensures StringBody(ascii, str, |str|) == Written(true, [])
  {
  }

  function StringText(ascii: bool, str: Text): Written {
    var body := StringBody(ascii, str, 0);
    Written(body.ok, [QUOTE] + body.text + (if body.ok then [QUOTE] else []))
  }

  function IntegerText(n: int): Text {
    if n < 0 then [MINUS] + Decimal(-n) else Decimal(n)
  }

  const NULL_TEXT: Text := [LOWER_N, LOWER_U, 0x6C, 0x6C]
  const TRUE_TEXT: Text := [LOWER_T, LOWER_R, LOWER_U, LOWER_E]
  const FALSE_TEXT: Text := [LOWER_F, 0x61, 0x6C, 0x73, LOWER_E]

  /** The text of one value or of the start of a container. */
  function TokenText(ascii: bool, e: Event): Written
    requires !e.DoubleEvent? && !e.EndArray? && !e.EndObject?
  {
    match e
    case NullEvent => Written(true, NULL_TEXT)
    case BoolEvent(b) => Written(true, if b then TRUE_TEXT else FALSE_TEXT)
    case IntEvent(n) => Written(true, IntegerText(n))
    case UintEvent(n) => Written(true, IntegerText(n))
    case Int64Event(n) => Written(true, IntegerText(n))
    case Uint64Event(n) => Written(true, IntegerText(n))
    case StringEvent(str) => StringText(ascii, str)
    case KeyEvent(str) => StringText(ascii, str)
    case StartObject => Written(true, [LBRACE])
    case StartArray => Written(true, [LBRACKET])
  }

  /**
   * The assertions of the writer: a single root, a string where an object expects a name, ends that
   * match the innermost container, and no name without a value. Doubles are not written here.
   */
  predicate CanWrite(sink: Sink, e: Event) {
    match e
    case DoubleEvent(_) => false
    case EndObject(_) =>
      && |sink.levels| > 0
      && !sink.levels[|sink.levels| - 1].inArray
      && sink.levels[|sink.levels| - 1].valueCount % 2 == 0
    case EndArray(_) => |sink.levels| > 0 && sink.levels[|sink.levels| - 1].inArray
    case _ =>
      if |sink.levels| == 0 then !sink.hasRoot
      else
        var top := sink.levels[|sink.levels| - 1];
        !top.inArray && top.valueCount % 2 == 0 ==> e.StringEvent? || e.KeyEvent?
  }

  /** The prefix of a value: separators and layout, and the count of the level. */
  function Prefix(layout: Layout, sink: Sink): Sink {
    var depth := |sink.levels|;
    if depth == 0 then Sink(sink.out, [], true)
    else
      var top := sink.levels[depth - 1];
      Sink(sink.out + PrefixText(layout, depth, top),
           sink.levels[..depth - 1] + [Level(top.valueCount + 1, top.inArray)], sink.hasRoot)
  }

  datatype Result = Result(ok: bool, sink: Sink)

  /** What one handler call writes. */
  function Write(style: Style, sink: Sink, e: Event): Result
    requires CanWrite(sink, e)
  {
    if e.EndObject? || e.EndArray? then
      var depth := |sink.levels| - 1;
      var closing := ClosingText(style.layout, depth, sink.levels[depth]);
      Result(true, Sink(sink.out + closing + [if e.EndObject? then RBRACE else RBRACKET],
                        sink.levels[..depth], sink.hasRoot))
    else
      var prefixed := Prefix(style.layout, sink);
      var token := TokenText(style.ascii, e);
      var levels := if e.StartObject? then prefixed.levels + [Level(0, false)]
                    else if e.StartArray? then prefixed.levels + [Level(0, true)]
                    else prefixed.levels;
      Result(token.ok, Sink(prefixed.out + token.text, levels, prefixed.hasRoot))
  }

  /** A sequence of calls, up to the first that fails; None if one of them trips an assertion. */
  datatype Run = Ran(ok: bool, sink: Sink) | Asserted

  function WriteAll(style: Style, sink: Sink, evs: seq<Event>): Run
    decreases |evs|
  {
    if |evs| == 0 then Ran(true, sink)
    else if !CanWrite(sink, evs[0]) then Asserted
    else
      var r := Write(style, sink, evs[0]);
      if r.ok then WriteAll(style, r.sink, evs[1..]) else Ran(false, r.sink)
  }

  /** Calls in two parts: the second runs from where the first left off, unless the first stopped. */
  lemma {:induction false} WriteConcat(style: Style, sink: Sink, a: seq<Event>, b: seq<Event>)
    ensures var r := WriteAll(style, sink, a);
            WriteAll(style, sink, a + b) == if r.Ran? && r.ok then WriteAll(style, r.sink, b) else r
    decreases |a|
  {
    if |a| == 0 {
      assert a + b == b;
    } else {
      assert (a + b)[1..] == a[1..] + b;
      if CanWrite(sink, a[0]) {
        WriteConcat(style, Write(style, sink, a[0]).sink, a[1..], b);
      }
    }
  }

  // ------------------------------------------------------ text of a value

  /** A value whose strings the target encoding can represent. */
  predicate Writable(ascii: bool, v: Value)
    decreases v, 1
  {
    match v
    case String(str) => StringText(ascii, str).ok
    case Array(items) => AllWritable(ascii, items)
    case Object(members) => AllMembersWritable(ascii, members)
    case _ => true
  }

  predicate AllWritable(ascii: bool, items: seq<Value>)
    decreases items, 0
  {
    |items| > 0 ==> Writable(ascii, items[0]) && AllWritable(ascii, items[1..])
  }

  predicate AllMembersWritable(ascii: bool, members: seq<Member>)
    decreases members, 0
  {
    |members| > 0 ==> StringText(ascii, members[0].name).ok && Writable(ascii, members[0].value)
                      && AllMembersWritable(ascii, members[1..])
  }

  /** The text of a value written inside depth open containers, without its prefix. */
  function ValueText(style: Style, depth: nat, v: Value): Text
    decreases v, 1
  {
    match v
    case Null => NULL_TEXT
    case Bool(b) => if b then TRUE_TEXT else FALSE_TEXT
    case Number(n, _) => IntegerText(n)
    case Double(_) => []
    case String(str) => StringText(style.ascii, str).text
    case Array(items) =>
      [LBRACKET] + ItemsText(style, depth + 1, items, 0)
      + ClosingText(style.layout, depth, Level(|items|, true)) + [RBRACKET]
    case Object(members) =>
      [LBRACE] + MembersText(style, depth + 1, members, 0)
      + ClosingText(style.layout, depth, Level(2 * |members|, false)) + [RBRACE]
  }

  /** Items with their prefixes, count of them already written. */
  function ItemsText(style: Style, depth: nat, items: seq<Value>, count: nat): Text
    decreases items, 0
  {
    if |items| == 0 then []
    else
      PrefixText(style.layout, depth, Level(count, true)) + ValueText(style, depth, items[0])
      + ItemsText(style, depth, items[1..], count + 1)
  }

  function MembersText(style: Style, depth: nat, members: seq<Member>, count: nat): Text
    decreases members, 0
  {
    if |members| == 0 then []
    else
      MemberText(style, depth, members[0].name, count) + ValueText(style, depth, members[0].value)
      + MembersText(style, depth, members[1..], count + 2)
  }

  /** A name between its own prefix and that of its value. */
  function MemberText(style: Style, depth: nat, name: Text, count: nat): Text {
    PrefixText(style.layout, depth, Level(count, false)) + StringText(style.ascii, name).text
    + PrefixText(style.layout, depth, Level(count + 1, false))
  }

  /** A value may come next: no root yet, or an element, a member value, or a name. */
  predicate Awaits(sink: Sink, isString: bool) {
    if |sink.levels| == 0 then !sink.hasRoot
    else
      var top := sink.levels[|sink.levels| - 1];
      top.inArray || top.valueCount % 2 == 1 || isString
  }

  /** The sink after a value with the given text. */
  function AfterValue(style: Style, sink: Sink, text: Text): Sink {
    var prefixed := Prefix(style.layout, sink);
    Sink(prefixed.out + text, prefixed.levels, prefixed.hasRoot)
  }

  lemma WritesToken(style: Style, sink: Sink, e: Event)
    requires CanWrite(sink, e) && !e.EndArray? && !e.EndObject? && !e.StartArray? && !e.StartObject?
    requires TokenText(style.ascii, e).ok
    ensures WriteAll(style, sink, [e]) == Ran(true, AfterValue(style, sink, TokenText(style.ascii, e).text))
  {
    hide TokenText, Prefix;
    assert [e][1..] == [];
  }

  /** Writing the events of a value appends its prefix and its text, and counts it in its level. */
  lemma {:induction false} WritesValue(style: Style, sink: Sink, v: Value, reading: bool)
    requires Valid(v, false) && Writable(style.ascii, v) && Awaits(sink, v.String?)
    ensures WriteAll(style, sink, EventsOf(v, reading))
         == Ran(true, AfterValue(style, sink, ValueText(style, |sink.levels|, v)))
    decreases v, 1
  {
    match v
    case Array(items) => WritesArray(style, sink, items, reading);
    case Object(members) => WritesObject(style, sink, members, reading);
    case Double(_) =>
    case Null | Bool(_) | Number(_, _) | String(_) =>
      hide Prefix, StringText;
      WritesToken(style, sink, EventsOf(v, reading)[0]);
  }

  lemma StartWrites(style: Style, sink: Sink, start: Event)
    requires Awaits(sink, false) && (start.StartArray? || start.StartObject?)
    ensures CanWrite(sink, start)
    ensures var prefixed := Prefix(style.layout, sink);
            Write(style, sink, start)
            == Result(true, Sink(prefixed.out + [if start.StartArray? then LBRACKET else LBRACE],
                                 prefixed.levels + [Level(0, start.StartArray?)], prefixed.hasRoot))
  {
    hide Prefix;
  }

  lemma EndWrites(style: Style, sink: Sink, end: Event)
    requires |sink.levels| > 0 && (end.EndArray? || end.EndObject?)
    requires var top := sink.levels[|sink.levels| - 1];
             top.inArray == end.EndArray? && (!top.inArray ==> top.valueCount % 2 == 0)
    ensures CanWrite(sink, end)
    ensures var n := |sink.levels| - 1;
            Write(style, sink, end)
            == Result(true, Sink(sink.out + ClosingText(style.layout, n, sink.levels[n])
                                 + [if end.EndArray? then RBRACKET else RBRACE], sink.levels[..n], sink.hasRoot))
  {
    hide ClosingText;
  }

  /** Opening a container, writing its content and closing it. */
  lemma WritesContainer(style: Style, sink: Sink, start: Event, inner: seq<Event>, end: Event, filled: Sink)
    requires Awaits(sink, false)
    requires (start.StartArray? && end.EndArray?) || (start.StartObject? && end.EndObject?)
    requires var prefixed := Prefix(style.layout, sink);
             var begun := Sink(prefixed.out + [if start.StartArray? then LBRACKET else LBRACE],
                               prefixed.levels + [Level(0, start.StartArray?)], prefixed.hasRoot);
             && WriteAll(style, begun, inner) == Ran(true, filled)
             && |filled.levels| == |prefixed.levels| + 1 && filled.levels[..|prefixed.levels|] == prefixed.levels
             && filled.hasRoot == prefixed.hasRoot
    requires var top := filled.levels[|filled.levels| - 1];
             top.inArray == start.StartArray? && (!top.inArray ==> top.valueCount % 2 == 0)
    ensures var prefixed := Prefix(style.layout, sink);
            var closing := ClosingText(style.layout, |prefixed.levels|, filled.levels[|prefixed.levels|]);
            WriteAll(style, sink, [start] + inner + [end])
            == Ran(true, Sink(filled.out + closing + [if start.StartArray? then RBRACKET else RBRACE],
                              prefixed.levels, prefixed.hasRoot))
  {
    StartWrites(style, sink, start);
    EndWrites(style, filled, end);
    hide Prefix, ClosingText, Write, CanWrite;
    var begun := Write(style, sink, start).sink;
    assert ([start] + inner + [end])[1..] == inner + [end];
    WriteConcat(style, begun, inner, [end]);
    assert [end][1..] == [];
  }

  lemma {:induction false} WritesArray(style: Style, sink: Sink, items: seq<Value>, reading: bool)
    requires Valid(Array(items), false) && Writable(style.ascii, Array(items)) && Awaits(sink, false)
    ensures WriteAll(style, sink, EventsOf(Array(items), reading))
         == Ran(true, AfterValue(style, sink, ValueText(style, |sink.levels|, Array(items))))
    decreases items, 1
  {
    hide WriteAll, PrefixText, ClosingText, StringText;
    var prefixed := Prefix(style.layout, sink);
    var begun := Sink(prefixed.out + [LBRACKET], prefixed.levels + [Level(0, true)], prefixed.hasRoot);
    WritesItems(style, begun, prefixed.levels, items, 0, reading);
    var inner := ItemEvents(items, reading);
    var text := ItemsText(style, |sink.levels| + 1, items, 0);
    var filled := Sink(begun.out + text, prefixed.levels + [Level(|items|, true)], prefixed.hasRoot);
    WritesContainer(style, sink, StartArray, inner, EndArray(|items|), filled);
    var closing := ClosingText(style.layout, |sink.levels|, Level(|items|, true));
    assert filled.out + closing + [RBRACKET] == prefixed.out + ([LBRACKET] + text + closing + [RBRACKET]);
  }

  lemma AfterValueInside(style: Style, sink: Sink, outer: seq<Level>, level: Level, text: Text)
    requires sink.levels == outer + [level]
    ensures AfterValue(style, sink, text)
         == Sink(sink.out + PrefixText(style.layout, |outer| + 1, level) + text,
                 outer + [Level(level.valueCount + 1, level.inArray)], sink.hasRoot)
  {
    assert sink.levels[..|outer|] == outer;
  }

  lemma {:induction false} WritesItems(style: Style, sink: Sink, outer: seq<Level>, items: seq<Value>, count: nat,
                                       reading: bool)
    requires AllValid(items, false) && AllWritable(style.ascii, items) && sink.levels == outer + [Level(count, true)]
    ensures WriteAll(style, sink, ItemEvents(items, reading))
         == Ran(true, Sink(sink.out + ItemsText(style, |outer| + 1, items, count),
                           outer + [Level(count + |items|, true)], sink.hasRoot))
    decreases items, 0
  {
    hide PrefixText, StringText, AfterValue, Valid, Writable, ValueText, EventsOf;
    if |items| > 0 {
      hide WriteAll;
      WritesValue(style, sink, items[0], reading);
      var text := ValueText(style, |outer| + 1, items[0]);
      AfterValueInside(style, sink, outer, Level(count, true), text);
      var next := AfterValue(style, sink, text);
      WriteConcat(style, sink, EventsOf(items[0], reading), ItemEvents(items[1..], reading));
      WritesItems(style, next, outer, items[1..], count + 1, reading);
      AppendAssociative(sink.out, PrefixText(style.layout, |outer| + 1, Level(count, true)), text,
                        ItemsText(style, |outer| + 1, items[1..], count + 1));
    } else {
      assert sink.out + [] == sink.out;
    }
  }

  lemma AppendAssociative(out: Text, a: Text, b: Text, c: Text)
    ensures out + a + b + c == out + (a + b + c)
  {
  }

  lemma {:induction false} WritesObject(style: Style, sink: Sink, members: seq<Member>, reading: bool)
    requires Valid(Object(members), false) && Writable(style.ascii, Object(members)) && Awaits(sink, false)
    ensures WriteAll(style, sink, EventsOf(Object(members), reading))
         == Ran(true, AfterValue(style, sink, ValueText(style, |sink.levels|, Object(members))))
    decreases members, 1
  {
    hide WriteAll, PrefixText, ClosingText, StringText, MembersText;
    var prefixed := Prefix(style.layout, sink);
    var begun := Sink(prefixed.out + [LBRACE], prefixed.levels + [Level(0, false)], prefixed.hasRoot);
    WritesMembers(style, begun, prefixed.levels, members, 0, 2 * |members|, reading);
    var inner := MemberEvents(members, reading);
    var text := MembersText(style, |sink.levels| + 1, members, 0);
    var filled := Sink(begun.out + text, prefixed.levels + [Level(2 * |members|, false)], prefixed.hasRoot);
    WritesContainer(style, sink, StartObject, inner, EndObject(|members|), filled);
    var closing := ClosingText(style.layout, |sink.levels|, Level(2 * |members|, false));
    assert filled.out + closing + [RBRACE] == prefixed.out + ([LBRACE] + text + closing + [RBRACE]);
  }

  lemma WritesName(style: Style, sink: Sink, outer: seq<Level>, name: Text, count: nat)
    requires StringText(style.ascii, name).ok && sink.levels == outer + [Level(count, false)] && count % 2 == 0
    ensures WriteAll(style, sink, [KeyEvent(name)])
         == Ran(true, Sink(sink.out + PrefixText(style.layout, |outer| + 1, Level(count, false))
                           + StringText(style.ascii, name).text,
                           outer + [Level(count + 1, false)], sink.hasRoot))
  {
    hide StringText, PrefixText;
    WritesToken(style, sink, KeyEvent(name));
  }

  lemma {:induction false} WritesMembers(style: Style, sink: Sink, outer: seq<Level>, members: seq<Member>, count: nat,
                                         end: nat, reading: bool)
    requires AllMembersValid(members, false) && AllMembersWritable(style.ascii, members)
    requires sink.levels == outer + [Level(count, false)] && count % 2 == 0 && end == count + 2 * |members|
    ensures WriteAll(style, sink, MemberEvents(members, reading))
         == Ran(true, Sink(sink.out + MembersText(style, |outer| + 1, members, count),
                           outer + [Level(end, false)], sink.hasRoot))
    decreases members, 0
  {
    if |members| > 0 {
      var m := members[0];
      WritesMember(style, sink, outer, m, count, reading);
      var text := MemberText(style, |outer| + 1, m.name, count) + ValueText(style, |outer| + 1, m.value);
      var next := Sink(sink.out + text, outer + [Level(count + 2, false)], sink.hasRoot);
      assert next.levels == outer + [Level(count + 2, false)] && (count + 2) % 2 == 0;
      assert AllMembersValid(members[1..], false) && AllMembersWritable(style.ascii, members[1..]);
      hide WriteAll, MembersText, MemberText, ValueText, MemberEvents, EventsOf, Valid, Writable;
      WritesMembers(style, next, outer, members[1..], count + 2, end, reading);
      WritesMoreMembers(style, sink, outer, members, count, end, reading, next);
    } else {
      assert sink.out + [] == sink.out;
    }
  }

  lemma WritesMoreMembers(style: Style, sink: Sink, outer: seq<Level>, members: seq<Member>, count: nat, end: nat,
                          reading: bool, next: Sink)
    requires |members| > 0
    requires WriteAll(style, sink, [KeyEvent(members[0].name)] + EventsOf(members[0].value, reading)) == Ran(true, next)
    requires next.out == sink.out + (MemberText(style, |outer| + 1, members[0].name, count)
                                     + ValueText(style, |outer| + 1, members[0].value))
    requires WriteAll(style, next, MemberEvents(members[1..], reading))
          == Ran(true, Sink(next.out + MembersText(style, |outer| + 1, members[1..], count + 2),
                            outer + [Level(end, false)], sink.hasRoot))
    ensures WriteAll(style, sink, MemberEvents(members, reading))
         == Ran(true, Sink(sink.out + MembersText(style, |outer| + 1, members, count),
                           outer + [Level(end, false)], sink.hasRoot))
  {
    hide WriteAll, ValueText, EventsOf, MemberText;
    var tail := MembersText(style, |outer| + 1, members[1..], count + 2);
    Associative(sink.out, MemberText(style, |outer| + 1, members[0].name, count)
                          + ValueText(style, |outer| + 1, members[0].value), tail);
    WriteConcat(style, sink, [KeyEvent(members[0].name)] + EventsOf(members[0].value, reading),
                MemberEvents(members[1..], reading));
  }

  lemma {:induction false} WritesMember(style: Style, sink: Sink, outer: seq<Level>, m: Member, count: nat,
                                        reading: bool)
    requires Valid(m.value, false) && StringText(style.ascii, m.name).ok && Writable(style.ascii, m.value)
    requires sink.levels == outer + [Level(count, false)] && count % 2 == 0
    ensures WriteAll(style, sink, [KeyEvent(m.name)] + EventsOf(m.value, reading))
         == Ran(true, Sink(sink.out + (MemberText(style, |outer| + 1, m.name, count) + ValueText(style, |outer| + 1, m.value)),
                           outer + [Level(count + 2, false)], sink.hasRoot))
    decreases m
  {
    hide WriteAll, PrefixText, StringText, AfterValue, Valid, Writable, ValueText, EventsOf;
    WritesName(style, sink, outer, m.name, count);
    var named := WriteAll(style, sink, [KeyEvent(m.name)]).sink;
    WritesValue(style, named, m.value, reading);
    var text := ValueText(style, |outer| + 1, m.value);
    AfterValueInside(style, named, outer, Level(count + 1, false), text);
    WriteConcat(style, sink, [KeyEvent(m.name)], EventsOf(m.value, reading));
    MemberAppended(sink.out, PrefixText(style.layout, |outer| + 1, Level(count, false)),
                   StringText(style.ascii, m.name).text,
                   PrefixText(style.layout, |outer| + 1, Level(count + 1, false)), text);
  }

  lemma Associative(a: Text, b: Text, c: Text)
    ensures a + b + c == a + (b + c)
  {
  }

  lemma MemberAppended(out: Text, a: Text, b: Text, c: Text, d: Text)
    ensures out + a + b + c + d == out + ((a + b + c) + d)
  {
  }
}

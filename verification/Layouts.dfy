/** What the output looks like, told line by line and without counting values. */
module Layouts {
  import opened Bytes
  import opened Characters
  import opened Document
  import opened Encodings
  import StringGrammar
  import W = Writing

  /** Texts with a separator between them. */
  function Joined(texts: seq<Text>, separator: Text): Text {
    if |texts| == 0 then []
    else if |texts| == 1 then texts[0]
    else texts[0] + separator + Joined(texts[1..], separator)
  }

  /** A new line that begins as many indents from the left as containers are open. */
  function NewLine(layout: W.Layout, depth: nat): Text
    requires layout.Pretty?
  {
    [Unit('\n')] + seq(depth * layout.indentCount, i => layout.indentChar)
  }

  /** Every element of an array on a line of its own, or all on one line, or no space at all. */
  function ArrayText(layout: W.Layout, depth: nat, items: seq<Text>): Text {
    match layout
    case Compact => [Unit('[')] + Joined(items, [Unit(',')]) + [Unit(']')]
    case Pretty(_, _, single) =>
      if |items| == 0 then [Unit('['), Unit(']')]
      else if single then [Unit('[')] + Joined(items, [Unit(','), Unit(' ')]) + [Unit(']')]
      else
        [Unit('[')] + NewLine(layout, depth + 1) + Joined(items, [Unit(',')] + NewLine(layout, depth + 1))
        + NewLine(layout, depth) + [Unit(']')]
  }

  /** Every member of an object on a line of its own, or no space at all. */
  function ObjectText(layout: W.Layout, depth: nat, members: seq<Text>): Text {
    match layout
    case Compact => [Unit('{')] + Joined(members, [Unit(',')]) + [Unit('}')]
    case Pretty(_, _, _) =>
      if |members| == 0 then [Unit('{'), Unit('}')]
      else
        [Unit('{')] + NewLine(layout, depth + 1) + Joined(members, [Unit(',')] + NewLine(layout, depth + 1))
        + NewLine(layout, depth) + [Unit('}')]
  }

  function Colon(layout: W.Layout): Text {
    if layout.Compact? then [Unit(':')] else [Unit(':'), Unit(' ')]
  }

  /** The text of a value inside depth open containers. */
  function Laid(style: W.Style, depth: nat, v: Value): Text
    decreases v, 1
  {
    match v
    case Null => ASCII("null")
    case Bool(b) => if b then ASCII("true") else ASCII("false")
    case Number(n, _) => W.IntegerText(n)
    case Double(_) => []
    case String(str) => W.StringText(style.ascii, str).text
    case Array(items) => ArrayText(style.layout, depth, LaidItems(style, depth + 1, items))
    case Object(members) => ObjectText(style.layout, depth, LaidMembers(style, depth + 1, members))
  }

  function LaidItems(style: W.Style, depth: nat, items: seq<Value>): (r: seq<Text>)
    ensures |r| == |items|
    decreases items, 0
  {
    if |items| == 0 then [] else [Laid(style, depth, items[0])] + LaidItems(style, depth, items[1..])
  }

  function LaidMembers(style: W.Style, depth: nat, members: seq<Member>): (r: seq<Text>)
    ensures |r| == |members|
    decreases members, 0
  {
    if |members| == 0 then []
    else
      [W.StringText(style.ascii, members[0].name).text + Colon(style.layout) + Laid(style, depth, members[0].value)]
      + LaidMembers(style, depth, members[1..])
  }

  // ------------------------------------------------------ the writers' text

  /** Every item with what goes before it; nothing goes before the first but first. */
  function Separated(first: Text, separator: Text, texts: seq<Text>): Text
    decreases |texts|
  {
    if |texts| == 0 then [] else first + texts[0] + Separated(separator, separator, texts[1..])
  }

  lemma {:induction false} SeparatedJoins(first: Text, separator: Text, texts: seq<Text>)
    requires |texts| > 0
    ensures Separated(first, separator, texts) == first + Joined(texts, separator)
    decreases |texts|
  {
    if |texts| == 1 {
      assert texts[1..] == [];
      assert first + texts[0] + [] == first + texts[0];
    } else {
      SeparatedJoins(separator, separator, texts[1..]);
      assert first + texts[0] + (separator + Joined(texts[1..], separator))
          == first + (texts[0] + separator + Joined(texts[1..], separator));
    }
  }

  /** What separates elements and members, and what goes before the first of them. */
  function Before(layout: W.Layout, depth: nat, inArray: bool, isFirst: bool): Text {
    var comma := if isFirst then [] else [Unit(',')];
    if layout.Compact? then comma
    else if inArray && layout.singleLineArrays then (if isFirst then [] else [Unit(','), Unit(' ')])
    else comma + NewLine(layout, depth)
  }

  lemma IndentIs(layout: W.Layout, depth: nat)
    requires layout.Pretty?
    ensures [NEWLINE] + W.Indent(layout, depth) == NewLine(layout, depth)
  {
    assert W.Indent(layout, depth) == seq(depth * layout.indentCount, i => layout.indentChar);
  }

  lemma ElementPrefix(layout: W.Layout, depth: nat, count: nat)
    ensures W.PrefixText(layout, depth, W.Level(count, true)) == Before(layout, depth, true, count == 0)
  {
    hide NewLine, W.Indent;
    if layout.Pretty? {
      IndentIs(layout, depth);
    }
  }

  lemma NamePrefix(layout: W.Layout, depth: nat, count: nat)
    requires count % 2 == 0
    ensures W.PrefixText(layout, depth, W.Level(count, false)) == Before(layout, depth, false, count == 0)
    ensures W.PrefixText(layout, depth, W.Level(count + 1, false)) == Colon(layout)
  {
    hide NewLine, W.Indent;
    if layout.Pretty? {
      IndentIs(layout, depth);
      assert [COMMA, NEWLINE] + W.Indent(layout, depth) == [COMMA] + ([NEWLINE] + W.Indent(layout, depth));
    }
  }

  lemma ClosingIsNewLine(layout: W.Layout, depth: nat, count: nat, inArray: bool)
    ensures W.ClosingText(layout, depth, W.Level(count, inArray))
         == if layout.Compact? || count == 0 || (inArray && layout.singleLineArrays) then [] else NewLine(layout, depth)
  {
    hide NewLine, W.Indent;
    if layout.Pretty? {
      IndentIs(layout, depth);
    }
  }

  lemma {:induction false} ItemsLaid(style: W.Style, depth: nat, items: seq<Value>, count: nat)
    ensures W.ItemsText(style, depth, items, count)
         == Separated(Before(style.layout, depth, true, count == 0), Before(style.layout, depth, true, false),
                      LaidItems(style, depth, items))
    decreases items, 0
  {
    hide W.PrefixText, Before, Laid;
    if |items| > 0 {
      ElementPrefix(style.layout, depth, count);
      ValueLaid(style, depth, items[0]);
      ItemsLaid(style, depth, items[1..], count + 1);
      assert LaidItems(style, depth, items)[1..] == LaidItems(style, depth, items[1..]);
    }
  }

  lemma {:induction false} MembersLaid(style: W.Style, depth: nat, members: seq<Member>, count: nat)
    requires count % 2 == 0
    ensures W.MembersText(style, depth, members, count)
         == Separated(Before(style.layout, depth, false, count == 0), Before(style.layout, depth, false, false),
                      LaidMembers(style, depth, members))
    decreases members, 0
  {
    hide W.PrefixText, Before, Laid, Colon, W.StringText;
    if |members| > 0 {
      NamePrefix(style.layout, depth, count);
      ValueLaid(style, depth, members[0].value);
      MembersLaid(style, depth, members[1..], count + 2);
      assert LaidMembers(style, depth, members)[1..] == LaidMembers(style, depth, members[1..]);
      MemberText(Before(style.layout, depth, false, count == 0), W.StringText(style.ascii, members[0].name).text,
                 Colon(style.layout), Laid(style, depth, members[0].value));
    }
  }

  lemma MemberText(a: Text, b: Text, c: Text, d: Text)
    ensures a + b + c + d == a + (b + c + d)
  {
  }

  /** The text of every value is laid out so, whatever the style. */
  lemma {:induction false} ValueLaid(style: W.Style, depth: nat, v: Value)
    ensures W.ValueText(style, depth, v) == Laid(style, depth, v)
    decreases v, 1
  {
    match v
    case Array(items) =>
      ItemsLaid(style, depth + 1, items, 0);
      ArrayLaid(style, depth, items);
    case Object(members) =>
      MembersLaid(style, depth + 1, members, 0);
      ObjectLaid(style, depth, members);
    case _ =>
  }

  lemma ArrayLaid(style: W.Style, depth: nat, items: seq<Value>)
    requires W.ItemsText(style, depth + 1, items, 0)
          == Separated(Before(style.layout, depth + 1, true, true), Before(style.layout, depth + 1, true, false),
                       LaidItems(style, depth + 1, items))
    ensures W.ValueText(style, depth, Array(items)) == Laid(style, depth, Array(items))
  {
    hide W.ItemsText, ArrayText, Separated, Before, LaidItems, W.ClosingText;
    ArrayBrackets(style.layout, depth, LaidItems(style, depth + 1, items));
  }

  lemma BeforeIs(layout: W.Layout, depth: nat, inArray: bool)
    ensures var first, more := Before(layout, depth, inArray, true), Before(layout, depth, inArray, false);
            if layout.Compact? then first == [] && more == [COMMA]
            else if inArray && layout.singleLineArrays then first == [] && more == [COMMA, SPACE]
            else first == NewLine(layout, depth) && more == [COMMA] + NewLine(layout, depth)
  {
    hide NewLine;
  }

  lemma ArrayBrackets(layout: W.Layout, depth: nat, texts: seq<Text>)
    ensures [LBRACKET] + Separated(Before(layout, depth + 1, true, true), Before(layout, depth + 1, true, false), texts)
            + W.ClosingText(layout, depth, W.Level(|texts|, true)) + [RBRACKET] == ArrayText(layout, depth, texts)
  {
    hide Joined, W.ClosingText, NewLine, Before;
    ClosingIsNewLine(layout, depth, |texts|, true);
    BeforeIs(layout, depth + 1, true);
    if |texts| > 0 {
      hide Separated;
      var first, separator := Before(layout, depth + 1, true, true), Before(layout, depth + 1, true, false);
      SeparatedJoins(first, separator, texts);
      Bracketed([LBRACKET], first, Joined(texts, separator), W.ClosingText(layout, depth, W.Level(|texts|, true)),
                [RBRACKET]);
    } else {
      NothingJoined([COMMA]);
    }
  }

  /** Without a first line or a last one the pieces still fit. */
  lemma Bracketed(a: Text, b: Text, c: Text, d: Text, e: Text)
    ensures a + (b + c) + d + e == a + b + c + d + e
    ensures a + [] + c + [] + e == a + c + e && a + b + c + [] + e == a + b + c + e
  {
  }

  lemma NothingJoined(separator: Text)
    ensures Joined([], separator) == []
  {
  }

  lemma ObjectLaid(style: W.Style, depth: nat, members: seq<Member>)
    requires W.MembersText(style, depth + 1, members, 0)
          == Separated(Before(style.layout, depth + 1, false, true), Before(style.layout, depth + 1, false, false),
                       LaidMembers(style, depth + 1, members))
    ensures W.ValueText(style, depth, Object(members)) == Laid(style, depth, Object(members))
  {
    hide W.MembersText, ObjectText, Separated, Before, LaidMembers, W.ClosingText;
    ObjectBrackets(style.layout, depth, LaidMembers(style, depth + 1, members));
  }

  lemma ObjectBrackets(layout: W.Layout, depth: nat, texts: seq<Text>)
    ensures [LBRACE] + Separated(Before(layout, depth + 1, false, true), Before(layout, depth + 1, false, false), texts)
            + W.ClosingText(layout, depth, W.Level(2 * |texts|, false)) + [RBRACE] == ObjectText(layout, depth, texts)
  {
    hide Joined, W.ClosingText, NewLine, Before;
    ClosingIsNewLine(layout, depth, 2 * |texts|, false);
    BeforeIs(layout, depth + 1, false);
    if |texts| > 0 {
      hide Separated;
      var first, separator := Before(layout, depth + 1, false, true), Before(layout, depth + 1, false, false);
      SeparatedJoins(first, separator, texts);
      Bracketed([LBRACE], first, Joined(texts, separator), W.ClosingText(layout, depth, W.Level(2 * |texts|, false)),
                [RBRACE]);
    } else {
      NothingJoined([COMMA]);
    }
  }

  // ------------------------------------------------------------- strings

  /** The characters with a short escape in the output. */
  const ESCAPED := "\"\\\U{8}\U{C}\n\r\t"
  const LETTERS := "\"\\bfnrt"

  /** A unit is written as it is, or by the shortest escape if it must be escaped. */
  lemma UnitWritten(c: byte)
    ensures forall k | 0 <= k < |ESCAPED| && ESCAPED[k] as int == c :: W.EscapedUnit(c) == [Unit('\\'), LETTERS[k] as int]
    ensures (forall k | 0 <= k < |ESCAPED| :: ESCAPED[k] as int != c) ==>
              W.EscapedUnit(c) == if c < 0x20 then ASCII("\\u00") + [UPPER_DIGITS[c / 16] as int, UPPER_DIGITS[c % 16] as int]
                                  else [c]
  {
    assert ESCAPED[0] as int == QUOTE && ESCAPED[1] as int == BACKSLASH && ESCAPED[2] as int == BACKSPACE;
    assert ESCAPED[3] as int == FORMFEED && ESCAPED[4] as int == NEWLINE && ESCAPED[5] as int == RETURN;
    assert ESCAPED[6] as int == TAB;
    HexDigitIsUpper(c / 16);
    HexDigitIsUpper(c % 16);
  }

  /** A code point above 0xFFFF, its ten higher and its ten lower bits behind the marks of the two surrogates. */
  lemma PairOfBits(h: nat, l: nat)
    requires h < 0x400 && l < 0x400
    ensures 0x1_0000 <= 0x1_0000 + h * 0x400 + l <= 0x10_FFFF
    ensures Encode16(0x1_0000 + h * 0x400 + l) == [0xD800 + h, 0xDC00 + l]
  {
    assert (h * 0x400 + l) / 0x400 == h && (h * 0x400 + l) % 0x400 == l;
  }

  lemma EscapeOfUnit(n: nat)
    requires n < 0x1_0000
    ensures W.UnicodeEscape(n)[..2] == [Unit('\\'), Unit('u')] && StringGrammar.Denotes4(W.UnicodeEscape(n)[2..], n)
  {
    HexDigitIsUpper(n / 4096);
    HexDigitIsUpper(n / 256 % 16);
    HexDigitIsUpper(n / 16 % 16);
    HexDigitIsUpper(n % 16);
    hide HexDigit;
  }

  /** What an ASCII target gets for a code point: one escape of its number, or two of its surrogates. */
  lemma CodePointWritten(h: nat, l: nat)
    requires h < 0x400 && l < 0x400
    ensures W.EscapedCodePoint(0x1_0000 + h * 0x400 + l) == W.UnicodeEscape(0xD800 + h) + W.UnicodeEscape(0xDC00 + l)
  {
    PairOfBits(h, l);
  }
}

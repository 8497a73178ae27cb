/** The writer as an object: an output, a stack of levels and the mark that a root has been written. */
module Writer {
  import opened Bytes
  import opened Encodings
  import opened Events
  import opened Document
  import opened Writing

  class GenericWriter {
    const style: Style
    var out: Text
    var levels: seq<Level>
    var hasRoot: bool

    function Contents(): Sink
      reads this
    {
      Sink(out, levels, hasRoot)
    }

    constructor (style: Style)
      ensures this.style == style && Contents() == EMPTY_SINK
    {
      this.style := style;
      out := [];
      levels := [];
      hasRoot := false;
    }

    method Put(text: Text)
      modifies this`out
      ensures out == old(out) + text
    {
      out := out + text;
    }

    method WriteIndent()
      requires style.layout.Pretty?
      modifies this`out
      ensures out == old(out) + Indent(style.layout, |levels|)
    {
      var count := |levels| * style.layout.indentCount;
      for i := 0 to count
        invariant out == old(out) + Repeat(style.layout.indentChar, i)
      {
        assert Repeat(style.layout.indentChar, i + 1) == Repeat(style.layout.indentChar, i) + [style.layout.indentChar];
        Put([style.layout.indentChar]);
      }
    }

    method CountValue()
      requires |levels| > 0
      modifies this`levels
      ensures levels == old(levels[..|levels| - 1] + [Level(levels[|levels| - 1].valueCount + 1, levels[|levels| - 1].inArray)])
    {
      var top := levels[|levels| - 1];
      levels := levels[..|levels| - 1] + [top.(valueCount := top.valueCount + 1)];
    }

    method CompactPrefix()
      requires style.layout.Compact?
      modifies this
      ensures Contents() == Prefix(style.layout, old(Contents()))
    {
      if |levels| != 0 {
        var top := levels[|levels| - 1];
        if top.valueCount > 0 {
          if top.inArray {
            Put([COMMA]);
          } else {
            Put([if top.valueCount % 2 == 0 then COMMA else COLON]);
          }
        }
        CountValue();
      } else {
        hasRoot := true;
      }
    }

    method PrettyPrefix()
      requires style.layout.Pretty?
      modifies this
      ensures Contents() == Prefix(style.layout, old(Contents()))
    {
      hide PrefixText;
      if |levels| != 0 {
        if levels[|levels| - 1].inArray {
          ArrayPrefix();
        } else {
          ObjectPrefix();
        }
        CountValue();
      } else {
        hasRoot := true;
      }
    }

    method ArrayPrefix()
      requires style.layout.Pretty? && |levels| > 0 && levels[|levels| - 1].inArray
      modifies this`out
      ensures out == old(out) + PrefixText(style.layout, |levels|, levels[|levels| - 1])
    {
      hide Indent;
      if levels[|levels| - 1].valueCount > 0 {
        Put([COMMA]);
        if style.layout.singleLineArrays {
          Put([SPACE]);
        }
      }
      if !style.layout.singleLineArrays {
        Put([NEWLINE]);
        WriteIndent();
      }
    }

    method ObjectPrefix()
      requires style.layout.Pretty? && |levels| > 0 && !levels[|levels| - 1].inArray
      modifies this`out
      ensures out == old(out) + PrefixText(style.layout, |levels|, levels[|levels| - 1])
    {
      hide Indent;
      var valueCount := levels[|levels| - 1].valueCount;
      if valueCount > 0 {
        if valueCount % 2 == 0 {
          Put([COMMA]);
          Put([NEWLINE]);
        } else {
          Put([COLON]);
          Put([SPACE]);
        }
      } else {
        Put([NEWLINE]);
      }
      if valueCount % 2 == 0 {
        WriteIndent();
      }
    }

    method WritePrefix()
      modifies this
      ensures Contents() == Prefix(style.layout, old(Contents()))
    {
      if style.layout.Compact? {
        CompactPrefix();
      } else {
        PrettyPrefix();
      }
    }

    /** The unit-by-unit loop over a string; an ASCII target gives up at a malformed sequence. */
    method WriteString(str: Text) returns (ok: bool)
      modifies this`out
      ensures var t := StringText(style.ascii, str);
              ok == t.ok && out == old(out) + t.text
    {
      hide StringBody;
      Put([QUOTE]);
      var i := 0;
      while i < |str|
        invariant i <= |str|
        invariant var rest, whole := StringBody(style.ascii, str, i), StringBody(style.ascii, str, 0);
                  rest.ok == whole.ok && out + rest.text == old(out) + [QUOTE] + whole.text
        decreases |str| - i
      {
        i := WritePiece(str, i);
        if i > |str| {
          assert [QUOTE] + StringBody(style.ascii, str, 0).text + [] == [QUOTE] + StringBody(style.ascii, str, 0).text;
          return false;
        }
      }
      BodyDone(style.ascii, str);
      ghost var body := StringBody(style.ascii, str, 0).text;
      assert out == old(out) + [QUOTE] + body;
      Put([QUOTE]);
      assert old(out) + [QUOTE] + body + [QUOTE] == old(out) + ([QUOTE] + body + [QUOTE]);
      return true;
    }

    /** One unit, or with an ASCII target one UTF-8 sequence; returns past the end if it is malformed. */
    method WritePiece(str: Text, i: nat) returns (next: nat)
      requires i < |str|
      modifies this`out
      ensures next > |str| ==> !StringBody(style.ascii, str, i).ok && out == old(out) + StringBody(style.ascii, str, i).text
      ensures next <= |str| ==>
                && i < next
                && StringBody(style.ascii, str, i).ok == StringBody(style.ascii, str, next).ok
                && out + StringBody(style.ascii, str, next).text == old(out) + StringBody(style.ascii, str, i).text
    {
      hide StringBody, Decode, UnicodeEscape, EscapedUnit, Encode;
      var c := str[i];
      if style.ascii && c >= 0x80 {
        SequenceBody(str, i);
        var d := Decode(str, i);
        if !d.ok {
          return |str| + 1;
        }
        if d.code <= 0xFFFF {
          Put(UnicodeEscape(d.code));
        } else {
          Put(UnicodeEscape(Lead(d.code)));
          Put(UnicodeEscape(Trail(d.code)));
        }
        next := d.pos;
      } else {
        PlainBody(style.ascii, str, i);
        Put(EscapedUnit(c));
        next := i + 1;
      }
    }

    /** A scalar other than a double, or a name. */
    method Scalar(e: Event) returns (ok: bool)
      requires CanWrite(Contents(), e) && !e.StartObject? && !e.StartArray? && !e.EndObject? && !e.EndArray?
      modifies this
      ensures Result(ok, Contents()) == Write(style, old(Contents()), e)
    {
      WritePrefix();
      if e.StringEvent? || e.KeyEvent? {
        ok := WriteString(e.str);
      } else {
        Put(TokenText(style.ascii, e).text);
        ok := true;
      }
    }

    method StartContainer(e: Event) returns (ok: bool)
      requires CanWrite(Contents(), e) && (e.StartObject? || e.StartArray?)
      modifies this
      ensures Result(ok, Contents()) == Write(style, old(Contents()), e)
    {
      WritePrefix();
      levels := levels + [Level(0, e.StartArray?)];
      Put([if e.StartObject? then LBRACE else LBRACKET]);
      ok := true;
    }

    method EndContainer(e: Event) returns (ok: bool)
      requires CanWrite(Contents(), e) && (e.EndObject? || e.EndArray?)
      modifies this
      ensures Result(ok, Contents()) == Write(style, old(Contents()), e)
    {
      var top := levels[|levels| - 1];
      levels := levels[..|levels| - 1];
      if style.layout.Pretty? && top.valueCount != 0 && !(top.inArray && style.layout.singleLineArrays) {
        Put([NEWLINE]);
        WriteIndent();
      }
      Put([if e.EndObject? then RBRACE else RBRACKET]);
      ok := true;
    }

    /** Visits a value: every part in order, up to the first call that fails. */
    method Accept(v: Value) returns (ok: bool)
      requires WriteAll(style, Contents(), EventsOf(v, false)).Ran?
      modifies this
      ensures Ran(ok, Contents()) == WriteAll(style, old(Contents()), EventsOf(v, false))
      decreases v, 1
    {
      if v.Array? {
        ok := AcceptArray(v.items);
      } else if v.Object? {
        ok := AcceptObject(v.members);
      } else {
        assert EventsOf(v, false)[1..] == [];
        ok := Call(EventsOf(v, false)[0]);
      }
    }

    method AcceptArray(items: seq<Value>) returns (ok: bool)
      requires WriteAll(style, Contents(), EventsOf(Array(items), false)).Ran?
      modifies this
      ensures Ran(ok, Contents()) == WriteAll(style, old(Contents()), EventsOf(Array(items), false))
      decreases items, 0
    {
      hide Write, CanWrite;
      ghost var end := [EndArray(|items|)];
      ghost var whole := WriteAll(style, Contents(), EventsOf(Array(items), false));
      assert EventsOf(Array(items), false)[1..] == ItemEvents(items, false) + end;
      ok := Call(StartArray);
      if !ok {
        return;
      }
      var i := 0;
      while i < |items|
        invariant i <= |items|
        invariant WriteAll(style, Contents(), ItemEvents(items[i..], false) + end) == whole
      {
        assert items[i..][1..] == items[i + 1..];
        ghost var first, rest := EventsOf(items[i], false), ItemEvents(items[i + 1..], false) + end;
        assert ItemEvents(items[i..], false) + end == first + rest;
        WriteConcat(style, Contents(), first, rest);
        ok := Accept(items[i]);
        if !ok {
          return;
        }
        i := i + 1;
      }
      assert [] + end == end && end[1..] == [];
      ok := Call(EndArray(|items|));
    }

    method AcceptObject(members: seq<Member>) returns (ok: bool)
      requires WriteAll(style, Contents(), EventsOf(Object(members), false)).Ran?
      modifies this
      ensures Ran(ok, Contents()) == WriteAll(style, old(Contents()), EventsOf(Object(members), false))
      decreases members, 0
    {
      hide Write, CanWrite;
      ghost var end := [EndObject(|members|)];
      ghost var whole := WriteAll(style, Contents(), EventsOf(Object(members), false));
      assert EventsOf(Object(members), false)[1..] == MemberEvents(members, false) + end;
      ok := Call(StartObject);
      if !ok {
        return;
      }
      var i := 0;
      while i < |members|
        invariant i <= |members|
        invariant WriteAll(style, Contents(), MemberEvents(members[i..], false) + end) == whole
      {
        assert members[i..][1..] == members[i + 1..];
        ghost var first, rest := EventsOf(members[i].value, false), MemberEvents(members[i + 1..], false) + end;
        assert MemberEvents(members[i..], false) + end == [KeyEvent(members[i].name)] + (first + rest);
        assert ([KeyEvent(members[i].name)] + (first + rest))[1..] == first + rest;
        ok := Call(KeyEvent(members[i].name));
        if !ok {
          return;
        }
        WriteConcat(style, Contents(), first, rest);
        ok := Accept(members[i].value);
        if !ok {
          return;
        }
        i := i + 1;
      }
      assert [] + end == end && end[1..] == [];
      ok := Call(EndObject(|members|));
    }

    /** One handler call. */
    method Call(e: Event) returns (ok: bool)
      requires CanWrite(Contents(), e)
      modifies this
      ensures Result(ok, Contents()) == Write(style, old(Contents()), e)
    {
      if e.StartObject? || e.StartArray? {
        ok := StartContainer(e);
      } else if e.EndObject? || e.EndArray? {
        ok := EndContainer(e);
      } else {
        ok := Scalar(e);
      }
    }
  }
}

/** Any sequence of handler calls a writer accepts, not only those of a visit, writes the text of exactly one value. */
module EventRuns {
  import opened Bytes
  import opened Events
  import opened Document
  import opened Reading
  import opened RoundTrip
  import W = Writing

  predicate IsNumber(e: Event) {
    e.IntEvent? || e.UintEvent? || e.Int64Event? || e.Uint64Event?
  }

  /** A call passes a number its parameter type can hold. */
  predicate WellTyped(e: Event) {
    && (e.IntEvent? ==> InInt(e.n)) && (e.UintEvent? ==> InUint(e.n))
    && (e.Int64Event? ==> InInt64(e.n)) && (e.Uint64Event? ==> InUint64(e.n))
  }

  /** A string comes next as a name. */
  predicate AtName(levels: seq<W.Level>) {
    |levels| > 0 && !levels[|levels| - 1].inArray && levels[|levels| - 1].valueCount % 2 == 0
  }

  /**
   * The event a reader reports for what a call writes: numbers by their value, strings by their place,
   * and the true count of a container whatever count the call was given.
   */
  function Normal(levels: seq<W.Level>, e: Event): Event {
    if IsNumber(e) then ReadNumber(e.n)
    else if e.StringEvent? || e.KeyEvent? then if AtName(levels) then KeyEvent(e.str) else StringEvent(e.str)
    else if e.EndObject? && |levels| > 0 then EndObject(levels[|levels| - 1].valueCount / 2)
    else if e.EndArray? && |levels| > 0 then EndArray(levels[|levels| - 1].valueCount)
    else e
  }

  function Normalize(style: W.Style, sink: W.Sink, evs: seq<Event>): seq<Event>
    decreases |evs|
  {
    if |evs| == 0 || !W.CanWrite(sink, evs[0]) then []
    else [Normal(sink.levels, evs[0])] + Normalize(style, W.Write(style, sink, evs[0]).sink, evs[1..])
  }

  /** A writer cannot tell a call from its normal form. */
  lemma NormalWritesSame(style: W.Style, sink: W.Sink, e: Event)
    requires W.CanWrite(sink, e) && WellTyped(e)
    ensures W.CanWrite(sink, Normal(sink.levels, e))
    ensures W.Write(style, sink, Normal(sink.levels, e)) == W.Write(style, sink, e)
    ensures WellTyped(Normal(sink.levels, e)) && Normal(sink.levels, Normal(sink.levels, e)) == Normal(sink.levels, e)
  {
    hide W.PrefixText, W.StringText, W.IntegerText, W.ClosingText;
  }

  lemma {:induction false} NormalizeWritesSame(style: W.Style, sink: W.Sink, evs: seq<Event>)
    requires forall e | e in evs :: WellTyped(e)
    requires W.WriteAll(style, sink, evs).Ran? && W.WriteAll(style, sink, evs).ok
    ensures W.WriteAll(style, sink, Normalize(style, sink, evs)) == W.WriteAll(style, sink, evs)
    ensures IsNormal(style, sink, Normalize(style, sink, evs)) && |Normalize(style, sink, evs)| == |evs|
    decreases |evs|
  {
    if |evs| > 0 {
      hide Normal, W.Write, W.CanWrite;
      NormalWritesSame(style, sink, evs[0]);
      var next := W.Write(style, sink, evs[0]).sink;
      NormalizeWritesSame(style, next, evs[1..]);
      var n := Normalize(style, sink, evs);
      assert n[1..] == Normalize(style, next, evs[1..]);
    }
  }

  /** Every call is accepted and in normal form. */
  predicate IsNormal(style: W.Style, sink: W.Sink, evs: seq<Event>)
    decreases |evs|
  {
    |evs| > 0 ==>
      && W.CanWrite(sink, evs[0]) && WellTyped(evs[0]) && Normal(sink.levels, evs[0]) == evs[0]
      && W.Write(style, sink, evs[0]).ok
      && IsNormal(style, W.Write(style, sink, evs[0]).sink, evs[1..])
  }

  /** The sink after all of a normal run. */
  function End(style: W.Style, sink: W.Sink, evs: seq<Event>): W.Sink
    requires IsNormal(style, sink, evs)
    decreases |evs|
  {
    if |evs| == 0 then sink else End(style, W.Write(style, sink, evs[0]).sink, evs[1..])
  }

  lemma {:induction false} EndRuns(style: W.Style, sink: W.Sink, evs: seq<Event>)
    requires IsNormal(style, sink, evs)
    ensures W.WriteAll(style, sink, evs) == W.Ran(true, End(style, sink, evs))
    decreases |evs|
  {
    if |evs| > 0 {
      EndRuns(style, W.Write(style, sink, evs[0]).sink, evs[1..]);
    }
  }

  /** A normal run is normal from any point on, whatever wrote the part before. */
  lemma {:induction false} Suffix(style: W.Style, sink: W.Sink, evs: seq<Event>, n: nat)
    requires IsNormal(style, sink, evs) && n <= |evs|
    ensures var r := W.WriteAll(style, sink, evs[..n]);
            && r.Ran? && r.ok && IsNormal(style, r.sink, evs[n..])
            && End(style, r.sink, evs[n..]) == End(style, sink, evs)
    decreases n
  {
    if n > 0 {
      hide Normal, W.Write, W.CanWrite;
      var next := W.Write(style, sink, evs[0]).sink;
      Suffix(style, next, evs[1..], n - 1);
      assert evs[..n][1..] == evs[1..][..n - 1];
      assert evs[n..] == evs[1..][n - 1..];
    } else {
      assert evs[0..] == evs;
    }
  }

  /** Every container that is closed has fewer than 2^32 elements or members. */
  predicate SmallContainers(evs: seq<Event>) {
    forall e | e in evs :: e.EndObject? || e.EndArray? ==> e.count < TWO_32
  }

  /** A run that starts a value and in the end closes what it opened starts with all events of one value. */
  lemma {:induction false} ValueAhead(style: W.Style, sink: W.Sink, evs: seq<Event>) returns (v: Value, n: nat)
    requires IsNormal(style, sink, evs) && SmallContainers(evs) && |End(style, sink, evs).levels| <= |sink.levels|
    requires |evs| > 0 && !evs[0].EndArray? && !evs[0].EndObject? && !AtName(sink.levels)
    ensures Valid(v, false) && W.Writable(style.ascii, v) && W.Awaits(sink, v.String?)
    ensures 0 < n <= |evs| && evs[..n] == EventsOf(v, true)
    decreases |evs|, 1
  {
    var e := evs[0];
    if e.StartArray? || e.StartObject? {
      v, n := ContainerAhead(style, sink, evs);
    } else {
      n := 1;
      v := if e.NullEvent? then Null else if e.BoolEvent? then Bool(e.b)
           else if e.StringEvent? then String(e.str) else OfInteger(e.n);
      hide W.StringText;
    }
  }

  lemma {:induction false} ContainerAhead(style: W.Style, sink: W.Sink, evs: seq<Event>) returns (v: Value, n: nat)
    requires IsNormal(style, sink, evs) && SmallContainers(evs) && |End(style, sink, evs).levels| <= |sink.levels|
    requires |evs| > 0 && (evs[0].StartArray? || evs[0].StartObject?) && !AtName(sink.levels)
    ensures Valid(v, false) && W.Writable(style.ascii, v) && W.Awaits(sink, false) && !v.String?
    ensures 0 < n <= |evs| && evs[..n] == EventsOf(v, true)
    decreases |evs|, 0
  {
    hide IsNormal, End, W.ItemsText, ItemEvents, MemberEvents, AllValid, AllMembersValid;
    var next, outer := Opens(style, sink, evs);
    if evs[0].StartArray? {
      var items, k := ItemsAhead(style, next, outer, 0, evs[1..]);
      v, n := Array(items), k + 2;
      assert evs[..n] == [StartArray] + evs[1..][..k] + [evs[1..][k]];
      assert EventsOf(v, true) == [StartArray] + ItemEvents(items, true) + [EndArray(|items|)];
    } else {
      var members, k := MembersAhead(style, next, outer, 0, evs[1..]);
      v, n := Object(members), k + 2;
      assert evs[..n] == [StartObject] + evs[1..][..k] + [evs[1..][k]];
      assert EventsOf(v, true) == [StartObject] + MemberEvents(members, true) + [EndObject(|members|)];
    }
  }

  lemma Opens(style: W.Style, sink: W.Sink, evs: seq<Event>) returns (next: W.Sink, outer: seq<W.Level>)
    requires IsNormal(style, sink, evs) && |evs| > 0 && (evs[0].StartArray? || evs[0].StartObject?) && !AtName(sink.levels)
    ensures IsNormal(style, next, evs[1..]) && End(style, next, evs[1..]) == End(style, sink, evs)
    ensures next.levels == outer + [W.Level(0, evs[0].StartArray?)] && |outer| == |sink.levels|
    ensures W.Awaits(sink, false)
  {
    hide W.PrefixText;
    next, outer := W.Write(style, sink, evs[0]).sink, W.Prefix(style.layout, sink).levels;
  }

  lemma NoItems(ascii: bool)
    ensures ItemEvents([], true) == [] && AllValid([], false) && W.AllWritable(ascii, [])
    ensures MemberEvents([], true) == [] && AllMembersValid([], false) && W.AllMembersWritable(ascii, [])
  {
  }

  lemma ConsItem(ascii: bool, v: Value, more: seq<Value>)
    ensures ItemEvents([v] + more, true) == EventsOf(v, true) + ItemEvents(more, true)
    ensures Valid(v, false) && AllValid(more, false) ==> AllValid([v] + more, false)
    ensures W.Writable(ascii, v) && W.AllWritable(ascii, more) ==> W.AllWritable(ascii, [v] + more)
  {
    hide EventsOf, Valid, W.Writable;
    assert ([v] + more)[1..] == more;
  }

  lemma ConsMember(ascii: bool, m: Member, more: seq<Member>)
    ensures MemberEvents([m] + more, true) == [KeyEvent(m.name)] + EventsOf(m.value, true) + MemberEvents(more, true)
    ensures Valid(m.value, false) && AllMembersValid(more, false) ==> AllMembersValid([m] + more, false)
    ensures W.StringText(ascii, m.name).ok && W.Writable(ascii, m.value) && W.AllMembersWritable(ascii, more)
            ==> W.AllMembersWritable(ascii, [m] + more)
  {
    hide EventsOf, Valid, W.Writable, W.StringText;
    assert ([m] + more)[1..] == more;
  }

  lemma Regroup(a: seq<Event>, b: seq<Event>, c: seq<Event>)
    ensures a + b + c == a + (b + c)
  {
  }

  lemma Slices(evs: seq<Event>, k: nat, m: nat)
    requires k + m <= |evs|
    ensures evs[..k + m] == evs[..k] + evs[k..][..m]
    ensures k + m < |evs| ==> evs[k..][m] == evs[k + m]
  {
  }

  /** Inside an array: the events of some items and then the end of the array. */
  lemma {:induction false} ItemsAhead(style: W.Style, sink: W.Sink, outer: seq<W.Level>, count: nat, evs: seq<Event>)
    returns (items: seq<Value>, n: nat)
    requires IsNormal(style, sink, evs) && SmallContainers(evs)
    requires sink.levels == outer + [W.Level(count, true)] && |End(style, sink, evs).levels| <= |outer|
    ensures AllValid(items, false) && W.AllWritable(style.ascii, items) && |items| <= n
    ensures n < |evs| && evs[..n] == ItemEvents(items, true) && evs[n] == EndArray(count + |items|)
    decreases |evs|, 2
  {
    hide AllValid, W.AllWritable, ItemEvents, IsNormal, End, W.ValueText, EventsOf, Valid, W.Writable, W.PrefixText;
    InArray(style, sink, outer, count, evs);
    if evs[0].EndArray? {
      items, n := [], 0;
      NoItems(style.ascii);
    } else {
      var v, k := ValueAhead(style, sink, evs);
      var next := AfterItem(style, sink, outer, W.Level(count, true), evs, v, k);
      var more, m := ItemsAhead(style, next, outer, count + 1, evs[k..]);
      items, n := [v] + more, k + m;
      ConsItem(style.ascii, v, more);
      Slices(evs, k, m);
    }
  }

  lemma InArray(style: W.Style, sink: W.Sink, outer: seq<W.Level>, count: nat, evs: seq<Event>)
    requires IsNormal(style, sink, evs)
    requires sink.levels == outer + [W.Level(count, true)] && |End(style, sink, evs).levels| <= |outer|
    ensures |evs| > 0 && !evs[0].EndObject? && (evs[0].EndArray? ==> evs[0] == EndArray(count))
    ensures !AtName(sink.levels)
  {
    hide W.Write;
  }

  /** The writer after a value whose events are ahead. */
  lemma AfterItem(style: W.Style, sink: W.Sink, outer: seq<W.Level>, level: W.Level, evs: seq<Event>, v: Value, k: nat)
    returns (next: W.Sink)
    requires IsNormal(style, sink, evs) && sink.levels == outer + [level]
    requires Valid(v, false) && W.Writable(style.ascii, v) && W.Awaits(sink, v.String?)
    requires k <= |evs| && evs[..k] == EventsOf(v, true)
    ensures IsNormal(style, next, evs[k..]) && End(style, next, evs[k..]) == End(style, sink, evs)
    ensures next.levels == outer + [W.Level(level.valueCount + 1, level.inArray)]
  {
    hide IsNormal, End, W.ValueText, EventsOf, Valid, W.Writable, W.PrefixText, W.WriteAll, W.AfterValue;
    W.WritesValue(style, sink, v, true);
    Suffix(style, sink, evs, k);
    var text := W.ValueText(style, |sink.levels|, v);
    W.AfterValueInside(style, sink, outer, level, text);
    next := W.AfterValue(style, sink, text);
  }

  lemma {:induction false} MembersAhead(style: W.Style, sink: W.Sink, outer: seq<W.Level>, count: nat, evs: seq<Event>)
    returns (members: seq<Member>, n: nat)
    requires IsNormal(style, sink, evs) && SmallContainers(evs)
    requires sink.levels == outer + [W.Level(2 * count, false)] && |End(style, sink, evs).levels| <= |outer|
    ensures AllMembersValid(members, false) && W.AllMembersWritable(style.ascii, members) && |members| <= n
    ensures n < |evs| && evs[..n] == MemberEvents(members, true) && evs[n] == EndObject(count + |members|)
    decreases |evs|, 2
  {
    hide AllMembersValid, W.AllMembersWritable, MemberEvents, IsNormal, End, W.ValueText, EventsOf, Valid,
         W.Writable, W.PrefixText, W.StringText;
    InObject(style, sink, outer, count, evs);
    if evs[0].EndObject? {
      members, n := [], 0;
      NoItems(style.ascii);
    } else {
      var name := evs[0].str;
      var named := AfterName(style, sink, outer, count, evs);
      var v, k := ValueAhead(style, named, evs[1..]);
      var next := AfterItem(style, named, outer, W.Level(2 * count + 1, false), evs[1..], v, k);
      var rest := evs[1..][k..];
      var more, m := MembersAhead(style, next, outer, count + 1, rest);
      members, n := [Member(name, v)] + more, 1 + k + m;
      ConsMember(style.ascii, Member(name, v), more);
      Slices(evs[1..], k, m);
      Slices(evs, 1, k + m);
      assert evs[..1] == [KeyEvent(name)];
      Regroup([KeyEvent(name)], EventsOf(v, true), MemberEvents(more, true));
    }
  }

  lemma CallInObject(sink: W.Sink, outer: seq<W.Level>, count: nat, e: Event)
    requires W.CanWrite(sink, e) && Normal(sink.levels, e) == e && sink.levels == outer + [W.Level(2 * count, false)]
    ensures if e.EndObject? then e == EndObject(count) else e.KeyEvent?
  {
  }

  lemma InObject(style: W.Style, sink: W.Sink, outer: seq<W.Level>, count: nat, evs: seq<Event>)
    requires IsNormal(style, sink, evs)
    requires sink.levels == outer + [W.Level(2 * count, false)] && |End(style, sink, evs).levels| <= |outer|
    ensures |evs| > 0
    ensures if evs[0].EndObject? then evs[0] == EndObject(count)
            else evs[0].KeyEvent? && W.StringText(style.ascii, evs[0].str).ok
  {
    hide Normal, W.CanWrite, W.PrefixText, W.ClosingText, W.StringText;
    if |evs| > 0 {
      CallInObject(sink, outer, count, evs[0]);
    }
  }

  lemma NameLevels(style: W.Style, sink: W.Sink, outer: seq<W.Level>, count: nat, e: Event)
    requires sink.levels == outer + [W.Level(2 * count, false)] && e.KeyEvent?
    ensures W.CanWrite(sink, e) && W.Write(style, sink, e).sink.levels == outer + [W.Level(2 * count + 1, false)]
  {
    hide W.StringText, W.PrefixText;
  }

  lemma AfterName(style: W.Style, sink: W.Sink, outer: seq<W.Level>, count: nat,
                  evs: seq<Event>) returns (named: W.Sink)
    requires IsNormal(style, sink, evs) && |evs| > 0 && evs[0].KeyEvent? && W.StringText(style.ascii, evs[0].str).ok
    requires sink.levels == outer + [W.Level(2 * count, false)] && |End(style, sink, evs).levels| <= |outer|
    ensures IsNormal(style, named, evs[1..]) && End(style, named, evs[1..]) == End(style, sink, evs)
    ensures named.levels == outer + [W.Level(2 * count + 1, false)]
    ensures |evs| > 1 && !evs[1].EndArray? && !evs[1].EndObject? && !AtName(named.levels)
  {
    hide Normal, W.Write, W.CanWrite;
    NameLevels(style, sink, outer, count, evs[0]);
    AfterNameNotEnd(style, sink, outer, count, evs);
    named := W.Write(style, sink, evs[0]).sink;
  }

  lemma AfterNameNotEnd(style: W.Style, sink: W.Sink, outer: seq<W.Level>, count: nat, evs: seq<Event>)
    requires IsNormal(style, sink, evs) && |evs| > 0 && evs[0].KeyEvent?
    requires sink.levels == outer + [W.Level(2 * count, false)] && |End(style, sink, evs).levels| <= |outer|
    ensures |evs| > 1 && !evs[1].EndArray? && !evs[1].EndObject?
  {
    hide W.Write, Normal;
    NameLevels(style, sink, outer, count, evs[0]);
    var named := W.Write(style, sink, evs[0]).sink;
    assert IsNormal(style, named, evs[1..]);
    if |evs| > 1 {
      assert W.CanWrite(named, evs[1..][0]);
    }
  }

  /** A writer has been given a whole document: one root, every container closed. */
  predicate Complete(run: W.Run) {
    run.Ran? && run.ok && run.sink.hasRoot && run.sink.levels == []
  }

  /**
   * Whatever calls complete a document, there is one value whose events are the calls in normal form and
   * whose text is the output.
   */
  lemma CompleteRunIsValue(style: W.Style, evs: seq<Event>) returns (v: Value)
    requires (forall e | e in evs :: WellTyped(e)) && SmallContainers(Normalize(style, W.EMPTY_SINK, evs))
    requires Complete(W.WriteAll(style, W.EMPTY_SINK, evs))
    ensures Valid(v, false) && W.Writable(style.ascii, v) && EventsOf(v, true) == Normalize(style, W.EMPTY_SINK, evs)
    ensures W.WriteAll(style, W.EMPTY_SINK, evs).sink.out == Stringify(style, v)
  {
    hide W.Write, W.CanWrite, W.ValueText, Normal, IsNormal, End, Valid, W.Writable, EventsOf, Normalize;
    NormalizeWritesSame(style, W.EMPTY_SINK, evs);
    var normal := Normalize(style, W.EMPTY_SINK, evs);
    EndRuns(style, W.EMPTY_SINK, normal);
    FirstCallStartsValue(style, normal);
    var k;
    v, k := ValueAhead(style, W.EMPTY_SINK, normal);
    W.WritesValue(style, W.EMPTY_SINK, v, true);
    Suffix(style, W.EMPTY_SINK, normal, k);
    NothingAfterRoot(style, W.AfterValue(style, W.EMPTY_SINK, W.ValueText(style, 0, v)), normal[k..]);
    assert normal[..k] == normal;
  }

  /** Both parsers read the output of any complete run as exactly its calls in normal form. */
  lemma CompleteRunReadsBack(flags: Flags, style: W.Style, evs: seq<Event>)
    requires W.ValidStyle(style) && (forall e | e in evs :: WellTyped(e))
    requires SmallContainers(Normalize(style, W.EMPTY_SINK, evs))
    requires Complete(W.WriteAll(style, W.EMPTY_SINK, evs))
    ensures var s := W.WriteAll(style, W.EMPTY_SINK, evs).sink.out;
            Parse(flags, s) == IterativeParse(flags, s) == Ok(|s|, Normalize(style, W.EMPTY_SINK, evs))
  {
    hide W.WriteAll, Normalize, EventsOf, W.ValueText;
    var v := CompleteRunIsValue(style, evs);
    ParsesBack(flags, style, v);
  }

  /** The calls a writer accepts, their normal form and its success do not depend on the layout. */
  lemma {:induction false} LayoutOnlyChangesText(a: W.Style, b: W.Style, sa: W.Sink, sb: W.Sink, evs: seq<Event>)
    requires a.ascii == b.ascii && sa.levels == sb.levels && sa.hasRoot == sb.hasRoot
    ensures Normalize(a, sa, evs) == Normalize(b, sb, evs) || !W.WriteAll(a, sa, evs).Ran? || !W.WriteAll(a, sa, evs).ok
    ensures var ra, rb := W.WriteAll(a, sa, evs), W.WriteAll(b, sb, evs);
            ra.Ran? == rb.Ran?
            && (ra.Ran? ==> ra.ok == rb.ok && ra.sink.levels == rb.sink.levels && ra.sink.hasRoot == rb.sink.hasRoot)
    decreases |evs|
  {
    if |evs| > 0 && W.CanWrite(sa, evs[0]) {
      hide Normal, W.PrefixText, W.ClosingText, W.TokenText;
      LayoutOnlyChangesText(a, b, W.Write(a, sa, evs[0]).sink, W.Write(b, sb, evs[0]).sink, evs[1..]);
    }
  }

  /** The pretty writer's text of any complete document is read as the same events as the plain writer's. */
  lemma PrettyReadsAsCompact(flags: Flags, ascii: bool, layout: W.Layout, evs: seq<Event>)
    requires W.ValidStyle(W.Style(layout, ascii)) && (forall e | e in evs :: WellTyped(e))
    requires SmallContainers(Normalize(W.Style(W.Compact, ascii), W.EMPTY_SINK, evs))
    requires Complete(W.WriteAll(W.Style(W.Compact, ascii), W.EMPTY_SINK, evs))
    ensures var plain := W.WriteAll(W.Style(W.Compact, ascii), W.EMPTY_SINK, evs);
            var pretty := W.WriteAll(W.Style(layout, ascii), W.EMPTY_SINK, evs);
            && Complete(pretty)
            && Parse(flags, pretty.sink.out).Ok? && Parse(flags, plain.sink.out).Ok?
            && Parse(flags, pretty.sink.out).evs == Parse(flags, plain.sink.out).evs
  {
    hide W.WriteAll, Normalize, Parse, IterativeParse;
    LayoutOnlyChangesText(W.Style(W.Compact, ascii), W.Style(layout, ascii), W.EMPTY_SINK, W.EMPTY_SINK, evs);
    CompleteRunReadsBack(flags, W.Style(W.Compact, ascii), evs);
    CompleteRunReadsBack(flags, W.Style(layout, ascii), evs);
  }

  lemma FirstCallStartsValue(style: W.Style, evs: seq<Event>)
    requires IsNormal(style, W.EMPTY_SINK, evs) && End(style, W.EMPTY_SINK, evs).hasRoot
    ensures |evs| > 0 && !evs[0].EndArray? && !evs[0].EndObject?
  {
  }

  lemma NothingAfterRoot(style: W.Style, sink: W.Sink, evs: seq<Event>)
    requires IsNormal(style, sink, evs) && sink.levels == [] && sink.hasRoot
    ensures evs == []
  {
  }
}

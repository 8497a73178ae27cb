/** DOM values, the events that describe them, and the document that rebuilds them from events on a stack. */
module Document {
  import opened Bytes
  import opened Events

  datatype NumberFlag = IntFlag | UintFlag | Int64Flag | Uint64Flag

  /** Flags a number carries besides its value: the integer types it can be read as. */
  type NumberFlags = set<NumberFlag>

  datatype Value =
    | Null
    | Bool(b: bool)
    | Number(n: int, flags: NumberFlags)
    | Double(literal: Text)
    | String(str: Text)
    | Array(items: seq<Value>)
    | Object(members: seq<Member>)

  datatype Member = Member(name: Text, value: Value)

  // Value constructors, one for each integer event.

  function OfInt(i: int): Value {
    Number(i, if i >= 0 then {IntFlag, Int64Flag, UintFlag, Uint64Flag} else {IntFlag, Int64Flag})
  }

  function OfUint(u: int): Value {
    Number(u, if u >= 0x8000_0000 then {UintFlag, Uint64Flag, Int64Flag}
              else {UintFlag, Uint64Flag, Int64Flag, IntFlag})
  }

  function OfInt64(i: int): Value {
    Number(i, if i >= 0 then
                {Int64Flag, Uint64Flag} + (if i < TWO_32 then {UintFlag} else {})
                + (if i < 0x8000_0000 then {IntFlag} else {})
              else {Int64Flag} + (if i >= -0x8000_0000 then {IntFlag} else {}))
  }

  function OfUint64(u: int): Value {
    Number(u, {Uint64Flag} + (if u < 0x8000_0000_0000_0000 then {Int64Flag} else {})
              + (if u < TWO_32 then {UintFlag} else {}) + (if u < 0x8000_0000 then {IntFlag} else {}))
  }

  predicate InInt(n: int) {
    -0x8000_0000 <= n < 0x8000_0000
  }

  predicate InUint(n: int) {
    0 <= n < TWO_32
  }

  predicate InInt64(n: int) {
    -0x8000_0000_0000_0000 <= n < 0x8000_0000_0000_0000
  }

  predicate InUint64(n: int) {
    0 <= n < TWO_64
  }

  /** The value of an integer event does not depend on which event reported it. */
  lemma ConstructorsAgree(n: int)
    ensures InInt(n) ==> OfInt(n) == OfInt64(n)
    ensures InInt(n) && InUint(n) ==> OfInt(n) == OfUint(n)
    ensures InUint(n) ==> OfUint(n) == OfUint64(n) == OfInt64(n)
    ensures InInt64(n) && InUint64(n) ==> OfInt64(n) == OfUint64(n)
  {
  }

  function OfInteger(n: int): Value {
    if n < 0 then OfInt64(n) else OfUint64(n)
  }

  /** Values whose numbers come from the constructors and whose sizes fit 32-bit size fields, with doubles or without. */
  predicate Valid(v: Value, doubles: bool)
    decreases v, 1
  {
    match v
    case Number(n, _) => (InInt64(n) || InUint64(n)) && v == OfInteger(n)
    case Double(_) => doubles
    case Array(items) => |items| < TWO_32 && AllValid(items, doubles)
    case Object(members) => |members| < TWO_32 && AllMembersValid(members, doubles)
    case _ => true
  }

  predicate AllValid(items: seq<Value>, doubles: bool)
    decreases items, 0
  {
    |items| > 0 ==> Valid(items[0], doubles) && AllValid(items[1..], doubles)
  }

  predicate AllMembersValid(members: seq<Member>, doubles: bool)
    decreases members, 0
  {
    |members| > 0 ==> Valid(members[0].value, doubles) && AllMembersValid(members[1..], doubles)
  }

  lemma {:induction false} DoublesMayBeMissing(v: Value)
    requires Valid(v, false)
    ensures Valid(v, true)
    decreases v, 1
  {
    if v.Array? {
      NoItemIsDouble(v.items);
    } else if v.Object? {
      NoMemberIsDouble(v.members);
    }
  }

  lemma {:induction false} NoItemIsDouble(items: seq<Value>)
    requires AllValid(items, false)
    ensures AllValid(items, true)
    decreases items, 0
  {
    if |items| > 0 {
      DoublesMayBeMissing(items[0]);
      NoItemIsDouble(items[1..]);
    }
  }

  lemma {:induction false} NoMemberIsDouble(members: seq<Member>)
    requires AllMembersValid(members, false)
    ensures AllMembersValid(members, true)
    decreases members, 0
  {
    if |members| > 0 {
      DoublesMayBeMissing(members[0].value);
      NoMemberIsDouble(members[1..]);
    }
  }

  // --------------------------------------------------------------- events

  /** The event a stored number is visited with: the first of the four types it can be read as. */
  function VisitNumber(n: int, flags: NumberFlags): Event {
    if IntFlag in flags then IntEvent(n)
    else if UintFlag in flags then UintEvent(n)
    else if Int64Flag in flags then Int64Event(n)
    else Uint64Event(n)
  }

  /** The event a reader reports for the decimal text of a number. */
  function ReadNumber(n: int): Event {
    if n < 0 then (if n >= -0x8000_0000 then IntEvent(n) else Int64Event(n))
    else if n < TWO_32 then UintEvent(n) else Uint64Event(n)
  }

  /** The events of a value as Accept visits it, or as a reader of its text reports it. */
  function EventsOf(v: Value, reading: bool): seq<Event>
    decreases v, 1
  {
    match v
    case Null => [NullEvent]
    case Bool(b) => [BoolEvent(b)]
    case Number(n, flags) => [if reading then ReadNumber(n) else VisitNumber(n, flags)]
    case Double(literal) => [DoubleEvent(literal)]
    case String(str) => [StringEvent(str)]
    case Array(items) => [StartArray] + ItemEvents(items, reading) + [EndArray(|items|)]
    case Object(members) => [StartObject] + MemberEvents(members, reading) + [EndObject(|members|)]
  }

  function ItemEvents(items: seq<Value>, reading: bool): seq<Event>
    decreases items, 0
  {
    if |items| == 0 then [] else EventsOf(items[0], reading) + ItemEvents(items[1..], reading)
  }

  function MemberEvents(members: seq<Member>, reading: bool): seq<Event>
    decreases members, 0
  {
    if |members| == 0 then []
    else [KeyEvent(members[0].name)] + EventsOf(members[0].value, reading) + MemberEvents(members[1..], reading)
  }

  // ---------------------------------------------------- rebuilding a value

  datatype Build = Built(stack: seq<Value>) | Underflow

  function Push(stack: seq<Value>, v: Value): Build {
    Built(stack + [v])
  }

  /** Alternating names and values as members. */
  function Pair(slots: seq<Value>): seq<Member>
    requires |slots| % 2 == 0
  {
    if |slots| == 0 then []
    else
      var name := if slots[0].String? then slots[0].str else [];
      [Member(name, slots[1])] + Pair(slots[2..])
  }

  /** Pops the given number of slots and makes them the content of the container below them. */
  function Collect(stack: seq<Value>, slots: nat, isObject: bool): Build
    requires isObject ==> slots % 2 == 0
  {
    if |stack| <= slots then Underflow
    else
      var base := |stack| - slots;
      Built(stack[..base - 1] + [if isObject then Object(Pair(stack[base..])) else Array(stack[base..])])
  }

  /** What one handler call does to the stack. */
  function Handle(stack: seq<Value>, e: Event): Build {
    match e
    case NullEvent => Push(stack, Null)
    case BoolEvent(b) => Push(stack, Bool(b))
    case IntEvent(n) => Push(stack, OfInt(n))
    case UintEvent(n) => Push(stack, OfUint(n))
    case Int64Event(n) => Push(stack, OfInt64(n))
    case Uint64Event(n) => Push(stack, OfUint64(n))
    case DoubleEvent(literal) => Push(stack, Double(literal))
    case StringEvent(str) => Push(stack, String(str))
    case KeyEvent(str) => Push(stack, String(str))
    case StartObject => Push(stack, Object([]))
    case EndObject(count) => Collect(stack, count * 2, true)
    case StartArray => Push(stack, Array([]))
    case EndArray(count) => Collect(stack, count, false)
  }

  function HandleAll(stack: seq<Value>, evs: seq<Event>): Build
    decreases |evs|
  {
    if |evs| == 0 then Built(stack)
    else
      match Handle(stack, evs[0])
      case Built(next) => HandleAll(next, evs[1..])
      case Underflow => Underflow
  }

  lemma {:induction false} HandleConcat(stack: seq<Value>, a: seq<Event>, b: seq<Event>)
    ensures HandleAll(stack, a).Built? ==> HandleAll(stack, a + b) == HandleAll(HandleAll(stack, a).stack, b)
    decreases |a|
  {
    if |a| == 0 {
      assert a + b == b;
    } else {
      assert (a + b)[1..] == a[1..] + b;
      var next := Handle(stack, a[0]);
      if next.Built? {
        HandleConcat(next.stack, a[1..], b);
      }
    }
  }

  /** The slots a member list occupies on the stack. */
  function Slots(members: seq<Member>): seq<Value> {
    if |members| == 0 then [] else [String(members[0].name), members[0].value] + Slots(members[1..])
  }

  lemma {:induction false} PairSlots(members: seq<Member>)
    ensures |Slots(members)| == |members| * 2
    ensures Pair(Slots(members)) == members
    decreases |members|
  {
    if |members| > 0 {
      PairSlots(members[1..]);
      assert Slots(members)[2..] == Slots(members[1..]);
    }
  }

  lemma NumberRebuilt(stack: seq<Value>, n: int, reading: bool)
    requires Valid(OfInteger(n), false)
    ensures Handle(stack, if reading then ReadNumber(n) else VisitNumber(n, OfInteger(n).flags))
         == Built(stack + [OfInteger(n)])
  {
    ConstructorsAgree(n);
    if !reading {
      var flags := OfInteger(n).flags;
      assert IntFlag in flags <==> InInt(n);
      assert UintFlag in flags <==> InUint(n);
      assert Int64Flag in flags <==> InInt64(n);
    }
  }

  /**
   * The events of a value leave exactly that value on the stack, on top of what was there: each end
   * event takes the children of its own container and nothing else.
   */
  lemma {:induction false} Rebuilds(stack: seq<Value>, v: Value, reading: bool)
    requires Valid(v, true)
    ensures HandleAll(stack, EventsOf(v, reading)) == Built(stack + [v])
    decreases v, 1
  {
    match v
    case Array(items) =>
      RebuildsItems(stack + [Array([])], items, reading);
      ArrayRebuilt(stack, items, ItemEvents(items, reading));
    case Object(members) =>
      RebuildsMembers(stack + [Object([])], members, reading);
      ObjectRebuilt(stack, members, MemberEvents(members, reading));
    case Number(n, _) =>
      NumberRebuilt(stack, n, reading);
      SingleEvent(stack, EventsOf(v, reading)[0]);
    case Double(_) =>
    case Null | Bool(_) | String(_) =>
      SingleEvent(stack, EventsOf(v, reading)[0]);
  }

  lemma SingleEvent(stack: seq<Value>, e: Event)
    ensures HandleAll(stack, [e]) == Handle(stack, e)
  {
  }

  lemma ArrayRebuilt(stack: seq<Value>, items: seq<Value>, inner: seq<Event>)
    requires HandleAll(stack + [Array([])], inner) == Built(stack + [Array([])] + items)
    ensures HandleAll(stack, [StartArray] + inner + [EndArray(|items|)]) == Built(stack + [Array(items)])
  {
    HandleOpening(stack, StartArray, inner, EndArray(|items|));
    assert (stack + [Array([])] + items)[|stack| + 1..] == items;
    assert (stack + [Array([])] + items)[..|stack|] == stack;
  }

  lemma ObjectRebuilt(stack: seq<Value>, members: seq<Member>, inner: seq<Event>)
    requires HandleAll(stack + [Object([])], inner) == Built(stack + [Object([])] + Slots(members))
    ensures HandleAll(stack, [StartObject] + inner + [EndObject(|members|)]) == Built(stack + [Object(members)])
  {
    var slots := Slots(members);
    PairSlots(members);
    HandleOpening(stack, StartObject, inner, EndObject(|members|));
    assert (stack + [Object([])] + slots)[|stack| + 1..] == slots;
    assert (stack + [Object([])] + slots)[..|stack|] == stack;
  }

  /** A container's events: its start, its content, its end. */
  lemma HandleOpening(stack: seq<Value>, start: Event, inner: seq<Event>, end: Event)
    requires start.StartArray? || start.StartObject?
    requires var begun := stack + [if start.StartArray? then Array([]) else Object([])];
             HandleAll(begun, inner).Built?
    ensures var begun := stack + [if start.StartArray? then Array([]) else Object([])];
            HandleAll(stack, [start] + inner + [end]) == Handle(HandleAll(begun, inner).stack, end)
  {
    var begun := stack + [if start.StartArray? then Array([]) else Object([])];
    assert ([start] + inner + [end])[1..] == inner + [end];
    HandleConcat(begun, inner, [end]);
    assert [end][1..] == [];
  }

  lemma {:induction false} RebuildsItems(stack: seq<Value>, items: seq<Value>, reading: bool)
    requires AllValid(items, true)
    ensures HandleAll(stack, ItemEvents(items, reading)) == Built(stack + items)
    decreases items, 0
  {
    if |items| > 0 {
      Rebuilds(stack, items[0], reading);
      HandleConcat(stack, EventsOf(items[0], reading), ItemEvents(items[1..], reading));
      RebuildsItems(stack + [items[0]], items[1..], reading);
      assert stack + [items[0]] + items[1..] == stack + items;
    } else {
      assert stack + items == stack;
    }
  }

  lemma {:induction false} RebuildsMembers(stack: seq<Value>, members: seq<Member>, reading: bool)
    requires AllMembersValid(members, true)
    ensures HandleAll(stack, MemberEvents(members, reading)) == Built(stack + Slots(members))
    decreases members, 0
  {
    if |members| > 0 {
      var m := members[0];
      var rest := MemberEvents(members[1..], reading);
      var evs := EventsOf(m.value, reading);
      Rebuilds(stack + [String(m.name)], m.value, reading);
      HandleConcat(stack + [String(m.name)], evs, rest);
      assert ([KeyEvent(m.name)] + evs + rest)[1..] == evs + rest;
      RebuildsMembers(stack + [String(m.name)] + [m.value], members[1..], reading);
      assert stack + [String(m.name)] + [m.value] + Slots(members[1..]) == stack + Slots(members);
    } else {
      assert stack + Slots(members) == stack;
    }
  }

  // --------------------------------------------------------- the document

  lemma PairStep(stack: seq<Value>, k: nat)
    requires k + 2 <= |stack| && (|stack| - k) % 2 == 0
    ensures Pair(stack[k..]) == [Member(if stack[k].String? then stack[k].str else [], stack[k + 1])] + Pair(stack[k + 2..])
  {
    assert stack[k..][2..] == stack[k + 2..];
  }

  lemma PairNone(stack: seq<Value>)
    ensures Pair(stack[|stack|..]) == []
  {
  }

  /** The document as a handler: one method call per event, on a stack of values under construction. */
  class GenericDocument {
    var stack: seq<Value>

    constructor ()
      ensures stack == []
    {
      stack := [];
    }

    /** The handler call for an event; popping more than the stack holds is an assertion of the source. */
    method OnEvent(e: Event)
      requires Handle(stack, e).Built?
      modifies this
      ensures Built(stack) == Handle(old(stack), e)
    {
      match e
      case EndObject(count) => EndObject(count);
      case EndArray(count) => EndArray(count);
      case StartObject => stack := stack + [Object([])];
      case StartArray => stack := stack + [Array([])];
      case NullEvent => stack := stack + [Null];
      case BoolEvent(b) => stack := stack + [Bool(b)];
      case IntEvent(n) => stack := stack + [OfInt(n)];
      case UintEvent(n) => stack := stack + [OfUint(n)];
      case Int64Event(n) => stack := stack + [OfInt64(n)];
      case Uint64Event(n) => stack := stack + [OfUint64(n)];
      case DoubleEvent(literal) => stack := stack + [Double(literal)];
      case StringEvent(str) => stack := stack + [String(str)];
      case KeyEvent(str) => stack := stack + [String(str)];
    }

    method EndObject(memberCount: nat)
      requires |stack| > memberCount * 2
      modifies this
      ensures Built(stack) == Collect(old(stack), memberCount * 2, true)
    {
      var base := |stack| - memberCount * 2;
      var members := Members(base, memberCount);
      stack := stack[..base - 1] + [Object(members)];
    }

    /** The slots from base on, in pairs of a name and a value. */
    method Members(base: nat, memberCount: nat) returns (members: seq<Member>)
      requires base + 2 * memberCount == |stack|
      ensures members == Pair(stack[base..])
    {
      hide Pair;
      members := [];
      for i := 0 to memberCount
        invariant members + Pair(stack[base + 2 * i..]) == Pair(stack[base..])
      {
        var name, value := stack[base + 2 * i], stack[base + 2 * i + 1];
        PairStep(stack, base + 2 * i);
        members := members + [Member(if name.String? then name.str else [], value)];
      }
      PairNone(stack);
    }

    method EndArray(elementCount: nat)
      requires |stack| > elementCount
      modifies this
      ensures Built(stack) == Collect(old(stack), elementCount, false)
    {
      var base := |stack| - elementCount;
      stack := stack[..base - 1] + [Array(stack[base..])];
    }

    /** Populates the document from a sequence of events. */
    method Populate(evs: seq<Event>)
      requires HandleAll(stack, evs).Built?
      modifies this
      ensures Built(stack) == HandleAll(old(stack), evs)
    {
      var i := 0;
      while i < |evs|
        invariant 0 <= i <= |evs|
        invariant HandleAll(stack, evs[i..]) == HandleAll(old(stack), evs)
      {
        assert evs[i..][1..] == evs[i + 1..];
        OnEvent(evs[i]);
        i := i + 1;
      }
    }
  }
}

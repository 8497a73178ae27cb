/** The streaming validator's verdict on a complete value is the meaning of its schema. */
module SchemaVerdict {
  import opened Bytes
  import opened Events
  import opened Document
  import opened Options
  import opened Schemas

  function FeedAll(v: Validator, evs: seq<Event>): (r: Validator)
    requires Consistent(v)
    ensures Consistent(r) && r.root == v.root
    decreases |evs|
  {
    if |evs| == 0 then v else FeedAll(Feed(v, evs[0]), evs[1..])
  }

  lemma {:induction false} FeedConcat(v: Validator, a: seq<Event>, b: seq<Event>)
    requires Consistent(v)
    ensures FeedAll(v, a + b) == FeedAll(FeedAll(v, a), b)
    decreases |a|
  {
    if |a| == 0 {
      assert a + b == b;
    } else {
      hide Feed;
      assert (a + b)[1..] == a[1..] + b;
      FeedConcat(Feed(v, a[0]), a[1..], b);
    }
  }

  lemma FeedOne(v: Validator, e: Event)
    requires Consistent(v)
    ensures FeedAll(v, [e]) == Feed(v, e)
  {
    assert [e][1..] == [];
  }

  /** A validator that has failed stays as it is. */
  lemma {:induction false} FailedStays(v: Validator, evs: seq<Event>)
    requires Consistent(v) && !v.valid
    ensures FeedAll(v, evs) == v
    decreases |evs|
  {
    if |evs| > 0 {
      FailedStays(v, evs[1..]);
    }
  }

  // ----------------------------------------------- what open values see

  /** These validators have been given evs and become those. */
  ghost predicate EachFed(vs: seq<Validator>, ws: seq<Validator>, evs: seq<Event>) {
    |vs| == |ws| && forall j | 0 <= j < |vs| :: Consistent(vs[j]) && ws[j] == FeedAll(vs[j], evs)
  }

  /** Nothing has happened to the contexts but that their parallel validators have been given evs. */
  ghost predicate StackFed(a: seq<Context>, b: seq<Context>, evs: seq<Event>) {
    |a| == |b| && forall i | 0 <= i < |a| ::
      b[i] == a[i].(validators := b[i].validators) && EachFed(a[i].validators, b[i].validators, evs)
  }

  lemma EachFedThen(a: seq<Validator>, b: seq<Validator>, c: seq<Validator>, x: seq<Event>, y: seq<Event>)
    requires EachFed(a, b, x) && EachFed(b, c, y)
    ensures EachFed(a, c, x + y)
  {
    forall j | 0 <= j < |a| ensures c[j] == FeedAll(a[j], x + y) {
      FeedConcat(a[j], x, y);
    }
  }

  lemma StackFedThen(a: seq<Context>, b: seq<Context>, c: seq<Context>, x: seq<Event>, y: seq<Event>)
    requires StackFed(a, b, x) && StackFed(b, c, y)
    ensures StackFed(a, c, x + y)
  {
    hide EachFed;
    forall i | 0 <= i < |a| ensures EachFed(a[i].validators, c[i].validators, x + y) {
      EachFedThen(a[i].validators, b[i].validators, c[i].validators, x, y);
    }
  }

  lemma ContextFeeds(root: Schema, c: Context, e: Event)
    requires ConsistentContext(root, c)
    ensures EachFed(c.validators, FeedContext(root, c, e).validators, [e])
  {
    hide Feed, FeedAll;
    forall j | 0 <= j < |c.validators|
      ensures FeedContext(root, c, e).validators[j] == FeedAll(c.validators[j], [e])
    {
      FeedOne(c.validators[j], e);
    }
  }

  lemma BroadcastFeeds(root: Schema, stack: seq<Context>, e: Event)
    requires forall i | 0 <= i < |stack| :: ConsistentContext(root, stack[i])
    ensures StackFed(stack, Broadcast(root, stack, e), [e])
  {
    hide EachFed, ConsistentContext;
    var r := Broadcast(root, stack, e);
    forall i | 0 <= i < |stack| ensures EachFed(stack[i].validators, r[i].validators, [e]) {
      assert r[i] == FeedContext(root, stack[i], e);
      ContextFeeds(root, stack[i], e);
    }
  }

  // ------------------------------------------------------- single events

  /** The check of an event is the check of the value it begins, whatever integer type reports a number. */
  lemma AdmitsFirst(s: Schema, x: Value, reading: bool)
    requires Valid(x, true)
    ensures |EventsOf(x, reading)| > 0 && !EventsOf(x, reading)[0].KeyEvent? && !IsEnd(EventsOf(x, reading)[0])
    ensures Admits(s, EventsOf(x, reading)[0]) == Admissible(s, x)
  {
    hide LengthWithin;
  }

  /** Each validator has reached the verdict that its schema means. */
  predicate Agree(ss: seq<Schema>, vs: seq<Validator>, x: Value) {
    |ss| == |vs| && forall j | 0 <= j < |vs| :: vs[j].valid == Conforms(ss[j], x)
  }

  lemma AgreeAll(ss: seq<Schema>, vs: seq<Validator>, x: Value)
    requires Agree(ss, vs, x)
    ensures AllPass(vs) == AllConform(ss, x)
  {
    hide Conforms;
  }

  lemma AgreeSome(ss: seq<Schema>, vs: seq<Validator>, x: Value)
    requires Agree(ss, vs, x)
    ensures SomePass(vs) == SomeConforms(ss, x)
  {
    hide Conforms;
  }

  lemma AgreeOne(ss: seq<Schema>, vs: seq<Validator>, x: Value)
    requires Agree(ss, vs, x)
    ensures OnePasses(vs) == OneConforms(ss, x)
  {
    hide Conforms;
    AgreeSome(ss, vs, x);
  }

  lemma AgreeSlice(ss: seq<Schema>, vs: seq<Validator>, x: Value, a: nat, b: nat)
    requires Agree(ss, vs, x) && a <= b <= |ss|
    ensures Agree(ss[a..b], vs[a..b], x)
  {
    hide Conforms;
  }

  /** The parallel validators together say what the combining keywords mean. */
  lemma EndValueMeaning(s: Schema, x: Value, vs: seq<Validator>)
    requires Agree(Parallel(s), vs, x)
    ensures EndValue(s, vs) == Combined(s, x)
  {
    hide Conforms, AllPass, SomePass, OnePasses, AllConform, SomeConforms, OneConforms;
    var a, b, c := |s.allOf|, |s.allOf| + |s.anyOf|, |s.allOf| + |s.anyOf| + |s.oneOf|;
    if s.negated.Some? {
      assert Parallel(s)[c] == s.negated.value;
      assert vs[c].valid == Conforms(s.negated.value, x);
    }
    hide Agree;
    ParallelSlices(s);
    assert vs[..a] == vs[0..a];
    AgreeSlice(Parallel(s), vs, x, 0, a);
    AgreeSlice(Parallel(s), vs, x, a, b);
    AgreeSlice(Parallel(s), vs, x, b, c);
    AgreeAll(s.allOf, vs[0..a], x);
    AgreeSome(s.anyOf, vs[a..b], x);
    AgreeOne(s.oneOf, vs[b..c], x);
  }

  lemma ParallelSlices(s: Schema)
    ensures var a, b, c := |s.allOf|, |s.allOf| + |s.anyOf|, |s.allOf| + |s.anyOf| + |s.oneOf|;
            && c <= |Parallel(s)| && Parallel(s)[0..a] == s.allOf && Parallel(s)[a..b] == s.anyOf
            && Parallel(s)[b..c] == s.oneOf
  {
  }

  // ------------------------------------------------------ a whole value

  /** The parallel validators of a schema, fed evs from the start, say what their schemas mean. */
  ghost predicate VerdictsAgree(s: Schema, x: Value, evs: seq<Event>) {
    forall j | 0 <= j < |Parallel(s)| :: FeedAll(New(Parallel(s)[j]), evs).valid == Conforms(Parallel(s)[j], x)
  }

  lemma FedAgree(s: Schema, x: Value, vs: seq<Validator>, evs: seq<Event>)
    requires VerdictsAgree(s, x, evs) && EachFed(Fresh(s), vs, evs)
    ensures Agree(Parallel(s), vs, x)
  {
    hide Conforms, FeedAll, Parallel;
  }

  /** The stack once the first event of a value has been given to the parallel validators. */
  lemma BegunStack(v: Validator, s: Schema, e: Event) returns (stack: seq<Context>)
    requires Consistent(v) && v.valid && Expected(v) == Some(s)
    ensures forall i | 0 <= i < |v.stack| :: ConsistentContext(v.root, CountedStack(v.stack)[i])
    ensures |CountedStack(v.stack)| == |v.stack| && ConsistentContext(v.root, Opened(s, e))
    ensures stack == Broadcast(v.root, CountedStack(v.stack) + [Opened(s, e)], e) && |stack| == |v.stack| + 1
    ensures StackFed(CountedStack(v.stack), stack[..|v.stack|], [e])
    ensures stack[|v.stack|] == Opened(s, e).(validators := stack[|v.stack|].validators)
    ensures EachFed(Fresh(s), stack[|v.stack|].validators, [e])
  {
    hide FeedAll, Broadcast, EachFed, ConsistentContext;
    OpenedConsistent(v, e);
    var before := CountedStack(v.stack) + [Opened(s, e)];
    stack := Broadcast(v.root, before, e);
    BroadcastFeeds(v.root, before, e);
    assert before[|v.stack|] == Opened(s, e);
    assert forall i | 0 <= i < |v.stack| :: before[i] == CountedStack(v.stack)[i];
  }

  /** A value in one event. */
  lemma FeedsScalar(v: Validator, s: Schema, x: Value, e: Event)
    requires Consistent(v) && v.valid && Expected(v) == Some(s) && !e.KeyEvent? && !IsEnd(e) && !IsStart(e)
    requires VerdictsAgree(s, x, [e])
    ensures Feed(v, e).valid <==> Admits(s, e) && Combined(s, x)
    ensures Feed(v, e).valid ==> StackFed(CountedStack(v.stack), Feed(v, e).stack, [e])
  {
    hide Admits, Combined, EndValue, StackFed, EachFed, VerdictsAgree, Broadcast, CountedStack, Fresh;
    if Admits(s, e) {
      var stack := BegunStack(v, s, e);
      FedAgree(s, x, stack[|v.stack|].validators, [e]);
      EndValueMeaning(s, x, stack[|v.stack|].validators);
    }
  }

  /** The start of a container. */
  lemma FeedsStart(v: Validator, s: Schema, e: Event)
    requires Consistent(v) && v.valid && Expected(v) == Some(s) && IsStart(e)
    ensures var r := Feed(v, e);
            && r.valid == Admits(s, e)
            && (r.valid ==>
                  && |r.stack| == |v.stack| + 1 && StackFed(CountedStack(v.stack), r.stack[..|v.stack|], [e])
                  && Top(r.stack) == Opened(s, e).(validators := Top(r.stack).validators)
                  && EachFed(Fresh(s), Top(r.stack).validators, [e]))
  {
    hide Admits, StackFed, EachFed, Broadcast, CountedStack, Fresh;
    if Admits(s, e) {
      var stack := BegunStack(v, s, e);
    }
  }

  /** The end of a container whose parts have all been accepted. */
  lemma FeedsEnd(v: Validator, outer: seq<Context>, s: Schema, x: Value, before: seq<Event>, e: Event)
    requires Consistent(v) && v.valid && IsEnd(e) && |v.stack| == |outer| + 1
    requires StackFed(outer, v.stack[..|outer|], before)
    requires Top(v.stack).schema == s && EachFed(Fresh(s), Top(v.stack).validators, before)
    requires VerdictsAgree(s, x, before + [e])
    ensures Feed(v, e).valid <==> AdmitsEnd(Top(v.stack), e) && Combined(s, x)
    ensures Feed(v, e).valid ==> StackFed(outer, Feed(v, e).stack, before + [e])
  {
    hide Combined, EndValue, EachFed, VerdictsAgree, Broadcast, Fresh;
    var n := |outer|;
    var stack := Broadcast(v.root, v.stack, e);
    BroadcastFeeds(v.root, v.stack, e);
    StackFedThen(outer, v.stack[..n], stack[..n], before, [e]);
    EachFedThen(Fresh(s), v.stack[n].validators, stack[n].validators, before, [e]);
    FedAgree(s, x, stack[n].validators, before + [e]);
    EndValueMeaning(s, x, stack[n].validators);
    assert AdmitsEnd(stack[n], e) == AdmitsEnd(v.stack[n], e);
  }

  lemma Rejects(v: Validator, evs: seq<Event>)
    requires Consistent(v) && v.valid && |evs| > 0 && !evs[0].KeyEvent? && !IsEnd(evs[0])
    requires Expected(v).None? || !Admits(Expected(v).value, evs[0])
    ensures !FeedAll(v, evs).valid
  {
    hide Admits, Broadcast;
    assert Feed(v, evs[0]) == FeedBegin(v, evs[0]);
    FailedStays(Feed(v, evs[0]), evs[1..]);
  }

  /** The schema of a value lies inside the root of its validator. */
  lemma ExpectedInside(v: Validator)
    requires Consistent(v) && v.valid && Expected(v).Some?
    ensures Inside(v.root, Expected(v).value)
  {
    OpenedConsistent(v, NullEvent);
  }

  lemma {:induction false} ParallelVerdicts(root: Schema, s: Schema, x: Value, reading: bool)
    requires Inside(root, s) && Valid(x, true)
    ensures VerdictsAgree(s, x, EventsOf(x, reading))
    decreases x, root, 0
  {
    forall j | 0 <= j < |Parallel(s)|
      ensures FeedAll(New(Parallel(s)[j]), EventsOf(x, reading)).valid == Conforms(Parallel(s)[j], x)
    {
      ParallelSmaller(root, s, j);
      FeedsValue(New(Parallel(s)[j]), Parallel(s)[j], x, reading);
    }
  }

  /**
   * A validator given all events of a value accepts them if and only if the value conforms to the schema it
   * expects; then it is back where it was, but for the count of an enclosing array, and the validators
   * beside the enclosing values have seen the same events.
   */
  lemma {:induction false} FeedsValue(v: Validator, s: Schema, x: Value, reading: bool)
    requires Consistent(v) && v.valid && Expected(v) == Some(s) && Valid(x, true)
    ensures var r := FeedAll(v, EventsOf(x, reading));
            && (r.valid <==> Conforms(s, x))
            && (r.valid ==> StackFed(CountedStack(v.stack), r.stack, EventsOf(x, reading)))
    decreases x, v.root, 2
  {
    hide Admits, Admissible, StackFed, CountedStack, VerdictsAgree, Combined, FeedAll, Feed, Consistent;
    AdmitsFirst(s, x, reading);
    var evs := EventsOf(x, reading);
    if !Admissible(s, x) {
      Rejects(v, evs);
    } else {
      ExpectedInside(v);
      ParallelVerdicts(v.root, s, x, reading);
      if x.Array? {
        FeedsArray(v, s, x.items, reading);
      } else if x.Object? {
        FeedsObject(v, s, x.members, reading);
      } else {
        assert evs == [evs[0]];
        FeedOne(v, evs[0]);
        FeedsScalar(v, s, x, evs[0]);
      }
    }
  }

  predicate ItemsConform(s: Schema, items: seq<Value>, k: nat) {
    forall i | k <= i < |items| ::
      var t := ItemSchema(s, i);
      t.Some? && Conforms(t.value, items[i])
  }

  predicate MembersConform(s: Schema, members: seq<Member>, k: nat) {
    forall i | k <= i < |members| ::
      var t := MemberSchema(s, members[i].name);
      t.Some? && Conforms(t.value, members[i].value)
  }

  /** The properties seen after some members. */
  ghost predicate SeenAfter(s: Schema, before: set<nat>, members: seq<Member>, k: nat, after: set<nat>) {
    forall i: nat | i < |s.properties| ::
      i in after <==> i in before || exists m | k <= m < |members| :: FindProperty(s.properties, members[m].name) == i
  }

  lemma {:induction false} FeedsObject(v: Validator, s: Schema, members: seq<Member>, reading: bool)
    requires Consistent(v) && v.valid && Expected(v) == Some(s) && Valid(Object(members), true)
    requires Admissible(s, Object(members))
    requires VerdictsAgree(s, Object(members), EventsOf(Object(members), reading))
    ensures var r := FeedAll(v, EventsOf(Object(members), reading));
            && (r.valid <==> Conforms(s, Object(members)))
            && (r.valid ==> StackFed(CountedStack(v.stack), r.stack, EventsOf(Object(members), reading)))
    decreases members, v.root, |members| + 1
  {
    hide StackFed, EachFed, CountedStack, VerdictsAgree, Combined, FeedAll, Feed, Fresh, MemberEvents, HasRequired,
         SeenAfter, Conforms, MembersConform;
    var x, inner, end := Object(members), MemberEvents(members, reading), EndObject(|members|);
    var evs := EventsOf(x, reading);
    assert evs == [StartObject] + inner + [end];
    FeedsStart(v, s, StartObject);
    var begun := Feed(v, StartObject);
    var outer := begun.stack[..|v.stack|];
    assert begun.stack == outer + [Top(begun.stack)];
    assert members[0..] == members;
    FeedsMembers(begun, outer, Top(begun.stack), members, 0, reading);
    ObjectConforms(s, members);
    FeedOne(v, StartObject);
    FeedConcat(v, [StartObject], inner);
    FeedConcat(v, [StartObject] + inner, [end]);
    var filled := FeedAll(begun, inner);
    FeedOne(filled, end);
    if filled.valid {
      StackFedThen(CountedStack(v.stack), outer, filled.stack[..|outer|], [StartObject], inner);
      EachFedThen(Fresh(s), Top(begun.stack).validators, Top(filled.stack).validators, [StartObject], inner);
      FeedsEnd(filled, CountedStack(v.stack), s, x, [StartObject] + inner, end);
      SeenIsRequired(s, members, Top(filled.stack).seen);
    } else {
      FailedStays(filled, [end]);
    }
  }

  lemma ObjectConforms(s: Schema, members: seq<Member>)
    ensures Conforms(s, Object(members)) <==>
            && Admissible(s, Object(members)) && s.minProperties <= |members| <= s.maxProperties
            && HasRequired(s, members) && MembersConform(s, members, 0) && Combined(s, Object(members))
  {
    hide HasRequired, Combined;
    assert MembersConform(s, members, 0) == ChildrenConform(s, Object(members));
  }

  lemma SeenIsRequired(s: Schema, members: seq<Member>, seen: set<nat>)
    requires SeenAfter(s, {}, members, 0, seen)
    ensures HasRequired(s, members) <==>
            forall i | 0 <= i < |s.properties| && s.properties[i].required
                       && s.properties[i].schema.defaultValueLength == 0 :: i in seen
  {
  }

  /** The remaining members of an open object. */
  lemma {:induction false} FeedsMembers(v: Validator, outer: seq<Context>, c: Context, members: seq<Member>, k: nat,
                                        reading: bool)
    requires Consistent(v) && v.valid && v.stack == outer + [c] && !c.inArray && k <= |members|
    requires AllMembersValid(members[k..], true)
    ensures var r, evs := FeedAll(v, MemberEvents(members[k..], reading)), MemberEvents(members[k..], reading);
            && (r.valid <==> MembersConform(c.schema, members, k))
            && (r.valid ==>
                  && |r.stack| == |outer| + 1 && StackFed(outer, r.stack[..|outer|], evs)
                  && Top(r.stack).schema == c.schema && EachFed(c.validators, Top(r.stack).validators, evs)
                  && SeenAfter(c.schema, c.seen, members, k, Top(r.stack).seen))
    decreases members, v.root, |members| - k
  {
    hide StackFed, EachFed, Feed, Consistent, EventsOf, Valid, Conforms, Named, SeenAfter, MembersConform;
    MembersStep(c.schema, members, k);
    if k == |members| {
      assert members[k..] == [];
      NothingFed(v, outer, c);
      NothingSeen(c.schema, c.seen, members);
    } else {
      var m, rest := members[k], MemberEvents(members[k + 1..], reading);
      assert members[k..][1..] == members[k + 1..] && members[k..][0] == m;
      var key := KeyEvent(m.name);
      var first := [key] + EventsOf(m.value, reading);
      FeedOne(v, key);
      FeedConcat(v, [key], EventsOf(m.value, reading));
      FeedConcat(v, first, rest);
      if MemberSchema(c.schema, m.name).None? {
        RejectsName(v, outer, c, m.name);
        FailedStays(Feed(v, key), EventsOf(m.value, reading));
        FailedStays(FeedAll(v, first), rest);
      } else {
        var outer1, c1 := FeedsName(v, outer, c, m.name);
        FeedsValue(Feed(v, key), MemberSchema(c.schema, m.name).value, m.value, reading);
        var next := FeedAll(v, first);
        if next.valid {
          var outer2, c2 := NextItem(Feed(v, key), outer1, c1, next, EventsOf(m.value, reading));
          StackFedThen(outer, outer1, outer2, [key], EventsOf(m.value, reading));
          EachFedThen(c.validators, c1.validators, c2.validators, [key], EventsOf(m.value, reading));
          FeedsMembers(next, outer2, c2, members, k + 1, reading);
          if FeedAll(next, rest).valid {
            var r := FeedAll(next, rest);
            StackFedThen(outer, outer2, r.stack[..|outer|], first, rest);
            EachFedThen(c.validators, c2.validators, Top(r.stack).validators, first, rest);
            SeenOneMore(c, members, k, c2.seen, Top(r.stack).seen);
          }
        } else {
          FailedStays(next, rest);
        }
      }
    }
  }

  lemma MembersStep(s: Schema, members: seq<Member>, k: nat)
    ensures MembersConform(s, members, k) <==>
            k < |members| ==>
              && MemberSchema(s, members[k].name).Some? && Conforms(MemberSchema(s, members[k].name).value, members[k].value)
              && MembersConform(s, members, k + 1)
  {
    hide Conforms;
  }

  lemma NothingSeen(s: Schema, seen: set<nat>, members: seq<Member>)
    ensures SeenAfter(s, seen, members, |members|, seen)
  {
  }

  lemma SeenOneMore(c: Context, members: seq<Member>, k: nat, seen: set<nat>, after: set<nat>)
    requires k < |members| && Named(c, members[k].name).Some? && seen == Named(c, members[k].name).value.seen
    requires SeenAfter(c.schema, seen, members, k + 1, after)
    ensures SeenAfter(c.schema, c.seen, members, k, after)
  {
    var p := c.schema.properties;
    forall i: nat | i < |p|
      ensures i in after <==> i in c.seen || exists m | k <= m < |members| :: FindProperty(p, members[m].name) == i
    {
      assert i in seen <==> i in c.seen || FindProperty(p, members[k].name) == i;
      if m :| k <= m < |members| && FindProperty(p, members[m].name) == i {
        assert m == k || exists n | k + 1 <= n < |members| :: FindProperty(p, members[n].name) == i;
      }
    }
  }

  lemma RejectsName(v: Validator, outer: seq<Context>, c: Context, name: Text)
    requires Consistent(v) && v.valid && v.stack == outer + [c] && MemberSchema(c.schema, name).None?
    ensures !Feed(v, KeyEvent(name)).valid
  {
    assert Feed(v, KeyEvent(name)) == FeedKey(v, KeyEvent(name));
  }

  lemma KeyCases(v: Validator, outer: seq<Context>, c: Context, name: Text)
    requires Consistent(v) && v.valid && v.stack == outer + [c] && MemberSchema(c.schema, name).Some?
    ensures forall i | 0 <= i <= |outer| :: ConsistentContext(v.root, (outer + [Named(c, name).value])[i])
    ensures Feed(v, KeyEvent(name)) == v.(stack := Broadcast(v.root, outer + [Named(c, name).value], KeyEvent(name)))
  {
    assert Feed(v, KeyEvent(name)) == FeedKey(v, KeyEvent(name));
    hide Feed, Broadcast;
    assert v.stack[..|outer|] == outer && v.stack[|outer|] == c;
    NamedConsistent(v.root, c, name);
  }

  lemma SplitsTop(outer: seq<Context>, c: Context, stack: seq<Context>, evs: seq<Event>)
    requires StackFed(outer + [c], stack, evs)
    ensures |stack| == |outer| + 1 && StackFed(outer, stack[..|outer|], evs)
    ensures stack[|outer|] == c.(validators := stack[|outer|].validators)
    ensures EachFed(c.validators, stack[|outer|].validators, evs)
  {
    hide EachFed;
    assert forall i | 0 <= i < |outer| :: (outer + [c])[i] == outer[i];
    assert (outer + [c])[|outer|] == c;
  }

  lemma KeepsTop(v: Validator, outer: seq<Context>, c: Context)
    requires v.stack == outer + [c] && !c.inArray
    ensures Expected(v) == c.valueSchema && CountedStack(v.stack) == v.stack
  {
  }

  /** A name the object may have. */
  lemma FeedsName(v: Validator, outer: seq<Context>, c: Context, name: Text) returns (outer1: seq<Context>, c1: Context)
    requires Consistent(v) && v.valid && v.stack == outer + [c] && MemberSchema(c.schema, name).Some? && !c.inArray
    ensures var r := Feed(v, KeyEvent(name));
            && r.valid && r.stack == outer1 + [c1] && |outer1| == |outer| && StackFed(outer, outer1, [KeyEvent(name)])
            && Named(c, name).Some? && c1 == Named(c, name).value.(validators := c1.validators)
            && c1.schema == c.schema && !c1.inArray
            && EachFed(c.validators, c1.validators, [KeyEvent(name)])
            && Expected(r) == MemberSchema(c.schema, name) && CountedStack(r.stack) == r.stack
  {
    hide EachFed, Broadcast, FeedAll, Feed, Consistent, ConsistentContext, StackFed, FindProperty, CountedStack,
         Expected;
    KeyCases(v, outer, c, name);
    var before := outer + [Named(c, name).value];
    BroadcastFeeds(v.root, before, KeyEvent(name));
    var r := Feed(v, KeyEvent(name));
    outer1, c1 := r.stack[..|outer|], r.stack[|outer|];
    SplitsTop(outer, Named(c, name).value, r.stack, [KeyEvent(name)]);
    KeepsTop(r, outer1, c1);
  }

  /** The whole verdict: a new validator given all events of a value is valid exactly if the value conforms. */
  lemma VerdictIsMeaning(s: Schema, x: Value, reading: bool)
    requires Valid(x, true)
    ensures FeedAll(New(s), EventsOf(x, reading)).valid <==> Conforms(s, x)
  {
    FeedsValue(New(s), s, x, reading);
  }

  lemma {:induction false} FeedsArray(v: Validator, s: Schema, items: seq<Value>, reading: bool)
    requires Consistent(v) && v.valid && Expected(v) == Some(s) && Valid(Array(items), true) && Admissible(s, Array(items))
    requires VerdictsAgree(s, Array(items), EventsOf(Array(items), reading))
    ensures var r := FeedAll(v, EventsOf(Array(items), reading));
            && (r.valid <==> Conforms(s, Array(items)))
            && (r.valid ==> StackFed(CountedStack(v.stack), r.stack, EventsOf(Array(items), reading)))
    decreases items, v.root, |items| + 1
  {
    hide StackFed, EachFed, CountedStack, VerdictsAgree, Combined, FeedAll, Feed, Fresh, ItemEvents;
    var x, inner, end := Array(items), ItemEvents(items, reading), EndArray(|items|);
    var evs := EventsOf(x, reading);
    assert evs == [StartArray] + inner + [end];
    FeedsStart(v, s, StartArray);
    var begun := Feed(v, StartArray);
    var outer := begun.stack[..|v.stack|];
    assert begun.stack == outer + [Top(begun.stack)];
    assert items[0..] == items;
    FeedsItems(begun, outer, Top(begun.stack), items, 0, reading);
    assert ItemsConform(s, items, 0) == ChildrenConform(s, x);
    FeedOne(v, StartArray);
    FeedConcat(v, [StartArray], inner);
    FeedConcat(v, [StartArray] + inner, [end]);
    var filled := FeedAll(begun, inner);
    FeedOne(filled, end);
    if filled.valid {
      StackFedThen(CountedStack(v.stack), outer, filled.stack[..|outer|], [StartArray], inner);
      EachFedThen(Fresh(s), Top(begun.stack).validators, Top(filled.stack).validators, [StartArray], inner);
      FeedsEnd(filled, CountedStack(v.stack), s, x, [StartArray] + inner, end);
    } else {
      FailedStays(filled, [end]);
    }
  }

  /** The remaining items of an open array. */
  lemma {:induction false} FeedsItems(v: Validator, outer: seq<Context>, c: Context, items: seq<Value>, k: nat,
                                      reading: bool)
    requires Consistent(v) && v.valid && v.stack == outer + [c] && c.inArray && c.index == k <= |items|
    requires AllValid(items[k..], true)
    ensures var r, evs := FeedAll(v, ItemEvents(items[k..], reading)), ItemEvents(items[k..], reading);
            && (r.valid <==> ItemsConform(c.schema, items, k))
            && (r.valid ==>
                  && |r.stack| == |outer| + 1 && StackFed(outer, r.stack[..|outer|], evs)
                  && Top(r.stack).schema == c.schema && EachFed(c.validators, Top(r.stack).validators, evs))
    decreases items, v.root, |items| - k
  {
    hide StackFed, EachFed, Feed, Consistent, EventsOf, Valid, Conforms;
    if k == |items| {
      assert items[k..] == [];
      NothingFed(v, outer, c);
    } else {
      var rest := items[k + 1..];
      assert items[k..][1..] == rest && items[k..][0] == items[k];
      var first := EventsOf(items[k], reading);
      FeedConcat(v, first, ItemEvents(rest, reading));
      AdmitsFirst(TYPELESS, items[k], reading);
      var t := ItemSchema(c.schema, k);
      assert Expected(v) == t;
      if t.None? {
        Rejects(v, first);
        FailedStays(FeedAll(v, first), ItemEvents(rest, reading));
      } else {
        FeedsValue(v, t.value, items[k], reading);
        var next := FeedAll(v, first);
        if next.valid {
          var outer2, c2 := NextItem(v, outer, c, next, first);
          FeedsItems(next, outer2, c2, items, k + 1, reading);
          if FeedAll(next, ItemEvents(rest, reading)).valid {
            var r := FeedAll(next, ItemEvents(rest, reading));
            StackFedThen(outer, outer2, r.stack[..|outer|], first, ItemEvents(rest, reading));
            EachFedThen(c.validators, c2.validators, Top(r.stack).validators, first, ItemEvents(rest, reading));
          }
        } else {
          FailedStays(next, ItemEvents(rest, reading));
        }
      }
    }
  }

  lemma NothingFed(v: Validator, outer: seq<Context>, c: Context)
    requires Consistent(v) && v.valid && v.stack == outer + [c]
    ensures FeedAll(v, []) == v && StackFed(outer, v.stack[..|outer|], []) && EachFed(c.validators, c.validators, [])
  {
    forall i | 0 <= i < |outer| ensures EachFed(outer[i].validators, outer[i].validators, []) {
      assert ConsistentContext(v.root, v.stack[i]);
    }
    assert ConsistentContext(v.root, v.stack[|outer|]);
  }

  lemma NextItem(v: Validator, outer: seq<Context>, c: Context, next: Validator, evs: seq<Event>)
    returns (outer2: seq<Context>, c2: Context)
    requires v.stack == outer + [c] && StackFed(CountedStack(v.stack), next.stack, evs)
    ensures next.stack == outer2 + [c2] && |outer2| == |outer| && StackFed(outer, outer2, evs)
    ensures c2 == Counted(c).(validators := c2.validators) && EachFed(c.validators, c2.validators, evs)
  {
    hide EachFed;
    assert CountedStack(v.stack) == outer + [Counted(c)];
    outer2, c2 := next.stack[..|outer|], next.stack[|outer|];
  }
}

/** The streaming validator as an object whose handlers update its context stack, and the compilation of properties. */
module SchemaValidator {
  import opened Bytes
  import opened Events
  import opened Document
  import opened Options
  import opened Schemas
  import opened SchemaVerdict

  lemma EndCases(v: Validator, e: Event)
    requires Consistent(v) && v.valid && IsEnd(e)
    ensures var stack, n := Broadcast(v.root, v.stack, e), |v.stack| - 1;
            && |stack| == |v.stack|
            && (n >= 0 ==> |stack[n].validators| == |Schemas.Parallel(stack[n].schema)|)
            && Feed(v, e) == if n < 0 || !AdmitsEnd(stack[n], e) || !Schemas.EndValue(stack[n].schema, stack[n].validators)
                             then Validator(v.root, stack, false) else Validator(v.root, stack[..n], true)
  {
    hide AdmitsEnd, Schemas.EndValue, FeedContext;
    assert Feed(v, e) == FeedEnd(v, e);
  }

  lemma NothingExpected(v: Validator, e: Event)
    requires Consistent(v) && v.valid && !e.KeyEvent? && !IsEnd(e) && Expected(v).None?
    ensures Feed(v, e) == v.(valid := false)
  {
    assert Feed(v, e) == FeedBegin(v, e);
  }

  lemma BeginCases(v: Validator, s: Schema, e: Event)
    requires Consistent(v) && v.valid && !e.KeyEvent? && !IsEnd(e) && Expected(v) == Some(s)
    ensures forall i | 0 <= i <= |v.stack| :: ConsistentContext(v.root, (CountedStack(v.stack) + [Opened(s, e)])[i])
    ensures var stack, n := Broadcast(v.root, CountedStack(v.stack) + [Opened(s, e)], e), |v.stack|;
            && |stack| == n + 1 && |stack[n].validators| == |Schemas.Parallel(stack[n].schema)|
            && Feed(v, e) == if !Admits(s, e) then Validator(v.root, CountedStack(v.stack) + [Pushed(s)], false)
                             else if IsStart(e) then Validator(v.root, stack, true)
                             else if Schemas.EndValue(stack[n].schema, stack[n].validators)
                             then Validator(v.root, stack[..n], true) else Validator(v.root, stack, false)
  {
    hide Admits, Schemas.EndValue, FeedContext;
    OpenedConsistent(v, e);
    assert Feed(v, e) == FeedBegin(v, e);
  }

  class GenericSchemaValidator {
    const root: Schema
    var stack: seq<Context>
    var valid: bool

    function State(): Validator
      reads this
    {
      Validator(root, stack, valid)
    }

    constructor (s: Schema)
      ensures root == s && State() == New(s)
    {
      root := s;
      stack := [];
      valid := true;
    }

    /** The validator kept in a context, to be given its next event. */
    constructor Resumed(v: Validator)
      ensures root == v.root && State() == v
    {
      root := v.root;
      stack := v.stack;
      valid := v.valid;
    }

    /** Passes an event on to the parallel validators of every open value. */
    method Parallel(e: Event)
      requires forall i | 0 <= i < |stack| :: ConsistentContext(root, stack[i])
      modifies this`stack
      ensures stack == Broadcast(root, old(stack), e)
      decreases root, 1
    {
      hide Feed, FeedEach;
      for i := 0 to |stack|
        invariant |stack| == |old(stack)|
        invariant forall k | 0 <= k < i :: stack[k] == FeedContext(root, old(stack)[k], e)
        invariant forall k | i <= k < |stack| :: stack[k] == old(stack)[k]
      {
        assert ConsistentContext(root, old(stack)[i]);
        var fed := FeedAllOf(root, stack[i].validators, e);
        stack := stack[i := stack[i].(validators := fed)];
      }
    }

    /** Calls each validator beside an open value; their schemas are smaller, so this ends. */
    static method FeedAllOf(ghost limit: Schema, validators: seq<Validator>, e: Event) returns (r: seq<Validator>)
      requires forall j | 0 <= j < |validators| :: Consistent(validators[j]) && validators[j].root < limit
      ensures r == FeedEach(limit, validators, e)
      decreases limit, 0
    {
      hide Feed, Consistent;
      r := validators;
      for j := 0 to |validators|
        invariant |r| == |validators|
        invariant forall k | 0 <= k < j :: r[k] == Feed(validators[k], e)
        invariant forall k | j <= k < |r| :: r[k] == validators[k]
      {
        var validator := new GenericSchemaValidator.Resumed(r[j]);
        var _ := validator.Call(e);
        r := r[j := validator.State()];
      }
    }

    /** Finds the schema of the coming value and pushes a context for it. */
    method BeginValue(e: Event) returns (ok: bool)
      requires Consistent(State()) && valid
      modifies this`stack
      ensures ok == Expected(old(State())).Some?
      ensures ok ==> stack == CountedStack(old(stack)) + [Pushed(Expected(old(State())).value)]
      ensures !ok ==> stack == old(stack)
    {
      var next := root;
      if |stack| != 0 {
        var top := stack[|stack| - 1];
        if top.inArray {
          if top.schema.items.ListItems? {
            next := top.schema.items.each;
          } else if top.schema.items.TupleItems? {
            if top.index < |top.schema.items.tuple| {
              next := top.schema.items.tuple[top.index];
            } else if top.schema.additionalItemsSchema.Some? {
              next := top.schema.additionalItemsSchema.value;
            } else if top.schema.additionalItems {
              next := TYPELESS;
            } else {
              return false;
            }
          } else {
            next := TYPELESS;
          }
          top := top.(valueSchema := Some(next), index := top.index + 1);
          stack := stack[|stack| - 1 := top];
        } else if top.valueSchema.None? {
          return false;
        } else {
          next := top.valueSchema.value;
        }
      }
      stack := stack + [Pushed(next)];
      return true;
    }

    /** Asks the parallel validators of the current value, as its combining keywords require. */
    method EndValue() returns (ok: bool)
      requires |stack| > 0 && |Top(stack).validators| == |Schemas.Parallel(Top(stack).schema)|
      ensures ok == Schemas.EndValue(Top(stack).schema, Top(stack).validators)
    {
      var s, vs := stack[|stack| - 1].schema, stack[|stack| - 1].validators;
      var a, b, c := |s.allOf|, |s.allOf| + |s.anyOf|, |s.allOf| + |s.anyOf| + |s.oneOf|;
      for i := 0 to a
        invariant AllPass(vs[..i])
      {
        if !vs[i].valid {
          assert !vs[..a][i].valid;
          return false;
        }
        assert vs[..i + 1] == vs[..i] + [vs[i]];
      }
      if |s.anyOf| > 0 {
        var any := FindValid(vs, a, b);
        if !any {
          return false;
        }
      }
      if |s.oneOf| > 0 {
        var one := CountOne(vs, b, c);
        if !one {
          return false;
        }
      }
      ok := !(s.negated.Some? && vs[c].valid);
    }

    static method FindValid(vs: seq<Validator>, from: nat, to: nat) returns (found: bool)
      requires from <= to <= |vs|
      ensures found == SomePass(vs[from..to])
    {
      for i := from to to
        invariant !SomePass(vs[from..i])
      {
        if vs[i].valid {
          assert vs[from..to][i - from].valid;
          return true;
        }
        assert vs[from..i + 1] == vs[from..i] + [vs[i]];
      }
      found := false;
    }

    /** Exactly one of them is valid: stops at the second. */
    static method CountOne(vs: seq<Validator>, from: nat, to: nat) returns (one: bool)
      requires from <= to <= |vs|
      ensures one == OnePasses(vs[from..to])
    {
      one := false;
      ghost var first := from;
      for i := from to to
        invariant one ==> from <= first < i && vs[first].valid
        invariant forall k | from <= k < i && (one ==> k != first) :: !vs[k].valid
      {
        if vs[i].valid {
          if one {
            assert vs[from..to][first - from].valid && vs[from..to][i - from].valid;
            return false;
          }
          one := true;
          first := i;
        }
      }
      if one {
        assert vs[from..to][first - from].valid;
      }
    }

    /** Ends the current value: its context goes if its parallel validators allow it, else all validation stops. */
    method Close() returns (ok: bool)
      requires valid && |stack| > 0 && |Top(stack).validators| == |Schemas.Parallel(Top(stack).schema)|
      modifies this
      ensures ok == valid == Schemas.EndValue(old(Top(stack)).schema, old(Top(stack)).validators)
      ensures stack == if ok then old(stack)[..|old(stack)| - 1] else old(stack)
    {
      ok := EndValue();
      if ok {
        stack := stack[..|stack| - 1];
      } else {
        valid := false;
      }
    }

    /** Pushes the context of a value and, if its schema admits the first event, creates the parallel validators. */
    method Open(e: Event) returns (ok: bool)
      requires Consistent(State()) && valid && !e.KeyEvent? && !IsEnd(e)
      modifies this
      ensures !ok ==> State() == Feed(old(State()), e) && !valid
      ensures ok ==> valid && Expected(old(State())).Some? && Admits(Expected(old(State())).value, e)
                     && stack == CountedStack(old(stack)) + [Opened(Expected(old(State())).value, e)]
    {
      hide Feed, FeedBegin, Broadcast, ConsistentContext, Consistent, Admits, CountedStack, Schemas.Parallel, Expected;
      ghost var before := State();
      ok := BeginValue(e);
      if !ok {
        NothingExpected(before, e);
        valid := false;
        return;
      }
      var top := stack[|stack| - 1];
      if !Admits(top.schema, e) {
        BeginCases(before, top.schema, e);
        valid := false;
        return false;
      }
      stack := stack[|stack| - 1 := top.(validators := Fresh(top.schema), inArray := e.StartArray?)];
    }

    /** The rest of the first event, which also ends a value of one event. */
    method Proceed(e: Event, ghost before: Validator, ghost s: Schema) returns (ok: bool)
      requires Consistent(before) && before.valid && before.root == root && !e.KeyEvent? && !IsEnd(e)
      requires Expected(before) == Some(s) && Admits(s, e)
      requires valid && stack == CountedStack(before.stack) + [Opened(s, e)]
      modifies this
      ensures State() == Feed(before, e) && ok == valid
      decreases root, 2
    {
      hide Feed, FeedBegin, Broadcast, ConsistentContext, Consistent, Admits, Schemas.EndValue, CountedStack,
           Schemas.Parallel, Expected, Opened;
      BeginCases(before, s, e);
      Parallel(e);
      if IsStart(e) {
        return true;
      }
      ok := Close();
    }

    /** The first event of a value. */
    method Begin(e: Event) returns (ok: bool)
      requires Consistent(State()) && !e.KeyEvent? && !IsEnd(e)
      modifies this
      ensures State() == Feed(old(State()), e) && ok == valid
      decreases root, 3
    {
      if !valid {
        return false;
      }
      hide Feed, ConsistentContext, Consistent, Admits, CountedStack, Expected, Opened;
      ghost var before := State();
      ok := Open(e);
      if ok {
        ok := Proceed(e, before, Expected(before).value);
      }
    }

    method Key(e: Event) returns (ok: bool)
      requires Consistent(State()) && e.KeyEvent?
      modifies this
      ensures State() == Feed(old(State()), e) && ok == valid
      decreases root, 3
    {
      if !valid {
        return false;
      }
      if |stack| == 0 {
        valid := false;
        return false;
      }
      var top := stack[|stack| - 1];
      var i := FindPropertyIndex(top.schema.properties, e.str);
      if i < |top.schema.properties| {
        top := top.(valueSchema := Some(top.schema.properties[i].schema), seen := top.seen + {i});
      } else if top.schema.additionalPropertiesSchema.Some? {
        top := top.(valueSchema := top.schema.additionalPropertiesSchema);
      } else if top.schema.additionalProperties {
        top := top.(valueSchema := Some(TYPELESS));
      } else {
        valid := false;
        return false;
      }
      NamedConsistent(root, stack[|stack| - 1], e.str);
      stack := stack[..|stack| - 1] + [top];
      Parallel(e);
      ok := true;
    }

    /** Linear search for a name. */
    static method FindPropertyIndex(properties: seq<Property>, name: Text) returns (index: nat)
      ensures index == FindProperty(properties, name)
    {
      for i := 0 to |properties|
        invariant forall j | 0 <= j < i :: properties[j].name != name
      {
        if properties[i].name == name {
          return i;
        }
      }
      index := |properties|;
    }

    method End(e: Event) returns (ok: bool)
      requires Consistent(State()) && IsEnd(e)
      modifies this
      ensures State() == Feed(old(State()), e) && ok == valid
      decreases root, 3
    {
      if !valid {
        return false;
      }
      hide Feed, FeedEnd, Broadcast, AdmitsEnd, Schemas.EndValue, ConsistentContext, Schemas.Parallel;
      EndCases(State(), e);
      Parallel(e);
      if |stack| == 0 || !AdmitsEnd(stack[|stack| - 1], e) {
        valid := false;
        return false;
      }
      ok := Close();
    }

    /** One handler call. */
    method Call(e: Event) returns (ok: bool)
      requires Consistent(State())
      modifies this
      ensures State() == Feed(old(State()), e) && ok == valid
      decreases root, 4
    {
      if e.KeyEvent? {
        ok := Key(e);
      } else if IsEnd(e) {
        ok := End(e);
      } else {
        ok := Begin(e);
      }
    }

    /** A new validator, given the events of a value one by one, says whether the value conforms. */
    static method Validate(s: Schema, x: Value) returns (ok: bool)
      requires Valid(x, true)
      ensures ok == Conforms(s, x)
    {
      var v := new GenericSchemaValidator(s);
      var evs := EventsOf(x, false);
      ok := true;
      for i := 0 to |evs|
        invariant Consistent(v.State()) && FeedAll(New(s), evs) == FeedAll(v.State(), evs[i..])
        invariant ok == v.valid
      {
        assert evs[i..][1..] == evs[i + 1..];
        ok := v.Call(evs[i]);
      }
      assert evs[|evs|..] == [];
      VerdictIsMeaning(s, x, false);
    }
  }
}

/**
 * Compiled JSON schemas: what they mean for a value, and the streaming validator, which runs one validator
 * per schema in allOf, anyOf, oneOf and not beside the main one.
 */
module Schemas {
  import opened Bytes
  import opened Encodings
  import opened Events
  import opened Document
  import opened Options

  datatype Kind = NullKind | BooleanKind | ObjectKind | ArrayKind | StringKind | NumberKind | IntegerKind

  /**
   * The double nearest to an integer, and the one a literal denotes: any rounding to finite doubles, which are reals.
   */
  const DOUBLE_OF_INTEGER: int -> real
  const DOUBLE_OF_LITERAL: Text -> real

  type Bound = n: int | -0x8000_0000_0000_0000 <= n < TWO_64 witness 0

  /** A limit of numbers, as the schema gives it. */
  datatype Limit = IntegerLimit(n: Bound) | DoubleLimit(literal: Text)
  {
    function AsDouble(): real {
      match this
      case IntegerLimit(n) => DOUBLE_OF_INTEGER(n)
      case DoubleLimit(literal) => DOUBLE_OF_LITERAL(literal)
    }
  }

  datatype Items = AnyItems | ListItems(each: Schema) | TupleItems(tuple: seq<Schema>)

  datatype Property = Property(name: Text, schema: Schema, required: bool)

  datatype Schema = Schema(
    types: set<Kind>,
    allOf: seq<Schema>,
    anyOf: seq<Schema>,
    oneOf: seq<Schema>,
    negated: Option<Schema>,
    properties: seq<Property>,
    additionalPropertiesSchema: Option<Schema>,
    additionalProperties: bool,
    minProperties: nat,
    maxProperties: nat,
    items: Items,
    additionalItemsSchema: Option<Schema>,
    additionalItems: bool,
    minItems: nat,
    maxItems: nat,
    minLength: nat,
    maxLength: nat,
    minimum: Option<Limit>,
    maximum: Option<Limit>,
    exclusiveMinimum: bool,
    exclusiveMaximum: bool,
    defaultValueLength: nat)

  const NO_LIMIT: nat := 0xFFFF_FFFF

  /** The schema that accepts everything. */
  const TYPELESS: Schema := Schema(
    {NullKind, BooleanKind, ObjectKind, ArrayKind, StringKind, NumberKind, IntegerKind}, [], [], [], None,
    [], None, true, 0, NO_LIMIT, AnyItems, None, true, 0, NO_LIMIT, 0, NO_LIMIT, None, None, false, false, 0)

  // ------------------------------------------------ parts of a schema

  /** The schemas with a validator of their own, in the order of the validators. */
  function Parallel(s: Schema): seq<Schema> {
    s.allOf + s.anyOf + s.oneOf + (if s.negated.Some? then [s.negated.value] else [])
  }

  /** The first property of that name, or the number of properties. */
  function FindProperty(properties: seq<Property>, name: Text): (i: nat)
    ensures i <= |properties| && (i < |properties| ==> properties[i].name == name)
    ensures forall j | 0 <= j < i :: properties[j].name != name
  {
    if |properties| == 0 then 0
    else if properties[0].name == name then 0
    else 1 + FindProperty(properties[1..], name)
  }

  /** The schema of a member, if the object may have it. */
  function MemberSchema(s: Schema, name: Text): Option<Schema> {
    var i := FindProperty(s.properties, name);
    if i < |s.properties| then Some(s.properties[i].schema)
    else if s.additionalPropertiesSchema.Some? then s.additionalPropertiesSchema
    else if s.additionalProperties then Some(TYPELESS)
    else None
  }

  /** The schema of the element at an index, if the array may have it. */
  function ItemSchema(s: Schema, index: nat): Option<Schema> {
    match s.items
    case ListItems(each) => Some(each)
    case TupleItems(tuple) =>
      if index < |tuple| then Some(tuple[index])
      else if s.additionalItemsSchema.Some? then s.additionalItemsSchema
      else if s.additionalItems then Some(TYPELESS)
      else None
    case AnyItems => Some(TYPELESS)
  }

  // -------------------------------------------------- meaning of a schema

  /** An integer is compared with an integer limit as it is, and with a double as a double. */
  predicate Within(s: Schema, n: int) {
    && (s.minimum.Some? ==>
          match s.minimum.value
          case IntegerLimit(m) => if s.exclusiveMinimum then n > m else n >= m
          case DoubleLimit(_) => DoubleAbove(s, DOUBLE_OF_INTEGER(n)))
    && (s.maximum.Some? ==>
          match s.maximum.value
          case IntegerLimit(m) => if s.exclusiveMaximum then n < m else n <= m
          case DoubleLimit(_) => DoubleBelow(s, DOUBLE_OF_INTEGER(n)))
  }

  predicate DoubleAbove(s: Schema, d: real) {
    s.minimum.Some? ==> if s.exclusiveMinimum then d > s.minimum.value.AsDouble() else d >= s.minimum.value.AsDouble()
  }

  predicate DoubleBelow(s: Schema, d: real) {
    s.maximum.Some? ==> if s.exclusiveMaximum then d < s.maximum.value.AsDouble() else d <= s.maximum.value.AsDouble()
  }

  /** Length limits count code points and do not apply to malformed strings. */
  predicate LengthWithin(s: Schema, str: Text) {
    var codes := DecodeAll(str, 0);
    (s.minLength != 0 || s.maxLength != NO_LIMIT) && codes.Scalars? ==> s.minLength <= |codes.codes| <= s.maxLength
  }

  /** The checks that need no part of the value but its own type, number or string. */
  predicate Admissible(s: Schema, v: Value) {
    match v
    case Null => NullKind in s.types
    case Bool(_) => BooleanKind in s.types
    case Number(n, _) => (IntegerKind in s.types || NumberKind in s.types) && Within(s, n)
    case Double(literal) =>
      var d := DOUBLE_OF_LITERAL(literal);
      NumberKind in s.types && DoubleAbove(s, d) && DoubleBelow(s, d)
    case String(str) => StringKind in s.types && LengthWithin(s, str)
    case Array(_) => ArrayKind in s.types
    case Object(_) => ObjectKind in s.types
  }

  /** A property counts as missing only if its schema has no default text. */
  predicate HasRequired(s: Schema, members: seq<Member>) {
    forall i | 0 <= i < |s.properties| && s.properties[i].required && s.properties[i].schema.defaultValueLength == 0 ::
      exists k | 0 <= k < |members| :: FindProperty(s.properties, members[k].name) == i
  }

  /** What a schema means. */
  predicate Conforms(s: Schema, v: Value)
    decreases v, s, 1
  {
    Admissible(s, v) && Sized(s, v) && ChildrenConform(s, v) && Combined(s, v)
  }

  predicate Sized(s: Schema, v: Value) {
    && (v.Array? ==> s.minItems <= |v.items| <= s.maxItems)
    && (v.Object? ==> s.minProperties <= |v.members| <= s.maxProperties && HasRequired(s, v.members))
  }

  predicate ChildrenConform(s: Schema, v: Value)
    decreases v, s, 0
  {
    && (v.Array? ==> forall i | 0 <= i < |v.items| ::
          var t := ItemSchema(s, i);
          t.Some? && Conforms(t.value, v.items[i]))
    && (v.Object? ==> forall i | 0 <= i < |v.members| ::
          var t := MemberSchema(s, v.members[i].name);
          t.Some? && Conforms(t.value, v.members[i].value))
  }

  predicate Combined(s: Schema, v: Value)
    decreases v, s, 0
  {
    && AllConform(s.allOf, v)
    && (|s.anyOf| > 0 ==> SomeConforms(s.anyOf, v))
    && (|s.oneOf| > 0 ==> OneConforms(s.oneOf, v))
    && (s.negated.Some? ==> !Conforms(s.negated.value, v))
  }

  predicate AllConform(schemas: seq<Schema>, v: Value)
    decreases v, schemas
  {
    forall i | 0 <= i < |schemas| :: Conforms(schemas[i], v)
  }

  predicate SomeConforms(schemas: seq<Schema>, v: Value)
    decreases v, schemas, 0
  {
    exists i | 0 <= i < |schemas| :: Conforms(schemas[i], v)
  }

  predicate OneConforms(schemas: seq<Schema>, v: Value)
    decreases v, schemas, 1
  {
    SomeConforms(schemas, v)
    && forall i, j | 0 <= i < j < |schemas| :: !(Conforms(schemas[i], v) && Conforms(schemas[j], v))
  }

  // ------------------------------------------------------------ validator

  /**
   * What the validator keeps for an open value: its schema, the schema of the value to come, the parallel
   * validators, the next element index, and the properties seen.
   */
  datatype Context = Context(schema: Schema, valueSchema: Option<Schema>, validators: seq<Validator>,
                             inArray: bool, index: nat, seen: set<nat>)

  datatype Validator = Validator(root: Schema, stack: seq<Context>, valid: bool)

  function New(s: Schema): Validator {
    Validator(s, [], true)
  }

  /** Schemas the validator works with lie inside its root, and parallel validators belong to parallel schemas. */
  ghost predicate Consistent(v: Validator)
    decreases v
  {
    v.valid ==> forall i | 0 <= i < |v.stack| :: ConsistentContext(v.root, v.stack[i])
  }

  ghost predicate Inside(root: Schema, s: Schema) {
    s == root || s < root || s == TYPELESS
  }

  ghost predicate ConsistentContext(root: Schema, c: Context)
    decreases c
  {
    && Inside(root, c.schema) && (c.valueSchema.Some? ==> Inside(root, c.valueSchema.value))
    && |c.validators| == |Parallel(c.schema)|
    && forall j | 0 <= j < |c.validators| ::
         c.validators[j].root == Parallel(c.schema)[j] && c.validators[j].root < root && Consistent(c.validators[j])
  }

  lemma ParallelSmaller(root: Schema, s: Schema, j: nat)
    requires Inside(root, s) && j < |Parallel(s)|
    ensures Parallel(s)[j] < root
  {
    assert Parallel(s)[j] < s by {
      var a, b := |s.allOf|, |s.anyOf|;
      if j < a {
        assert Parallel(s)[j] == s.allOf[j];
      } else if j < a + b {
        assert Parallel(s)[j] == s.anyOf[j - a];
      } else if j < a + b + |s.oneOf| {
        assert Parallel(s)[j] == s.oneOf[j - a - b];
      } else {
        assert Parallel(s)[j] == s.negated.value;
      }
    }
  }

  // Checks of single events against the current schema.

  /** Limits as compared with a signed 64-bit number. */
  predicate CheckInt(s: Schema, i: int) {
    && (IntegerKind in s.types || NumberKind in s.types)
    && (s.minimum.Some? ==>
          match s.minimum.value
          case IntegerLimit(m) =>
            if InInt64(m) then !(if s.exclusiveMinimum then i <= m else i < m) else false
          case DoubleLimit(_) => CheckDoubleMinimum(s, DOUBLE_OF_INTEGER(i)))
    && (s.maximum.Some? ==>
          match s.maximum.value
          case IntegerLimit(m) =>
            if InInt64(m) then !(if s.exclusiveMaximum then i >= m else i > m) else true
          case DoubleLimit(_) => CheckDoubleMaximum(s, DOUBLE_OF_INTEGER(i)))
  }

  /** Limits as compared with an unsigned 64-bit number. */
  predicate CheckUint(s: Schema, i: int) {
    && (IntegerKind in s.types || NumberKind in s.types)
    && (s.minimum.Some? ==>
          match s.minimum.value
          case IntegerLimit(m) =>
            if InUint64(m) then !(if s.exclusiveMinimum then i <= m else i < m) else true
          case DoubleLimit(_) => CheckDoubleMinimum(s, DOUBLE_OF_INTEGER(i)))
    && (s.maximum.Some? ==>
          match s.maximum.value
          case IntegerLimit(m) =>
            if InUint64(m) then !(if s.exclusiveMaximum then i >= m else i > m) else false
          case DoubleLimit(_) => CheckDoubleMaximum(s, DOUBLE_OF_INTEGER(i)))
  }

  predicate CheckDoubleMinimum(s: Schema, d: real)
    requires s.minimum.Some?
  {
    !(if s.exclusiveMinimum then d <= s.minimum.value.AsDouble() else d < s.minimum.value.AsDouble())
  }

  predicate CheckDoubleMaximum(s: Schema, d: real)
    requires s.maximum.Some?
  {
    !(if s.exclusiveMaximum then d >= s.maximum.value.AsDouble() else d > s.maximum.value.AsDouble())
  }

  predicate CheckDouble(s: Schema, d: real) {
    && NumberKind in s.types
    && (s.minimum.Some? ==> CheckDoubleMinimum(s, d))
    && (s.maximum.Some? ==> CheckDoubleMaximum(s, d))
  }

  predicate IsStart(e: Event) {
    e.StartObject? || e.StartArray?
  }

  predicate IsEnd(e: Event) {
    e.EndObject? || e.EndArray?
  }

  /** The check at the first event of a value. */
  predicate Admits(s: Schema, e: Event)
    requires !e.KeyEvent? && !IsEnd(e)
  {
    match e
    case NullEvent => NullKind in s.types
    case BoolEvent(_) => BooleanKind in s.types
    case IntEvent(n) => CheckInt(s, n)
    case UintEvent(n) => CheckUint(s, n)
    case Int64Event(n) => CheckInt(s, n)
    case Uint64Event(n) => CheckUint(s, n)
    case DoubleEvent(literal) => CheckDouble(s, DOUBLE_OF_LITERAL(literal))
    case StringEvent(str) => StringKind in s.types && LengthWithin(s, str)
    case StartObject => ObjectKind in s.types
    case StartArray => ArrayKind in s.types
  }

  /** The checks at the end of a container. */
  predicate AdmitsEnd(c: Context, e: Event)
    requires IsEnd(e)
  {
    match e
    case EndArray(count) => c.schema.minItems <= count <= c.schema.maxItems
    case EndObject(count) =>
      && (forall i | 0 <= i < |c.schema.properties| && c.schema.properties[i].required
                     && c.schema.properties[i].schema.defaultValueLength == 0 :: i in c.seen)
      && c.schema.minProperties <= count <= c.schema.maxProperties
  }

  predicate AllPass(validators: seq<Validator>) {
    forall i | 0 <= i < |validators| :: validators[i].valid
  }

  predicate SomePass(validators: seq<Validator>) {
    exists i | 0 <= i < |validators| :: validators[i].valid
  }

  predicate OnePasses(validators: seq<Validator>) {
    SomePass(validators)
    && forall i, j | 0 <= i < j < |validators| :: !(validators[i].valid && validators[j].valid)
  }

  /** The verdict of the parallel validators at the end of a value. */
  predicate EndValue(s: Schema, validators: seq<Validator>)
    requires |validators| == |Parallel(s)|
  {
    var a, b, c := |s.allOf|, |s.allOf| + |s.anyOf|, |s.allOf| + |s.anyOf| + |s.oneOf|;
    && AllPass(validators[..a])
    && (|s.anyOf| > 0 ==> SomePass(validators[a..b]))
    && (|s.oneOf| > 0 ==> OnePasses(validators[b..c]))
    && (s.negated.Some? ==> !validators[c].valid)
  }

  /** The schema the next value of an open container is checked against. */
  function NextSchema(c: Context): Option<Schema> {
    if c.inArray then ItemSchema(c.schema, c.index) else c.valueSchema
  }

  /** The container once its next value has begun. */
  function Counted(c: Context): Context {
    if c.inArray then c.(valueSchema := ItemSchema(c.schema, c.index), index := c.index + 1) else c
  }

  function Top(stack: seq<Context>): Context
    requires |stack| > 0
  {
    stack[|stack| - 1]
  }

  /** The schema of the value about to begin. */
  function Expected(v: Validator): Option<Schema> {
    if |v.stack| == 0 then Some(v.root) else NextSchema(Top(v.stack))
  }

  function CountedStack(stack: seq<Context>): (r: seq<Context>)
    ensures |r| == |stack|
  {
    if |stack| == 0 then [] else stack[..|stack| - 1] + [Counted(Top(stack))]
  }

  /** A validator for every parallel schema. */
  function Fresh(s: Schema): (r: seq<Validator>)
    ensures |r| == |Parallel(s)| && forall j | 0 <= j < |r| :: r[j] == New(Parallel(s)[j])
  {
    seq(|Parallel(s)|, j requires 0 <= j < |Parallel(s)| => New(Parallel(s)[j]))
  }

  /** A context as it is pushed, before the schema has seen the event. */
  function Pushed(s: Schema): Context {
    Context(s, None, [], false, 0, {})
  }

  function Opened(s: Schema, e: Event): Context {
    Pushed(s).(validators := Fresh(s), inArray := e.StartArray?)
  }

  /** The context after a name; none if the object may not have such a member. */
  function Named(c: Context, name: Text): Option<Context> {
    var t := MemberSchema(c.schema, name);
    if t.None? then None
    else
      var i := FindProperty(c.schema.properties, name);
      Some(c.(valueSchema := t, seen := if i < |c.schema.properties| then c.seen + {i} else c.seen))
  }

  lemma PartsInside(root: Schema, s: Schema, index: nat, name: Text)
    requires Inside(root, s)
    ensures ItemSchema(s, index).Some? ==> Inside(root, ItemSchema(s, index).value)
    ensures MemberSchema(s, name).Some? ==> Inside(root, MemberSchema(s, name).value)
  {
    var i := FindProperty(s.properties, name);
    if i < |s.properties| {
      assert s.properties[i].schema < s;
    }
  }

  lemma NamedConsistent(root: Schema, c: Context, name: Text)
    requires ConsistentContext(root, c) && Named(c, name).Some?
    ensures ConsistentContext(root, Named(c, name).value)
  {
    PartsInside(root, c.schema, 0, name);
  }

  lemma OpenedConsistent(v: Validator, e: Event)
    requires Consistent(v) && v.valid && Expected(v).Some?
    ensures forall i | 0 <= i < |v.stack| :: ConsistentContext(v.root, CountedStack(v.stack)[i])
    ensures |CountedStack(v.stack)| == |v.stack| && ConsistentContext(v.root, Opened(Expected(v).value, e))
  {
    var s := Expected(v).value;
    if |v.stack| > 0 {
      var top := Top(v.stack);
      PartsInside(v.root, top.schema, top.index, []);
      assert ConsistentContext(v.root, Counted(top));
    }
    forall j | 0 <= j < |Parallel(s)| ensures Parallel(s)[j] < v.root {
      ParallelSmaller(v.root, s, j);
    }
  }

  /** One event for each of some validators. */
  function FeedEach(ghost limit: Schema, validators: seq<Validator>, e: Event): (r: seq<Validator>)
    requires forall j | 0 <= j < |validators| :: Consistent(validators[j]) && validators[j].root < limit
    ensures |r| == |validators|
    ensures forall j | 0 <= j < |r| :: r[j] == Feed(validators[j], e)
    decreases limit, 0, |validators|
  {
    if |validators| == 0 then []
    else [Feed(validators[0], e)] + FeedEach(limit, validators[1..], e)
  }

  /** One event for the parallel validators of an open value. */
  function FeedContext(root: Schema, c: Context, e: Event): (r: Context)
    requires ConsistentContext(root, c)
    ensures ConsistentContext(root, r) && r == c.(validators := FeedEach(root, c.validators, e))
    decreases root, 1, 0
  {
    c.(validators := FeedEach(root, c.validators, e))
  }

  /** One event for every open value. */
  function Broadcast(root: Schema, stack: seq<Context>, e: Event): (r: seq<Context>)
    requires forall i | 0 <= i < |stack| :: ConsistentContext(root, stack[i])
    ensures |r| == |stack|
    ensures forall i | 0 <= i < |r| :: ConsistentContext(root, r[i]) && r[i] == FeedContext(root, stack[i], e)
    decreases root, 2, 0
  {
    seq(|stack|, i requires 0 <= i < |stack| => FeedContext(root, stack[i], e))
  }

  /** One event for a validator. */
  function Feed(v: Validator, e: Event): (r: Validator)
    requires Consistent(v)
    ensures Consistent(r) && r.root == v.root
    decreases v.root, 4, 0
  {
    if !v.valid then v
    else if e.KeyEvent? then FeedKey(v, e)
    else if IsEnd(e) then FeedEnd(v, e)
    else FeedBegin(v, e)
  }

  function FeedKey(v: Validator, e: Event): (r: Validator)
    requires Consistent(v) && v.valid && e.KeyEvent?
    ensures Consistent(r) && r.root == v.root
    decreases v.root, 3, 0
  {
    var n := |v.stack| - 1;
    if n < 0 then v.(valid := false)
    else
      var named := Named(v.stack[n], e.str);
      if named.None? then v.(valid := false)
      else
        NamedConsistent(v.root, v.stack[n], e.str);
        v.(stack := Broadcast(v.root, v.stack[..n] + [named.value], e))
  }

  function FeedEnd(v: Validator, e: Event): (r: Validator)
    requires Consistent(v) && v.valid && IsEnd(e)
    ensures Consistent(r) && r.root == v.root
    decreases v.root, 3, 0
  {
    var stack := Broadcast(v.root, v.stack, e);
    var n := |v.stack| - 1;
    if n < 0 || !AdmitsEnd(stack[n], e) || !EndValue(stack[n].schema, stack[n].validators)
    then Validator(v.root, stack, false)
    else Validator(v.root, stack[..n], true)
  }

  function FeedBegin(v: Validator, e: Event): (r: Validator)
    requires Consistent(v) && v.valid && !e.KeyEvent? && !IsEnd(e)
    ensures Consistent(r) && r.root == v.root
    decreases v.root, 3, 0
  {
    var s := Expected(v);
    if s.None? then v.(valid := false)
    else if !Admits(s.value, e) then Validator(v.root, CountedStack(v.stack) + [Pushed(s.value)], false)
    else
      OpenedConsistent(v, e);
      var stack := Broadcast(v.root, CountedStack(v.stack) + [Opened(s.value, e)], e);
      var n := |v.stack|;
      if IsStart(e) then Validator(v.root, stack, true)
      else if EndValue(stack[n].schema, stack[n].validators) then Validator(v.root, stack[..n], true)
      else Validator(v.root, stack, false)
  }
}

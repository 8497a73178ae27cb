/** How a schema gathers its properties from the names under "properties" and "required". */
module SchemaProperties {
  import opened Bytes
  import opened Document
  import opened Options
  import opened Schemas

  datatype Entry = Entry(name: Text, schema: Schema)

  predicate Distinct(ps: seq<Property>) {
    forall i, j | 0 <= i < j < |ps| :: ps[i].name != ps[j].name
  }

  predicate Declares(entries: seq<Entry>, name: Text) {
    exists k | 0 <= k < |entries| :: entries[k].name == name
  }

  predicate Knows(ps: seq<Property>, name: Text) {
    exists i | 0 <= i < |ps| :: ps[i].name == name
  }

  /** The schema a name is declared with: the last one wins; a name never declared accepts everything. */
  function Declared(entries: seq<Entry>, name: Text): Schema {
    if |entries| == 0 then TYPELESS
    else if entries[|entries| - 1].name == name then entries[|entries| - 1].schema
    else Declared(entries[..|entries| - 1], name)
  }

  lemma FindsDistinct(ps: seq<Property>, i: nat)
    requires Distinct(ps) && i < |ps|
    ensures FindProperty(ps, ps[i].name) == i
  {
  }

  lemma Found(ps: seq<Property>, name: Text)
    requires Knows(ps, name)
    ensures FindProperty(ps, name) < |ps|
  {
  }

  method AddUnique(ps: seq<Property>, name: Text) returns (r: seq<Property>)
    requires Distinct(ps)
    ensures Distinct(r) && forall n :: Knows(r, n) <==> Knows(ps, n) || n == name
    ensures forall i | 0 <= i < |r| :: r[i] in ps || r[i] == Property(name, TYPELESS, false)
  {
    for i := 0 to |ps|
      invariant forall j | 0 <= j < i :: ps[j].name != name
    {
      if ps[i].name == name {
        return ps;
      }
    }
    r := ps + [Property(name, TYPELESS, false)];
    forall n ensures Knows(r, n) <==> Knows(ps, n) || n == name {
      if Knows(ps, n) {
        var i :| 0 <= i < |ps| && ps[i].name == n;
        assert r[i].name == n;
      }
      assert r[|ps|].name == name;
    }
  }

  /** One property for every declared or required name, with the schema it is declared with and its mark. */
  ghost predicate Gathered(ps: seq<Property>, entries: seq<Entry>, required: seq<Text>) {
    && Distinct(ps)
    && (forall name :: Knows(ps, name) <==> Declares(entries, name) || name in required)
    && forall i | 0 <= i < |ps| ::
         ps[i].schema == Declared(entries, ps[i].name) && ps[i].required == (ps[i].name in required)
  }

  method Gather(entries: seq<Entry>, required: seq<Text>) returns (r: seq<Property>)
    ensures Gathered(r, entries, required)
  {
    r := Names(entries, required);
    for k := 0 to |entries|
      invariant Distinct(r) && forall name :: Knows(r, name) <==> Declares(entries, name) || name in required
      invariant forall i | 0 <= i < |r| :: r[i].schema == Declared(entries[..k], r[i].name) && !r[i].required
    {
      assert Declares(entries, entries[k].name);
      Found(r, entries[k].name);
      var i := FindProperty(r, entries[k].name);
      assert entries[..k + 1][..k] == entries[..k];
      if i < |r| {
        r := Renewed(r, i, r[i].(schema := entries[k].schema));
      }
    }
    assert entries[..|entries|] == entries;
    for k := 0 to |required|
      invariant Distinct(r) && forall name :: Knows(r, name) <==> Declares(entries, name) || name in required
      invariant forall i | 0 <= i < |r| ::
                  r[i].schema == Declared(entries, r[i].name) && r[i].required == (r[i].name in required[..k])
    {
      Found(r, required[k]);
      var i := FindProperty(r, required[k]);
      assert required[..k + 1] == required[..k] + [required[k]];
      if i < |r| {
        r := Renewed(r, i, r[i].(required := true));
      }
    }
    assert required[..|required|] == required;
  }

  /** Replaces a property by another of the same name. */
  method Renewed(ps: seq<Property>, i: nat, p: Property) returns (r: seq<Property>)
    requires i < |ps| && p.name == ps[i].name && Distinct(ps)
    ensures r == ps[i := p] && Distinct(r) && forall n :: Knows(r, n) <==> Knows(ps, n)
    ensures forall j | 0 <= j < |r| && j != i :: r[j] == ps[j] && r[j].name != p.name
  {
    r := ps[i := p];
    forall n ensures Knows(r, n) <==> Knows(ps, n) {
      if Knows(ps, n) {
        var j :| 0 <= j < |ps| && ps[j].name == n;
        assert r[j].name == n;
      }
      if Knows(r, n) {
        var j :| 0 <= j < |r| && r[j].name == n;
        assert ps[j].name == n;
      }
    }
  }

  /** All names once each, in order of first appearance, none of them with a schema or required yet. */
  method Names(entries: seq<Entry>, required: seq<Text>) returns (r: seq<Property>)
    ensures Distinct(r) && forall name :: Knows(r, name) <==> Declares(entries, name) || name in required
    ensures forall i | 0 <= i < |r| :: r[i].schema == TYPELESS && !r[i].required
  {
    r := [];
    for k := 0 to |entries|
      invariant Distinct(r) && forall name :: Knows(r, name) <==> Declares(entries[..k], name)
      invariant forall i | 0 <= i < |r| :: r[i].schema == TYPELESS && !r[i].required
    {
      r := AddUnique(r, entries[k].name);
      DeclaresOneMore(entries, k);
    }
    assert entries[..|entries|] == entries;
    for k := 0 to |required|
      invariant Distinct(r) && forall name :: Knows(r, name) <==> Declares(entries, name) || name in required[..k]
      invariant forall i | 0 <= i < |r| :: r[i].schema == TYPELESS && !r[i].required
    {
      r := AddUnique(r, required[k]);
      assert required[..k + 1] == required[..k] + [required[k]];
    }
    assert required[..|required|] == required;
  }

  lemma DeclaresOneMore(entries: seq<Entry>, k: nat)
    requires k < |entries|
    ensures forall name :: Declares(entries[..k + 1], name) <==> Declares(entries[..k], name) || name == entries[k].name
  {
    forall name
      ensures Declares(entries[..k + 1], name) <==> Declares(entries[..k], name) || name == entries[k].name
    {
      if Declares(entries[..k], name) {
        var j :| 0 <= j < k && entries[..k][j].name == name;
        assert entries[..k + 1][j].name == name;
      }
      if Declares(entries[..k + 1], name) {
        var j :| 0 <= j < k + 1 && entries[..k + 1][j].name == name;
        assert j < k ==> entries[..k][j].name == name;
      }
      assert entries[..k + 1][k].name == entries[k].name;
    }
  }

  // -------------------------------------------- what a compiled schema says

  predicate HasMember(members: seq<Member>, name: Text) {
    exists k | 0 <= k < |members| :: members[k].name == name
  }

  /** A name declared or required is known, with the schema of its declaration; others are as for additional ones. */
  lemma RequiredNamesAreKnown(s: Schema, entries: seq<Entry>, required: seq<Text>, name: Text)
    requires Gathered(s.properties, entries, required)
    ensures MemberSchema(s, name) ==
            if Declares(entries, name) || name in required then Some(Declared(entries, name))
            else if s.additionalPropertiesSchema.Some? then s.additionalPropertiesSchema
            else if s.additionalProperties then Some(TYPELESS)
            else None
  {
    var i := FindProperty(s.properties, name);
    if i < |s.properties| {
      assert Knows(s.properties, name);
    }
  }

  /** With distinct names a required property is missing exactly if no member has its name. */
  lemma MissingMeansAbsent(s: Schema, members: seq<Member>)
    requires Distinct(s.properties)
    ensures HasRequired(s, members) <==>
            forall i | 0 <= i < |s.properties| && s.properties[i].required
                       && s.properties[i].schema.defaultValueLength == 0 :: HasMember(members, s.properties[i].name)
  {
    var p := s.properties;
    forall i | 0 <= i < |p|
      ensures (exists k | 0 <= k < |members| :: FindProperty(p, members[k].name) == i) <==> HasMember(members, p[i].name)
    {
      FindsDistinct(p, i);
      if k :| 0 <= k < |members| && members[k].name == p[i].name {
        assert FindProperty(p, members[k].name) == i;
      }
    }
  }

  /** Every required name, but for those whose declared schema has a default text, is the name of a member. */
  ghost predicate RequiredPresent(entries: seq<Entry>, required: seq<Text>, members: seq<Member>) {
    forall name | name in required && Declared(entries, name).defaultValueLength == 0 :: HasMember(members, name)
  }

  /** Every member conforms to the declaration of its name, or is additional and allowed so. */
  ghost predicate MembersAllowed(s: Schema, entries: seq<Entry>, required: seq<Text>, members: seq<Member>) {
    forall k | 0 <= k < |members| ::
      if Declares(entries, members[k].name) || members[k].name in required
      then Conforms(Declared(entries, members[k].name), members[k].value)
      else if s.additionalPropertiesSchema.Some? then Conforms(s.additionalPropertiesSchema.value, members[k].value)
      else s.additionalProperties
  }

  lemma RequiredAsGathered(s: Schema, entries: seq<Entry>, required: seq<Text>, members: seq<Member>)
    requires Gathered(s.properties, entries, required)
    ensures HasRequired(s, members) <==> RequiredPresent(entries, required, members)
  {
    hide HasMember, HasRequired, Declared, Declares;
    MissingMeansAbsent(s, members);
    var p := s.properties;
    if HasRequired(s, members) {
      forall name | name in required && Declared(entries, name).defaultValueLength == 0 ensures HasMember(members, name) {
        assert Knows(p, name);
        var i :| 0 <= i < |p| && p[i].name == name;
      }
    } else {
      var i :| 0 <= i < |p| && p[i].required && p[i].schema.defaultValueLength == 0 && !HasMember(members, p[i].name);
      assert p[i].name in required;
    }
  }

  lemma {:induction false} ValidItem(items: seq<Value>, k: nat)
    requires AllValid(items, true) && k < |items|
    ensures Valid(items[k], true)
  {
    if k > 0 {
      ValidItem(items[1..], k - 1);
    }
  }

  lemma {:induction false} ValidMember(members: seq<Member>, k: nat)
    requires AllMembersValid(members, true) && k < |members|
    ensures Valid(members[k].value, true)
  {
    if k > 0 {
      ValidMember(members[1..], k - 1);
    }
  }

  /** The schema without restrictions accepts every value. */
  lemma {:induction false} TypelessAccepts(v: Value)
    requires Valid(v, true)
    ensures Conforms(TYPELESS, v)
    decreases v
  {
    if v.Array? {
      forall i | 0 <= i < |v.items| ensures Conforms(TYPELESS, v.items[i]) {
        ValidItem(v.items, i);
        TypelessAccepts(v.items[i]);
      }
    } else if v.Object? {
      forall i | 0 <= i < |v.members| ensures Conforms(TYPELESS, v.members[i].value) {
        ValidMember(v.members, i);
        TypelessAccepts(v.members[i].value);
      }
    }
  }

  /**
   * What "properties", "required" and "additionalProperties" together mean for an object once gathered: members with a
   * declared or required name conform to the declaration, others are allowed as additional ones, and no required name
   * is missing whose declared schema has no default text.
   */
  lemma GatheredMeaning(s: Schema, entries: seq<Entry>, required: seq<Text>, members: seq<Member>)
    requires Gathered(s.properties, entries, required) && Valid(Object(members), true)
    ensures Conforms(s, Object(members)) <==>
            && Admissible(s, Object(members)) && s.minProperties <= |members| <= s.maxProperties
            && RequiredPresent(entries, required, members) && MembersAllowed(s, entries, required, members)
            && Combined(s, Object(members))
  {
    hide Gathered, HasRequired, RequiredPresent, Combined, Declares, Declared, Admissible;
    RequiredAsGathered(s, entries, required, members);
    forall k | 0 <= k < |members|
      ensures var m, t := members[k], MemberSchema(s, members[k].name);
              (t.Some? && Conforms(t.value, m.value)) <==>
                if Declares(entries, m.name) || m.name in required then Conforms(Declared(entries, m.name), m.value)
                else if s.additionalPropertiesSchema.Some? then Conforms(s.additionalPropertiesSchema.value, m.value)
                else s.additionalProperties
    {
      RequiredNamesAreKnown(s, entries, required, members[k].name);
      ValidMember(members, k);
      TypelessAccepts(members[k].value);
    }
  }

  /** A schema that takes over its properties from the two keywords means what they say. */
  method Compile(base: Schema, entries: seq<Entry>, required: seq<Text>) returns (s: Schema)
    ensures s == base.(properties := s.properties)
    ensures forall members | Valid(Object(members), true) ::
              Conforms(s, Object(members)) <==>
                && Admissible(s, Object(members)) && s.minProperties <= |members| <= s.maxProperties
                && RequiredPresent(entries, required, members) && MembersAllowed(s, entries, required, members)
                && Combined(s, Object(members))
  {
    hide Gathered, Conforms, Admissible, Combined, RequiredPresent, MembersAllowed, Valid;
    var ps := Gather(entries, required);
    s := base.(properties := ps);
    forall members | Valid(Object(members), true)
      ensures Conforms(s, Object(members)) <==>
              && Admissible(s, Object(members)) && s.minProperties <= |members| <= s.maxProperties
              && RequiredPresent(entries, required, members) && MembersAllowed(s, entries, required, members)
              && Combined(s, Object(members))
    {
      GatheredMeaning(s, entries, required, members);
    }
  }

  /** An object schema with one required property, whose own schema has a default text of some length. */
  function OneRequired(name: Text, defaultValueLength: nat): Schema {
    TYPELESS.(properties := [Property(name, TYPELESS.(defaultValueLength := defaultValueLength), true)])
  }

  /** The empty object lacks the required property; it is rejected exactly if that has no default text. */
  lemma DefaultHidesMissing(name: Text, defaultValueLength: nat)
    ensures Conforms(OneRequired(name, defaultValueLength), Object([])) <==> defaultValueLength > 0
  {
    var s := OneRequired(name, defaultValueLength);
    assert s.properties[0].required && s.properties[0].schema.defaultValueLength == defaultValueLength;
    assert HasRequired(s, []) <==> defaultValueLength > 0;
    assert Admissible(s, Object([])) && ChildrenConform(s, Object([])) && Combined(s, Object([]));
  }
}

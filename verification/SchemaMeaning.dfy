/** What the keywords for arrays and strings mean, told without the functions that the validator follows. */
module SchemaMeaning {
  import opened Bytes
  import opened Encodings
  import opened Document
  import opened Options
  import opened Schemas
  import opened SchemaProperties

  /** An element is allowed: by the one schema for all, by that of its place, or as an additional one. */
  predicate ElementAllowed(s: Schema, items: seq<Value>, i: nat)
    requires i < |items|
  {
    match s.items
    case AnyItems => true
    case ListItems(each) => Conforms(each, items[i])
    case TupleItems(tuple) =>
      if i < |tuple| then Conforms(tuple[i], items[i])
      else if s.additionalItemsSchema.Some? then Conforms(s.additionalItemsSchema.value, items[i])
      else s.additionalItems
  }

  /** An array conforms exactly if its elements are allowed and it meets the limits and the other keywords. */
  lemma ArrayMeaning(s: Schema, items: seq<Value>)
    requires Valid(Array(items), true)
    ensures Conforms(s, Array(items)) <==>
            && ArrayKind in s.types && s.minItems <= |items| <= s.maxItems
            && (forall i | 0 <= i < |items| :: ElementAllowed(s, items, i))
            && Combined(s, Array(items))
  {
    hide Combined;
    forall i | 0 <= i < |items|
      ensures ElementAllowed(s, items, i) <==> ItemSchema(s, i).Some? && Conforms(ItemSchema(s, i).value, items[i])
    {
      ValidItem(items, i);
      TypelessAccepts(items[i]);
    }
  }

  /** A list of integers does not accept a string. */
  lemma ListChecksElements()
    ensures !Conforms(TYPELESS.(items := ListItems(TYPELESS.(types := {IntegerKind}))), Array([String([ONE])]))
  {
    var each := TYPELESS.(types := {IntegerKind});
    var items := [String([ONE])];
    assert !Conforms(each, items[0]);
    assert items[1..] == [] && Valid(items[0], true) && AllValid(items, true);
    ArrayMeaning(TYPELESS.(items := ListItems(each)), items);
    assert !ElementAllowed(TYPELESS.(items := ListItems(each)), items, 0);
  }

  /** Lengths are those of the scalar values a string encodes; a string that encodes none has any length. */
  lemma LengthMeaning(s: Schema, cs: seq<nat>)
    requires forall i | 0 <= i < |cs| :: IsScalar(cs[i])
    requires |cs| <= NO_LIMIT
    ensures Admissible(s, String(EncodeAll(cs))) <==> StringKind in s.types && s.minLength <= |cs| <= s.maxLength
  {
    hide DecodeAll, EncodeAll;
    DecodeAllEncodeAll([], cs);
    assert [] + EncodeAll(cs) == EncodeAll(cs);
  }

  lemma MalformedHasAnyLength(s: Schema, str: Text)
    requires !IsUTF8(str)
    ensures Admissible(s, String(str)) <==> StringKind in s.types
  {
    hide DecodeAll;
  }
}

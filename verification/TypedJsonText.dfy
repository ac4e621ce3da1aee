/** Typed values through JSON text: written, printed, parsed and read. */
module TypedJsonText {
  import opened Wrappers
  import opened Strings
  import opened JsonGaps
  import opened JsonParser
  import opened JsonPrinter
  import opened JsonRoundTrip
  import opened TypedJson
  import NamedEnums

  predicate PrintableValue(value: Json)
    decreases value
  {
    match value
    case Number(n) => 0 - NUMBER_LIMIT < n < NUMBER_LIMIT
    case Array(items) => forall i | 0 <= i < |items| :: PrintableValue(items[i])
    case Object(members) => forall name | name in members :: PrintableValue(members[name])
    case _ => true
  }

  /** Every number of a document shows in its value. */
  lemma {:induction false} NumbersShow(tree: Tree)
    requires DistinctNames(tree) && PrintableValue(Value(tree, false))
    ensures Printable(tree)
    decreases tree
  {
    match tree
    case ArrayNode(items) =>
      forall i | 0 <= i < |items|
        ensures Printable(items[i])
      {
        assert Values(items, false)[i] == Value(items[i], false);
        NumbersShow(items[i]);
      }
    case ObjectNode(entries) =>
      EntryValuesAre(entries, map[]);
      forall i | 0 <= i < |entries|
        ensures Printable(entries[i].value)
      {
        assert entries[i].name in EntryValues(entries, map[], false);
        NumbersShow(entries[i].value);
      }
    case _ =>
  }

  /** The text layer keeps the value: numbers print exactly, and strings and names hold no NUL. */
  ghost predicate TextSafe(t: FieldType, v: FieldValue)
    decreases t, v
  {
    match (t, v)
    case (IntField, IntValue(n)) => 0 - NUMBER_LIMIT < n < NUMBER_LIMIT
    case (StringField, StringValue(s)) => '\0' !in s
    case (VectorField(item), VectorValue(items)) => forall i | 0 <= i < |items| :: TextSafe(item, items[i])
    case (OptionalField(item), OptionalValue(engaged)) => engaged.Some? ==> TextSafe(item, engaged.value)
    case (ObjectField(properties, _), ObjectValue(fields)) =>
      && |fields| == |properties|
      && forall i | 0 <= i < |properties| :: '\0' !in properties[i].name && TextSafe(properties[i].t, fields[i])
    case _ => true
  }

  ghost predicate Safe(value: Json) {
    NulFreeValue(value) && PrintableValue(value)
  }

  lemma NameIsNulFree(items: seq<NamedEnums.Item>, i: nat)
    requires NamedEnums.Named(items) && i < |items|
    ensures '\0' !in items[i].name
  {
    assert NamedEnums.IsIdentifier(items[i].name);
  }

  lemma {:induction false} JoinIsNulFree(items: seq<NamedEnums.Item>, found: seq<NamedEnums.Item>)
    requires NamedEnums.Named(items) && forall i | 0 <= i < |found| :: found[i] in items
    ensures '\0' !in NamedEnums.Join(found)
  {
    hide NamedEnums.Named;
    if found != [] {
      var k :| 0 <= k < |items| && items[k] == found[0];
      NameIsNulFree(items, k);
      if |found| > 1 {
        JoinIsNulFree(items, found[1..]);
      }
    }
  }

  lemma DigitsAreNulFree(digits: string)
    requires AllDigits(digits)
    ensures '\0' !in digits && '\0' !in "-" + digits
  {
    assert forall i | 0 <= i < |digits| :: IsDigit(digits[i]);
  }

  lemma EnumTextIsNulFree(d: NamedEnums.Definition, bits: NamedEnums.Bits)
    requires NamedEnums.Named(d.items)
    ensures '\0' !in NamedEnums.Text(d, bits)
  {
    hide NamedEnums.Named, NamedEnums.Join, DigitsOfNat, NatOfDigits, NamedEnums.Signed, AllDigits;
    var item := NamedEnums.NameOf(d.items, bits);
    if item.Some? {
      var k :| 0 <= k < |d.items| && d.items[k] == item.value;
      NameIsNulFree(d.items, k);
    } else {
      JoinIsNulFree(d.items, NamedEnums.FlagsIn(d.items, bits));
      var n := NamedEnums.Signed(bits);
      DigitsAreNulFree(DigitsOfNat(if n < 0 then 0 - n else n));
    }
  }

  lemma SignedIsPrintable(bits: NamedEnums.Bits)
    ensures 0 - NUMBER_LIMIT < NamedEnums.Signed(bits) < NUMBER_LIMIT
  {
  }

  lemma {:induction false} JsonIsSafe(t: FieldType, v: FieldValue)
    requires Declared(t) && HasType(t, v) && TextSafe(t, v)
    ensures Safe(ToJson(t, v))
    decreases t, 1, 0
  {
    hide NamedEnums.Named, NamedEnums.Text, NamedEnums.Signed, Members;
    match t
    case EnumField(d) =>
      if d.items != [] {
        EnumTextIsNulFree(d, v.v);
      } else {
        SignedIsPrintable(v.v);
      }
    case VectorField(item) =>
      forall i | 0 <= i < |v.items|
        ensures Safe(ItemsToJson(item, v.items)[i])
      {
        JsonIsSafe(item, v.items[i]);
      }
    case OptionalField(item) =>
      if v.engaged.Some? {
        JsonIsSafe(item, v.engaged.value);
      }
    case ObjectField(properties, _) =>
      MembersAreSafe(t, v.fields, |properties|);
    case _ =>
  }

  lemma {:induction false} MembersAreSafe(t: FieldType, fields: seq<FieldValue>, count: nat)
    requires t.ObjectField? && Declared(t) && FieldsHaveTypes(t.properties, fields)
    requires TextSafe(t, ObjectValue(fields)) && count <= |t.properties|
    ensures Safe(Object(Members(t, fields, count)))
    decreases t, 0, count
  {
    hide NamedEnums.Named, ToJson, Omitted;
    if count > 0 {
      MembersAreSafe(t, fields, count - 1);
      JsonIsSafe(t.properties[count - 1].t, fields[count - 1]);
    }
  }

  /** A typed value that is written, printed in any way and with its members in any order, parsed, and read over
      another value comes back exactly when it is recoverable. */
  lemma TypedTextRoundTrip(t: FieldType, v: FieldValue, current: FieldValue, tree: Tree, o: Options, ending: Gap, depth: nat)
    requires Declared(t) && HasType(t, v) && HasType(t, current) && TextSafe(t, v)
    requires Value(tree, false) == ToJson(t, v) && DistinctNames(tree) && IsEnding(o, ending)
    ensures var parsed := ParseValue(Emit("", tree, o, depth));
      && parsed.value.Some? && parsed.rest == ""
      && (FromJson(t, parsed.value.value, current) == Some(v) <==> Recoverable(t, v, current))
  {
    hide Declared, HasType, TextSafe, ToJson, FromJson, Recoverable, Value, DistinctNames, Emit, ParseValue, IsEnding;
    JsonIsSafe(t, v);
    NumbersShow(tree);
    NulShows(tree);
    RoundTripIsExact(tree, o, ending, depth);
    ComesBack(t, v, current);
  }
}

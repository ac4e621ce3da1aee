/** Typed fields as JSON: the descriptor of an object, and the serializers of its fields. */
module TypedJson {
  import opened Wrappers
  import opened Sequences
  import opened JsonParser
  import NamedEnums

  /** The types of fields. Integers are wide enough for every number of this model; a new object of an object
      type starts with the given fields. */
  datatype FieldType =
    | BoolField
    | IntField
    | StringField
    | EnumField(d: NamedEnums.Definition)
    | VectorField(item: FieldType)
    | OptionalField(item: FieldType)
    | ObjectField(properties: seq<Property>, initial: seq<FieldValue>)

  /** Whether a property is required is unset, true, or false; only in the last case is it ever left out. */
  datatype Property = Property(name: string, t: FieldType, isRequired: Option<bool>)

  datatype FieldValue =
    | BoolValue(b: bool)
    | IntValue(n: int)
    | StringValue(s: string)
    | EnumValue(v: NamedEnums.Bits)
    | VectorValue(items: seq<FieldValue>)
    | OptionalValue(engaged: Option<FieldValue>)
    | ObjectValue(fields: seq<FieldValue>)

  ghost predicate HasType(t: FieldType, v: FieldValue)
    decreases t, v
  {
    match (t, v)
    case (BoolField, BoolValue(_)) => true
    case (IntField, IntValue(_)) => true
    case (StringField, StringValue(_)) => true
    case (EnumField(_), EnumValue(_)) => true
    case (VectorField(item), VectorValue(items)) => forall i | 0 <= i < |items| :: HasType(item, items[i])
    case (OptionalField(item), OptionalValue(engaged)) => engaged.Some? ==> HasType(item, engaged.value)
    case (ObjectField(properties, _), ObjectValue(fields)) => FieldsHaveTypes(properties, fields)
    case _ => false
  }

  ghost predicate FieldsHaveTypes(properties: seq<Property>, fields: seq<FieldValue>)
    decreases properties, fields
  {
    |fields| == |properties| && forall i | 0 <= i < |fields| :: HasType(properties[i].t, fields[i])
  }

  /** A newly made value. */
  function Fresh(t: FieldType): FieldValue {
    match t
    case BoolField => BoolValue(false)
    case IntField => IntValue(0)
    case StringField => StringValue("")
    case EnumField(_) => EnumValue(0)
    case VectorField(_) => VectorValue([])
    case OptionalField(_) => OptionalValue(None)
    case ObjectField(_, initial) => ObjectValue(initial)
  }

  /** The declarations make sense: the properties of an object have different names, enumerations have names
      that tell them apart, and a new object has fields of the right types. */
  ghost predicate Declared(t: FieldType) {
    match t
    case EnumField(d) => NamedEnums.Named(d.items)
    case VectorField(item) => Declared(item)
    case OptionalField(item) => Declared(item)
    case ObjectField(properties, initial) =>
      && (forall i | 0 <= i < |properties| :: Declared(properties[i].t))
      && (forall i, j | 0 <= i < j < |properties| :: properties[i].name != properties[j].name)
      && FieldsHaveTypes(properties, initial)
    case _ => true
  }

  // ---------------------------------------------------------------- writing

  predicate IsDefault(t: FieldType, v: FieldValue)
    decreases t, 1, 0
  {
    match (t, v)
    case (BoolField, BoolValue(b)) => !b
    case (IntField, IntValue(n)) => n == 0
    case (StringField, StringValue(s)) => s == ""
    case (EnumField(_), EnumValue(bits)) => bits == 0
    case (VectorField(_), VectorValue(items)) => items == []
    case (OptionalField(_), OptionalValue(engaged)) => engaged.None?
    case (ObjectField(properties, _), ObjectValue(fields)) =>
      |fields| == |properties| && forall i | 0 <= i < |properties| :: Omitted(properties[i], fields[i])
    case _ => false
  }

  /** Only a property that is explicitly not required is left out, and only while it has its default. */
  predicate Omitted(p: Property, v: FieldValue)
    decreases p.t, 2, 0
  {
    p.isRequired == Some(false) && IsDefault(p.t, v)
  }

  function ToJson(t: FieldType, v: FieldValue): Json
    decreases t, 1, 0
  {
    match (t, v)
    case (BoolField, BoolValue(b)) => Boolean(b)
    case (IntField, IntValue(n)) => Number(n)
    case (StringField, StringValue(s)) => Text(s)
    case (EnumField(d), EnumValue(bits)) =>
      if d.items != [] then Text(NamedEnums.Text(d, bits)) else Number(NamedEnums.Signed(bits))
    case (VectorField(item), VectorValue(items)) => Array(ItemsToJson(item, items))
    case (OptionalField(item), OptionalValue(engaged)) => if engaged.Some? then ToJson(item, engaged.value) else Null
    case (ObjectField(properties, _), ObjectValue(fields)) =>
      if |fields| == |properties| then Object(Members(t, fields, |fields|)) else Null
    case _ => Null
  }

  function ItemsToJson(item: FieldType, items: seq<FieldValue>): (values: seq<Json>)
    ensures |values| == |items|
    decreases item, 2, 0
  {
    seq(|items|, i requires 0 <= i < |items| => ToJson(item, items[i]))
  }

  /** The members written for the first properties. */
  function Members(t: FieldType, fields: seq<FieldValue>, count: nat): map<string, Json>
    requires t.ObjectField? && count <= |t.properties| == |fields|
    decreases t, 0, count
  {
    if count == 0 then map[]
    else
      var p, v := t.properties[count - 1], fields[count - 1];
      var earlier := Members(t, fields, count - 1);
      if Omitted(p, v) then earlier else earlier[p.name := ToJson(p.t, v)]
  }

  // ---------------------------------------------------------------- reading

  /** The bits of an enumeration read from a number. */
  function BitsOf(n: int): NamedEnums.Bits {
    (n % 0x1_0000_0000) as NamedEnums.Bits
  }

  /** The value read into a field that has a value already; failing without a value. */
  function FromJson(t: FieldType, json: Json, current: FieldValue): Option<FieldValue>
    decreases t, 1, 0
  {
    match (t, json)
    case (BoolField, Boolean(b)) => Some(BoolValue(b))
    case (IntField, Number(n)) => Some(IntValue(n))
    case (StringField, Text(s)) => Some(StringValue(s))
    case (EnumField(_), Number(n)) => Some(EnumValue(BitsOf(n)))
    case (EnumField(d), Text(s)) =>
      var bits :- NamedEnums.Parse(d, s);
      Some(EnumValue(bits))
    case (VectorField(item), Array(values)) => Some(VectorValue(ItemsFromJson(item, values, |values|)))
    case (OptionalField(item), Null) => Some(OptionalValue(None))
    case (OptionalField(item), _) =>
      var value :- FromJson(item, json, Fresh(item));
      Some(OptionalValue(Some(value)))
    case (ObjectField(properties, _), Object(members)) =>
      if !current.ObjectValue? || |current.fields| != |properties| then None
      else
        var fields :- FieldsFromJson(t, members, current.fields, |properties|);
        Some(ObjectValue(fields))
    case _ => None
  }

  /** The items that could be read; the others are dropped. */
  function ItemsFromJson(item: FieldType, values: seq<Json>, count: nat): (items: seq<FieldValue>)
    requires count <= |values|
    ensures |items| <= count
    decreases item, 2, count
  {
    if count == 0 then []
    else
      var last := FromJson(item, values[count - 1], Fresh(item));
      ItemsFromJson(item, values, count - 1) + if last.Some? then [last.value] else []
  }

  /** The fields after the first properties were read; a missing member leaves its field alone unless it is
      required. */
  function FieldsFromJson(t: FieldType, members: map<string, Json>, current: seq<FieldValue>, count: nat):
    (fields: Option<seq<FieldValue>>)
    requires t.ObjectField? && count <= |t.properties| == |current|
    ensures fields.Some? ==> |fields.value| == |current|
    decreases t, 0, count
  {
    if count == 0 then Some(current)
    else
      var p := t.properties[count - 1];
      var earlier :- FieldsFromJson(t, members, current, count - 1);
      if p.name in members then
        var value :- FromJson(p.t, members[p.name], earlier[count - 1]);
        Some(earlier[count - 1 := value])
      else if p.isRequired == Some(true) then None
      else Some(earlier)
  }

  // ---------------------------------------------------------------- what comes back

  /** What text names an enumeration value can be told from the value. */
  predicate EnumReads(d: NamedEnums.Definition, bits: NamedEnums.Bits) {
    || d.items == []
    || NamedEnums.NameOf(d.items, bits).Some?
    || (d.isFlags && NamedEnums.Clear(bits, NamedEnums.SingleBits(d.items)) == 0)
    || NamedEnums.Signed(bits) >= 0
  }

  /** Nothing in the value is lost when it is written and then read over the current value: enumerations can be
      read from their text, no optional holds an absent optional, and properties that are left out have the
      values that the object read into has already. */
  predicate Recoverable(t: FieldType, v: FieldValue, current: FieldValue)
    decreases t, 1, 0
  {
    match (t, v)
    case (EnumField(d), EnumValue(bits)) => EnumReads(d, bits)
    case (VectorField(item), VectorValue(items)) =>
      forall i | 0 <= i < |items| :: Recoverable(item, items[i], Fresh(item))
    case (OptionalField(item), OptionalValue(engaged)) =>
      engaged.Some? ==>
        && !(item.OptionalField? && engaged.value == OptionalValue(None))
        && Recoverable(item, engaged.value, Fresh(item))
    case (ObjectField(properties, _), ObjectValue(fields)) =>
      && current.ObjectValue? && |current.fields| == |fields| == |properties|
      && forall i | 0 <= i < |properties| :: FieldRecoverable(properties[i], fields[i], current.fields[i])
    case _ => true
  }

  predicate FieldRecoverable(p: Property, v: FieldValue, current: FieldValue)
    decreases p.t, 2, 0
  {
    if Omitted(p, v) then current == v else Recoverable(p.t, v, current)
  }

  lemma {:induction false} FreshHasType(t: FieldType)
    requires Declared(t)
    ensures HasType(t, Fresh(t))
  {
    hide NamedEnums.Named;
  }

  lemma SignedBack(bits: NamedEnums.Bits)
    ensures BitsOf(NamedEnums.Signed(bits)) == bits
  {
    Wraps(bits as int);
    assert (bits as int) as NamedEnums.Bits == bits;
  }

  lemma Wraps(n: nat)
    requires n < 0x1_0000_0000
    ensures n % 0x1_0000_0000 == n && (n - 0x1_0000_0000) % 0x1_0000_0000 == n
  {
  }

  lemma EnumBack(d: NamedEnums.Definition, bits: NamedEnums.Bits, current: FieldValue)
    requires NamedEnums.Named(d.items)
    ensures FromJson(EnumField(d), ToJson(EnumField(d), EnumValue(bits)), current) == Some(EnumValue(bits))
            <==> EnumReads(d, bits)
  {
    hide NamedEnums.Named, NamedEnums.Parse, NamedEnums.Text, NamedEnums.Clear, NamedEnums.SingleBits, NamedEnums.Signed,
      NamedEnums.NameOf, BitsOf;
    if d.items == [] {
      SignedBack(bits);
    } else {
      NamedEnums.TextParses(d, bits);
    }
  }

  /** A value that is written and read over another comes back exactly when it is recoverable. */
  lemma {:induction false} ComesBack(t: FieldType, v: FieldValue, current: FieldValue)
    requires Declared(t) && HasType(t, v) && HasType(t, current)
    ensures FromJson(t, ToJson(t, v), current) == Some(v) <==> Recoverable(t, v, current)
    decreases t, 1, 0
  {
    hide EnumReads, Members, Omitted, ItemsFromJson, FieldsFromJson, FieldRecoverable, NamedEnums.Named;
    match t
    case EnumField(d) =>
      EnumBack(d, v.v, current);
    case VectorField(item) =>
      ItemsComeBack(item, v.items, |v.items|);
      assert v.items[..|v.items|] == v.items;
    case OptionalField(item) =>
      if v.engaged.Some? {
        FreshHasType(item);
        OnlyAbsentIsNull(item, v.engaged.value);
        ComesBack(item, v.engaged.value, Fresh(item));
      }
    case ObjectField(properties, _) =>
      var n := |properties|;
      FieldsComeBack(t, v.fields, current.fields, n);
      assert v.fields[..n] == v.fields;
      var read := FieldsFromJson(t, Members(t, v.fields, n), current.fields, n);
      assert read.Some? ==> read.value[..n] == read.value;
    case _ =>
  }

  /** A value that does not come back: an optional that holds an absent one is read as absent. */
  lemma EngagedAbsentIsLost()
    ensures var t := OptionalField(OptionalField(BoolField));
      FromJson(t, ToJson(t, OptionalValue(Some(OptionalValue(None)))), Fresh(t)) == Some(OptionalValue(None))
  {
  }

  lemma OnlyAbsentIsNull(t: FieldType, v: FieldValue)
    requires HasType(t, v) && Declared(t)
    ensures ToJson(t, v) == Null ==> t.OptionalField?
    ensures t.OptionalField? && v == OptionalValue(None) ==> ToJson(t, v) == Null
  {
    hide NamedEnums.Named, Members;
  }

  lemma {:induction false} ItemsComeBack(item: FieldType, items: seq<FieldValue>, count: nat)
    requires Declared(item) && count <= |items| && forall i | 0 <= i < |items| :: HasType(item, items[i])
    ensures ItemsFromJson(item, ItemsToJson(item, items), count) == items[..count] <==>
            forall i | 0 <= i < count :: Recoverable(item, items[i], Fresh(item))
    decreases item, 2, count
  {
    hide FromJson, ToJson, Recoverable, HasType, Declared, Fresh;
    if count > 0 {
      var last := items[count - 1];
      ItemsComeBack(item, items, count - 1);
      FreshHasType(item);
      ComesBack(item, last, Fresh(item));
      assert items[..count] == items[..count - 1] + [last];
    }
  }

  /** The members of the first properties: one for each property that is not left out. */
  lemma {:induction false} MembersAre(t: FieldType, fields: seq<FieldValue>, count: nat)
    requires t.ObjectField? && count <= |t.properties| == |fields|
    requires forall i, j | 0 <= i < j < |t.properties| :: t.properties[i].name != t.properties[j].name
    ensures var members := Members(t, fields, count);
      && (forall k | k in members :: exists i | 0 <= i < count :: t.properties[i].name == k)
      && forall i | 0 <= i < count :: MemberIs(t.properties[i], fields[i], members)
  {
    hide ToJson, Omitted;
    if count > 0 {
      MembersAre(t, fields, count - 1);
      var earlier := Members(t, fields, count - 1);
      assert t.properties[count - 1].name !in earlier;
    }
  }

  predicate MemberIs(p: Property, v: FieldValue, members: map<string, Json>) {
    if Omitted(p, v) then p.name !in members else p.name in members && members[p.name] == ToJson(p.t, v)
  }

  predicate FirstRecoverable(t: FieldType, fields: seq<FieldValue>, current: seq<FieldValue>, count: nat)
    requires t.ObjectField? && count <= |t.properties| == |fields| == |current|
  {
    forall i | 0 <= i < count :: FieldRecoverable(t.properties[i], fields[i], current[i])
  }

  ghost predicate FieldsBackSoFar(t: FieldType, fields: seq<FieldValue>, current: seq<FieldValue>, count: nat,
                                  read: Option<seq<FieldValue>>)
    requires t.ObjectField? && count <= |t.properties| == |fields| == |current|
  {
    match read
    case None => !FirstRecoverable(t, fields, current, count)
    case Some(r) =>
      && |r| == |current| && r[count..] == current[count..]
      && (r[..count] == fields[..count] <==> FirstRecoverable(t, fields, current, count))
  }

  lemma {:induction false} FieldsComeBack(t: FieldType, fields: seq<FieldValue>, current: seq<FieldValue>, count: nat)
    requires t.ObjectField? && Declared(t) && FieldsHaveTypes(t.properties, fields) && FieldsHaveTypes(t.properties, current)
    requires count <= |t.properties|
    ensures FieldsBackSoFar(t, fields, current, count, FieldsFromJson(t, Members(t, fields, |fields|), current, count))
    decreases t, 0, count
  {
    hide FromJson, ToJson, Recoverable, HasType, Members, Omitted, NamedEnums.Named, FieldsBackSoFar;
    var members := Members(t, fields, |fields|);
    if count == 0 {
      NoFieldsBack(t, fields, current);
    } else {
      var p, v := t.properties[count - 1], fields[count - 1];
      FieldsComeBack(t, fields, current, count - 1);
      MembersAre(t, fields, |fields|);
      assert MemberIs(p, v, members);
      ComesBack(p.t, v, current[count - 1]);
      OneFieldBack(t, fields, current, count, members);
    }
  }

  lemma NoFieldsBack(t: FieldType, fields: seq<FieldValue>, current: seq<FieldValue>)
    requires t.ObjectField? && |t.properties| == |fields| == |current|
    ensures FieldsBackSoFar(t, fields, current, 0, Some(current))
  {
  }

  lemma OneFieldBack(t: FieldType, fields: seq<FieldValue>, current: seq<FieldValue>, count: nat, members: map<string, Json>)
    requires t.ObjectField? && 0 < count <= |t.properties| == |fields| == |current|
    requires MemberIs(t.properties[count - 1], fields[count - 1], members)
    requires var p, v, c := t.properties[count - 1], fields[count - 1], current[count - 1];
      FromJson(p.t, ToJson(p.t, v), c) == Some(v) <==> Recoverable(p.t, v, c)
    requires FieldsBackSoFar(t, fields, current, count - 1, FieldsFromJson(t, members, current, count - 1))
    ensures FieldsBackSoFar(t, fields, current, count, FieldsFromJson(t, members, current, count))
  {
    hide FromJson, ToJson, Recoverable, IsDefault;
    var p, v, c := t.properties[count - 1], fields[count - 1], current[count - 1];
    var earlier := FieldsFromJson(t, members, current, count - 1);
    var read := FieldsFromJson(t, members, current, count);
    assert FirstRecoverable(t, fields, current, count) <==>
           FirstRecoverable(t, fields, current, count - 1) && FieldRecoverable(p, v, c);
    OneMoreOfPrefix(fields, count - 1);
    if earlier.Some? {
      var e := earlier.value;
      OneLessOfSuffix(e, count - 1);
      OneLessOfSuffix(current, count - 1);
      if read.Some? {
        OneMoreOfPrefix(read.value, count - 1);
        assert read.value[..count - 1] == e[..count - 1] && read.value[count..] == e[count..];
        SameEnd(e[..count - 1], fields[..count - 1], read.value[count - 1], v);
      }
    }
  }

  lemma SameEnd<T>(a: seq<T>, b: seq<T>, x: T, y: T)
    requires |a| == |b|
    ensures a + [x] == b + [y] <==> a == b && x == y
  {
    assert (a + [x])[..|a|] == a && (b + [y])[..|b|] == b;
    assert (a + [x])[|a|] == x && (b + [y])[|b|] == y;
  }

  /** An object is default exactly when it is written without members. */
  lemma DefaultIsEmpty(t: FieldType, v: FieldValue)
    requires t.ObjectField? && HasType(t, v) && Declared(t)
    ensures IsDefault(t, v) <==> ToJson(t, v) == Object(map[])
  {
    hide Members, Omitted, Declared;
    var n := |t.properties|;
    DistinctProperties(t);
    MembersAre(t, v.fields, n);
    var members := Members(t, v.fields, n);
    if members != map[] {
      var k :| k in members;
      var i :| 0 <= i < n && t.properties[i].name == k;
      assert MemberIs(t.properties[i], v.fields[i], members);
    } else {
      forall i | 0 <= i < n
        ensures Omitted(t.properties[i], v.fields[i])
      {
        assert MemberIs(t.properties[i], v.fields[i], members);
      }
    }
  }

  /** Apart from objects, a value is default exactly when it is what a newly made value is. */
  lemma DefaultIsFresh(t: FieldType, v: FieldValue)
    requires HasType(t, v) && !t.ObjectField?
    ensures IsDefault(t, v) <==> v == Fresh(t)
  {
    match t
    case BoolField =>
    case IntField =>
    case StringField =>
    case EnumField(_) =>
    case VectorField(_) =>
    case OptionalField(_) =>
  }

  /** An object that can be read into: each property that may be left out has what a newly made value has, and the
      others can be read into in turn. */
  ghost predicate StartsFresh(t: FieldType, current: FieldValue)
    decreases t, 0
  {
    match t
    case ObjectField(properties, _) =>
      && current.ObjectValue? && |current.fields| == |properties|
      && forall i | 0 <= i < |properties| ::
           if properties[i].isRequired == Some(false) then current.fields[i] == Fresh(properties[i].t)
           else StartsFresh(properties[i].t, current.fields[i])
    case _ => true
  }

  /** Every new object of a type that is declared in this one can be read into. */
  ghost predicate AllStartFresh(t: FieldType) {
    match t
    case VectorField(item) => AllStartFresh(item)
    case OptionalField(item) => AllStartFresh(item)
    case ObjectField(properties, _) =>
      StartsFresh(t, Fresh(t)) && forall i | 0 <= i < |properties| :: AllStartFresh(properties[i].t)
    case _ => true
  }

  /** Enumerations can be read from their text, and no optional holds an absent one. */
  ghost predicate Tellable(t: FieldType, v: FieldValue)
    decreases t, v
  {
    match (t, v)
    case (EnumField(d), EnumValue(bits)) => EnumReads(d, bits)
    case (VectorField(item), VectorValue(items)) => forall i | 0 <= i < |items| :: Tellable(item, items[i])
    case (OptionalField(item), OptionalValue(engaged)) =>
      engaged.Some? ==> !(item.OptionalField? && engaged.value == OptionalValue(None)) && Tellable(item, engaged.value)
    case (ObjectField(properties, _), ObjectValue(fields)) =>
      |fields| == |properties| && forall i | 0 <= i < |properties| :: Tellable(properties[i].t, fields[i])
    case _ => true
  }

  lemma {:induction false} DefaultsAreFresh(t: FieldType, v: FieldValue)
    requires HasType(t, v) && Declared(t) && AllStartFresh(t) && IsDefault(t, v)
    ensures v == Fresh(t)
    decreases t
  {
    hide NamedEnums.Named, Declared;
    if t.ObjectField? {
      DeclaredProperties(t);
      forall i | 0 <= i < |t.properties|
        ensures v.fields[i] == t.initial[i]
      {
        assert Omitted(t.properties[i], v.fields[i]);
        DefaultsAreFresh(t.properties[i].t, v.fields[i]);
      }
    } else {
      DefaultIsFresh(t, v);
    }
  }

  lemma DeclaredProperties(t: FieldType)
    requires t.ObjectField? && Declared(t)
    ensures forall i | 0 <= i < |t.properties| :: Declared(t.properties[i].t)
    ensures FieldsHaveTypes(t.properties, t.initial)
  {
  }

  lemma {:induction false} TellableIsRecoverable(t: FieldType, v: FieldValue, current: FieldValue)
    requires HasType(t, v) && Declared(t) && AllStartFresh(t) && Tellable(t, v) && StartsFresh(t, current)
    ensures Recoverable(t, v, current)
    decreases t
  {
    hide NamedEnums.Named, EnumReads, Declared, IsDefault;
    match t
    case VectorField(item) =>
      DeclaredItem(t);
      forall i | 0 <= i < |v.items|
        ensures Recoverable(item, v.items[i], Fresh(item))
      {
        NewStartsFresh(item);
        TellableIsRecoverable(item, v.items[i], Fresh(item));
      }
    case OptionalField(item) =>
      DeclaredItem(t);
      if v.engaged.Some? {
        NewStartsFresh(item);
        TellableIsRecoverable(item, v.engaged.value, Fresh(item));
      }
    case ObjectField(properties, _) =>
      DeclaredProperties(t);
      forall i | 0 <= i < |properties|
        ensures FieldRecoverable(properties[i], v.fields[i], current.fields[i])
      {
        FieldIsRecoverable(t, v, current, i);
      }
    case _ =>
  }

  lemma {:induction false} FieldIsRecoverable(t: FieldType, v: FieldValue, current: FieldValue, i: nat)
    requires t.ObjectField? && v.ObjectValue? && i < |t.properties| && HasType(t, v)
    requires Declared(t.properties[i].t) && AllStartFresh(t) && Tellable(t, v) && StartsFresh(t, current)
    ensures FieldRecoverable(t.properties[i], v.fields[i], current.fields[i])
    decreases t, 0
  {
    hide NamedEnums.Named, EnumReads, Declared, IsDefault, Recoverable;
    var p := t.properties[i];
    if Omitted(p, v.fields[i]) {
      DefaultsAreFresh(p.t, v.fields[i]);
    } else {
      if p.isRequired == Some(false) {
        NewStartsFresh(p.t);
      }
      TellableIsRecoverable(p.t, v.fields[i], current.fields[i]);
    }
  }

  lemma DeclaredItem(t: FieldType)
    requires (t.VectorField? || t.OptionalField?) && Declared(t)
    ensures Declared(t.item)
  {
  }

  lemma NewStartsFresh(t: FieldType)
    requires AllStartFresh(t)
    ensures StartsFresh(t, Fresh(t))
  {
  }

  /** Where the properties that may be left out are newly made in new objects, every value whose enumerations can be
      read and that has no engaged absent optional comes back in a new object, whatever is left out on the way. */
  lemma NewObjectComesBack(t: FieldType, v: FieldValue)
    requires HasType(t, v) && Declared(t) && AllStartFresh(t) && Tellable(t, v)
    ensures FromJson(t, ToJson(t, v), Fresh(t)) == Some(v)
  {
    hide HasType, Declared, FromJson, ToJson, Recoverable, Tellable;
    NewStartsFresh(t);
    FreshHasType(t);
    TellableIsRecoverable(t, v, Fresh(t));
    ComesBack(t, v, Fresh(t));
  }

  /** An object is read exactly when every member there is can be read over the field and every required one is there;
      then each field is what was read, or what it was. */
  lemma {:induction false} FieldsAreReadExactly(t: FieldType, members: map<string, Json>, current: seq<FieldValue>, count: nat)
    requires t.ObjectField? && count <= |t.properties| == |current|
    ensures var fields := FieldsFromJson(t, members, current, count);
      && (fields.Some? <==> forall i | 0 <= i < count ::
           if t.properties[i].name in members then FromJson(t.properties[i].t, members[t.properties[i].name], current[i]).Some?
           else t.properties[i].isRequired != Some(true))
      && (fields.Some? ==> forall i | 0 <= i < |current| ::
           if i < count && t.properties[i].name in members then
             Some(fields.value[i]) == FromJson(t.properties[i].t, members[t.properties[i].name], current[i])
           else fields.value[i] == current[i])
  {
    hide FromJson;
    if count > 0 {
      FieldsAreReadExactly(t, members, current, count - 1);
    }
  }

  /** The JSON forms of the fields: a list of an object with an absent optional and one with an engaged optional. */
  lemma FormOfFields(b: bool, n: int, s: string)
    ensures var t := ObjectField([Property("flag", BoolField, None), Property("value", OptionalField(IntField), None),
                                  Property("name", StringField, Some(true))], []);
      var first, second := ObjectValue([BoolValue(b), OptionalValue(None), StringValue(s)]),
                           ObjectValue([BoolValue(!b), OptionalValue(Some(IntValue(n))), StringValue("")]);
      ToJson(VectorField(t), VectorValue([first, second])) ==
      Array([Object(map["flag" := Boolean(b), "value" := Null, "name" := Text(s)]),
             Object(map["flag" := Boolean(!b), "value" := Number(n), "name" := Text("")])])
  {
    FormOfObject(b, None, s);
    FormOfObject(!b, Some(IntValue(n)), "");
  }

  lemma FormOfObject(b: bool, value: Option<FieldValue>, s: string)
    requires value.Some? ==> value.value.IntValue?
    ensures var t := ObjectField([Property("flag", BoolField, None), Property("value", OptionalField(IntField), None),
                                  Property("name", StringField, Some(true))], []);
      ToJson(t, ObjectValue([BoolValue(b), OptionalValue(value), StringValue(s)])) ==
      Object(map["flag" := Boolean(b), "value" := if value.Some? then Number(value.value.n) else Null, "name" := Text(s)])
  {
    var t := ObjectField([Property("flag", BoolField, None), Property("value", OptionalField(IntField), None),
                          Property("name", StringField, Some(true))], []);
    var fields := [BoolValue(b), OptionalValue(value), StringValue(s)];
    assert Members(t, fields, 1) == map["flag" := Boolean(b)];
    assert Members(t, fields, 2) == map["flag" := Boolean(b), "value" := if value.Some? then Number(value.value.n) else Null];
  }

  lemma DistinctProperties(t: FieldType)
    requires t.ObjectField? && Declared(t)
    ensures forall i, j | 0 <= i < j < |t.properties| :: t.properties[i].name != t.properties[j].name
  {
  }

  // ---------------------------------------------------------------- the serializers

  class JsonObject {
    var members: map<string, Json>

    constructor ()
      ensures members == map[]
    {
      members := map[];
    }

    method SetValue(name: string, value: Json)
      modifies this
      ensures members == old(members)[name := value]
    {
      members := members[name := value];
    }
  }

  /** An object in memory. */
  class Instance {
    var fields: seq<FieldValue>

    constructor (fields: seq<FieldValue>)
      ensures this.fields == fields
    {
      this.fields := fields;
    }
  }

  method WriteValue(t: FieldType, v: FieldValue) returns (json: Json)
    requires HasType(t, v)
    ensures json == ToJson(t, v)
    decreases t, 1
  {
    hide Members;
    match (t, v)
    case (VectorField(item), VectorValue(items)) =>
      var values := WriteItems(item, items);
      json := Array(values);
    case (OptionalField(item), OptionalValue(engaged)) =>
      if engaged.Some? {
        json := WriteValue(item, engaged.value);
      } else {
        json := Null;
      }
    case (ObjectField(_, _), ObjectValue(fields)) =>
      var written := new JsonObject();
      WriteObject(t, fields, written);
      EmptyAnd(Members(t, fields, |fields|));
      json := Object(written.members);
    case _ =>
      json := ToJson(t, v);
  }

  lemma EmptyAnd(members: map<string, Json>)
    ensures map[] + members == members
  {
  }

  method WriteItems(item: FieldType, items: seq<FieldValue>) returns (values: seq<Json>)
    requires forall i | 0 <= i < |items| :: HasType(item, items[i])
    ensures values == ItemsToJson(item, items)
    decreases item, 2
  {
    hide HasType, ToJson;
    values := [];
    for i := 0 to |items|
      invariant values == ItemsToJson(item, items)[..i]
    {
      var value := WriteValue(item, items[i]);
      values := values + [value];
    }
  }

  /** Adds the members of an object to those that are there. */
  method WriteObject(t: FieldType, fields: seq<FieldValue>, json: JsonObject)
    requires t.ObjectField? && FieldsHaveTypes(t.properties, fields)
    modifies json
    ensures json.members == old(json.members) + Members(t, fields, |fields|)
    decreases t, 0
  {
    hide HasType, ToJson, Omitted;
    assert json.members + map[] == json.members;
    for i := 0 to |t.properties|
      invariant json.members == old(json.members) + Members(t, fields, i)
    {
      var p := t.properties[i];
      if Omitted(p, fields[i]) {
        continue;
      }
      var value := WriteValue(p.t, fields[i]);
      json.SetValue(p.name, value);
    }
  }

  method ReadValue(t: FieldType, json: Json, current: FieldValue) returns (value: Option<FieldValue>)
    ensures value == FromJson(t, json, current)
    decreases t, 1
  {
    hide FieldsFromJson, ItemsFromJson, NamedEnums.Parse;
    match (t, json)
    case (VectorField(item), Array(values)) =>
      var items := ReadItems(item, values);
      value := Some(VectorValue(items));
    case (OptionalField(item), Null) =>
      value := Some(OptionalValue(None));
    case (OptionalField(item), _) =>
      var result := ReadValue(item, json, Fresh(item));
      value := if result.Some? then Some(OptionalValue(result)) else None;
    case (ObjectField(properties, _), Object(members)) =>
      if !current.ObjectValue? || |current.fields| != |properties| {
        return None;
      }
      var instance := new Instance(current.fields);
      var ok := ReadObject(t, members, instance);
      value := if ok then Some(ObjectValue(instance.fields)) else None;
    case _ =>
      value := FromJson(t, json, current);
  }

  method ReadItems(item: FieldType, values: seq<Json>) returns (items: seq<FieldValue>)
    ensures items == ItemsFromJson(item, values, |values|)
    decreases item, 2
  {
    hide FromJson, Fresh;
    items := [];
    for i := 0 to |values|
      invariant items == ItemsFromJson(item, values, i)
    {
      var element := ReadValue(item, values[i], Fresh(item));
      if element.Some? {
        items := items + [element.value];
      }
    }
  }

  lemma {:induction false} FieldsFailEarly(t: FieldType, members: map<string, Json>, current: seq<FieldValue>, count: nat, more: nat)
    requires t.ObjectField? && count <= more <= |t.properties| == |current|
    requires FieldsFromJson(t, members, current, count) == None
    ensures FieldsFromJson(t, members, current, more) == None
    decreases more
  {
    hide FromJson;
    if count < more {
      FieldsFailEarly(t, members, current, count, more - 1);
    }
  }

  /** Reads the members into the object, which is left partly changed when one of them fails. */
  method ReadObject(t: FieldType, members: map<string, Json>, instance: Instance) returns (ok: bool)
    requires t.ObjectField? && |instance.fields| == |t.properties|
    modifies instance
    ensures match FieldsFromJson(t, members, old(instance.fields), |t.properties|)
      case None => !ok
      case Some(fields) => ok && instance.fields == fields
    decreases t, 0
  {
    hide FromJson;
    ghost var current := instance.fields;
    for i := 0 to |t.properties|
      invariant FieldsFromJson(t, members, current, i) == Some(instance.fields)
    {
      var p := t.properties[i];
      if p.name in members {
        var value := ReadValue(p.t, members[p.name], instance.fields[i]);
        if value.None? {
          FieldsFailEarly(t, members, current, i + 1, |t.properties|);
          return false;
        }
        instance.fields := instance.fields[i := value.value];
      } else if p.isRequired == Some(true) {
        FieldsFailEarly(t, members, current, i + 1, |t.properties|);
        return false;
      }
    }
    ok := true;
  }
}

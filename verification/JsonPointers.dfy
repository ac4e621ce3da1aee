/** Pointers to objects of a family of types as JSON: a discriminating member tells the types apart by name. */
module JsonPointers {
  import opened Wrappers
  import opened JsonParser
  import opened TypedJson
  import opened TypeFamilies
  import NamedEnums

  /** What is serialized of an object type, and the member that holds the name of the type. */
  datatype Layout = Layout(discriminator: string, t: FieldType)

  /** The description of a type, with its name. */
  type Descriptor = Described<string, Layout>

  type Types = Family<string, Layout>

  type JsonInstance = TypeFamilies.Instance<FieldValue>

  predicate HasProperty(d: Descriptor, name: string)
    requires d.body.t.ObjectField?
  {
    exists i | 0 <= i < |d.body.t.properties| :: d.body.t.properties[i].name == name
  }

  /** No property is named like the member that holds the type. */
  ghost predicate ValidDescriptor(d: Descriptor, base: Descriptor) {
    && d.body.t.ObjectField? && Declared(d.body.t)
    && !HasProperty(d, d.body.discriminator) && !HasProperty(d, base.body.discriminator)
  }

  ghost predicate Valid(family: Types) {
    && family.TellsDerivedApart() && ValidDescriptor(family.base, family.base)
    && forall i | 0 <= i < |family.derived| :: ValidDescriptor(family.derived[i], family.base)
  }

  /** The description that reading picks: the base type's own one without a discriminating member. A member that
      is not a string leaves the name empty. */
  function Picked(family: Types, members: map<string, Json>): Option<Descriptor> {
    if family.base.body.discriminator !in members then Some(family.base)
    else
      var member := members[family.base.body.discriminator];
      Reader(family, if member.Text? then member.s else "")
  }

  /** The members of an object: its discriminator, then its properties over it. */
  function WriteMembers(d: Descriptor, fields: seq<FieldValue>): map<string, Json>
    requires d.body.t.ObjectField? && |fields| == |d.body.t.properties|
  {
    map[d.body.discriminator := Text(d.key)] + Members(d.body.t, fields, |fields|)
  }

  function WritePointer(d: Descriptor, pointer: Option<JsonInstance>): Json
    requires pointer.Some? ==> d.body.t.ObjectField? && |pointer.value.fields| == |d.body.t.properties|
  {
    if pointer.None? then Null else Object(WriteMembers(d, pointer.value.fields))
  }

  /** What is read over a pointer; failing for anything but null and an object of a known type. */
  function ReadPointer(family: Types, json: Json): Option<Option<JsonInstance>> {
    match json
    case Null => Some(None)
    case Object(members) =>
      var d :- Picked(family, members);
      var value :- FromJson(d.body.t, json, Fresh(d.body.t));
      if value.ObjectValue? then Some(Some(TypeFamilies.Instance(d.index, value.fields))) else None
    case _ => None
  }

  /** The properties hide neither the discriminator that is written nor the one that is looked for. */
  lemma Discriminates(family: Types, d: Descriptor, fields: seq<FieldValue>)
    requires ValidDescriptor(d, family.base) && FieldsHaveTypes(d.body.t.properties, fields)
    ensures var members := WriteMembers(d, fields);
      if d.body.discriminator == family.base.body.discriminator then
        family.base.body.discriminator in members && members[family.base.body.discriminator] == Text(d.key)
      else family.base.body.discriminator !in members
  {
    hide ToJson, HasType, NamedEnums.Named, Members;
    OnlyPropertiesAreWritten(d, fields, d.body.discriminator);
    OnlyPropertiesAreWritten(d, fields, family.base.body.discriminator);
  }

  lemma OnlyPropertiesAreWritten(d: Descriptor, fields: seq<FieldValue>, name: string)
    requires d.body.t.ObjectField? && Declared(d.body.t) && FieldsHaveTypes(d.body.t.properties, fields)
    ensures name in Members(d.body.t, fields, |fields|) ==> HasProperty(d, name)
  {
    hide ToJson, HasType, NamedEnums.Named, Members, Omitted;
    DistinctProperties(d.body.t);
    MembersAre(d.body.t, fields, |fields|);
    var members := Members(d.body.t, fields, |fields|);
    if name in members {
      var i :| 0 <= i < |fields| && d.body.t.properties[i].name == name;
    }
  }

  lemma WriterIsValid(family: Types, index: nat)
    requires Valid(family) && Writer(family, index).Some?
    ensures ValidDescriptor(Writer(family, index).value, family.base)
  {
    hide ValidDescriptor;
    WriterIsMember(family, index);
  }

  /** Reading the written members picks the type that wrote them exactly when it is the base type, or has a name of its
      own under the discriminator of the base type; otherwise it picks another type. */
  lemma PickedByWriter(family: Types, index: nat, fields: seq<FieldValue>)
    requires Valid(family) && Writer(family, index).Some?
    requires var d := Writer(family, index).value;
      d.body.t.ObjectField? && FieldsHaveTypes(d.body.t.properties, fields)
    ensures var d := Writer(family, index).value; var picked := Picked(family, WriteMembers(d, fields));
      && picked.Some?
      && (picked == Some(d) <==>
           (index == family.base.index || (d.body.discriminator == family.base.body.discriminator && d.key != family.base.key)))
      && (picked == Some(d) <==> picked.value.index == index)
  {
    hide Reader, WriteMembers, ValidDescriptor, FieldsHaveTypes;
    WriterIsValid(family, index);
    ReaderOfWriter(family, index);
    Discriminates(family, Writer(family, index).value, fields);
  }

  /** Only the members that properties name matter to reading. */
  lemma {:induction false} OnlyPropertiesMatter(
    t: FieldType, a: map<string, Json>, b: map<string, Json>, current: seq<FieldValue>, count: nat)
    requires t.ObjectField? && count <= |t.properties| == |current|
    requires forall i | 0 <= i < |t.properties| :: SameMember(t.properties[i].name, a, b)
    ensures FieldsFromJson(t, a, current, count) == FieldsFromJson(t, b, current, count)
    decreases count
  {
    hide FromJson;
    if count > 0 {
      OnlyPropertiesMatter(t, a, b, current, count - 1);
      assert SameMember(t.properties[count - 1].name, a, b);
    }
  }

  predicate SameMember(name: string, a: map<string, Json>, b: map<string, Json>) {
    (name in a <==> name in b) && (name in a ==> a[name] == b[name])
  }

  /** The discriminator does not get in the way of the fields. */
  lemma FieldsAreRead(family: Types, d: Descriptor, fields: seq<FieldValue>, current: FieldValue)
    requires ValidDescriptor(d, family.base) && FieldsHaveTypes(d.body.t.properties, fields) && HasType(d.body.t, current)
    ensures FromJson(d.body.t, Object(WriteMembers(d, fields)), current) == FromJson(d.body.t, ToJson(d.body.t, ObjectValue(fields)), current)
  {
    hide ToJson, FromJson, HasType, NamedEnums.Named, Members, Declared;
    var members, plain := WriteMembers(d, fields), Members(d.body.t, fields, |fields|);
    forall i | 0 <= i < |d.body.t.properties|
      ensures SameMember(d.body.t.properties[i].name, members, plain)
    {
      assert d.body.t.properties[i].name != d.body.discriminator;
    }
    ObjectFromJson(d.body.t, members, plain, current);
    ObjectToJson(d.body.t, fields);
  }

  lemma ObjectToJson(t: FieldType, fields: seq<FieldValue>)
    requires t.ObjectField? && |fields| == |t.properties|
    ensures ToJson(t, ObjectValue(fields)) == Object(Members(t, fields, |fields|))
  {
    hide Members;
  }

  lemma ObjectFromJson(t: FieldType, a: map<string, Json>, b: map<string, Json>, current: FieldValue)
    requires t.ObjectField?
    requires forall i | 0 <= i < |t.properties| :: SameMember(t.properties[i].name, a, b)
    ensures FromJson(t, Object(a), current) == FromJson(t, Object(b), current)
  {
    hide FieldsFromJson, SameMember;
    if current.ObjectValue? && |current.fields| == |t.properties| {
      OnlyPropertiesMatter(t, a, b, current.fields, |t.properties|);
    }
  }

  /** An object behind a pointer comes back with its dynamic type and its fields exactly when it has the base type,
      or a name of its own under the discriminator of the base type, and its fields are recoverable over those of a
      new object. */
  lemma PointerComesBack(family: Types, instance: JsonInstance, d: Descriptor)
    requires Valid(family) && Writer(family, instance.index) == Some(d)
    requires d.body.t.ObjectField? && FieldsHaveTypes(d.body.t.properties, instance.fields)
    ensures ReadPointer(family, WritePointer(d, Some(instance))) == Some(Some(instance)) <==>
            && (d.index == family.base.index || (d.body.discriminator == family.base.body.discriminator && d.key != family.base.key))
            && Recoverable(d.body.t, ObjectValue(instance.fields), Fresh(d.body.t))
  {
    hide ToJson, FromJson, WriteMembers, Picked, Writer, Recoverable, Declared, Fresh, HasProperty, FieldsHaveTypes, Valid;
    IndexOfWriter(family, instance.index);
    WriterIsValid(family, instance.index);
    PickedByWriter(family, instance.index, instance.fields);
    FreshHasType(d.body.t);
    FieldsAreRead(family, d, instance.fields, Fresh(d.body.t));
    FieldsMakeObject(d.body.t, instance.fields);
    ComesBack(d.body.t, ObjectValue(instance.fields), Fresh(d.body.t));
  }

  lemma IndexOfWriter(family: Types, index: nat)
    ensures Writer(family, index).Some? ==> Writer(family, index).value.index == index
  {
    if Writer(family, index).Some? {
      WriterIsMember(family, index);
    }
  }

  lemma FieldsMakeObject(t: FieldType, fields: seq<FieldValue>)
    requires t.ObjectField? && FieldsHaveTypes(t.properties, fields)
    ensures HasType(t, ObjectValue(fields))
  {
  }

  /** What a descriptor writes, whatever family reads it, is read as null exactly when it was written for null: an
      object may fail to be read, but is not lost silently. */
  lemma OnlyNullIsReadAsNull(family: Types, d: Descriptor, pointer: Option<JsonInstance>)
    requires pointer.Some? ==> d.body.t.ObjectField? && |pointer.value.fields| == |d.body.t.properties|
    ensures ReadPointer(family, WritePointer(d, pointer)) == Some(None) <==> pointer == None
  {
    hide Picked, WriteMembers, FromJson, Fresh;
  }

  // ---------------------------------------------------------------- pointer fields

  /** What the serializer of pointer fields writes: it looks at the type of the object before anything else, which
      has no meaning for a null pointer, and needs the type to be registered. */
  function WriteField(family: Types, pointer: Option<JsonInstance>): Option<Json>
    requires pointer.Some? ==> HasItsFields(family, pointer.value)
  {
    var instance :- pointer;
    var d :- Writer(family, instance.index);
    Some(WritePointer(d, pointer))
  }

  predicate HasItsFields(family: Types, instance: JsonInstance) {
    var d := Writer(family, instance.index);
    d.None? || (d.value.body.t.ObjectField? && |instance.fields| == |d.value.body.t.properties|)
  }

  /** A pointer field comes back exactly when it is not null, its type is registered, and the object comes back. */
  lemma FieldComesBack(family: Types, pointer: Option<JsonInstance>)
    requires Valid(family)
    requires pointer.Some? ==> HasItsFields(family, pointer.value)
    requires pointer.Some? && Writer(family, pointer.value.index).Some? ==>
      FieldsHaveTypes(Writer(family, pointer.value.index).value.body.t.properties, pointer.value.fields)
    ensures var json := WriteField(family, pointer);
      json.Some? && ReadPointer(family, json.value) == Some(pointer) <==>
        && pointer.Some? && Writer(family, pointer.value.index).Some?
        && var d := Writer(family, pointer.value.index).value;
           && (d.index == family.base.index || (d.body.discriminator == family.base.body.discriminator && d.key != family.base.key))
           && Recoverable(d.body.t, ObjectValue(pointer.value.fields), Fresh(d.body.t))
  {
    hide Valid, ReadPointer, WritePointer, Recoverable, Fresh, FieldsHaveTypes;
    if pointer.Some? && Writer(family, pointer.value.index).Some? {
      PointerComesBack(family, pointer.value, Writer(family, pointer.value.index).value);
    }
  }
}

/** Pointers to objects of a family of types: the registry of derived types, and the ids that tell them apart. */
module BinaryPointers {
  import opened Wrappers
  import opened Sequences
  import opened Bytes
  import opened BinaryValues
  import opened BinaryStreams
  import opened BinaryObjects
  import opened TypeFamilies

  const NULL_ID: nat := 0xFFFF

  /** What is serialized of a type; a new object of it exists only when it can be default constructed. */
  datatype Layout = Layout(version: nat, properties: seq<Property>, blank: Option<seq<Value>>)

  /** The description of a type, with its id. */
  type Descriptor = Described<nat, Layout>

  type Types = Family<nat, Layout>

  ghost predicate ValidDescriptor(d: Descriptor) {
    && d.key < Pow256(2) && d.body.version < VERSIONS
    && (d.body.blank.Some? ==> |d.body.blank.value| == |d.body.properties|)
  }

  ghost predicate Valid(family: Types) {
    && family.TellsDerivedApart() && ValidDescriptor(family.base)
    && forall i | 0 <= i < |family.derived| :: ValidDescriptor(family.derived[i])
  }

  /** The bytes of a pointer, which may be null; failing for a type that is not registered. */
  function EncodePointer(family: Types, pointer: Option<Instance<Source>>): Option<seq<Byte>> {
    if pointer.None? then Some(ToBytes(NULL_ID, 2))
    else
      var d :- Writer(family, pointer.value.index);
      if |pointer.value.fields| != |d.body.properties| then None
      else Some(ToBytes(d.key, 2) + EncodeObject(d.body.properties, d.body.version, pointer.value.fields))
  }

  function DecodePointer(family: Types, bytes: seq<Byte>): Option<Read<Option<Instance<Value>>>> {
    var id :- TakeNumber(2, bytes);
    if id.value == NULL_ID then Some(Read(None, id.rest))
    else
      var d :- Reader(family, id.value);
      var target :- d.body.blank;
      if |target| != |d.body.properties| then None
      else
        var read :- DecodeObject(d.body.properties, target, id.rest);
        Some(Read(Some(Instance(d.index, read.value)), read.rest))
  }

  /** The id, and then the object. */
  lemma IdBack(id: nat, body: seq<Byte>, rest: seq<Byte>)
    requires id < Pow256(2)
    ensures TakeNumber(2, ToBytes(id, 2) + body + rest) == Some(Read(id, body + rest))
  {
    hide ToBytes, TakeNumber;
    Regroup(ToBytes(id, 2), body, rest);
    NumberBack(id, 2, body + rest);
  }

  lemma NullIdFits()
    ensures NULL_ID < Pow256(2)
  {
  }

  /** The bytes of a null pointer. */
  lemma NullBytes(family: Types)
    ensures EncodePointer(family, None) == Some([0xFF, 0xFF])
  {
    assert ToBytes(0xFF, 1) == [0xFF] && ToBytes(NULL_ID, 2) == [0xFF, 0xFF];
  }

  /** A null pointer comes back as one. */
  lemma NullRoundTrip(family: Types, rest: seq<Byte>)
    ensures DecodePointer(family, EncodePointer(family, None).value + rest) == Some(Read(None, rest))
  {
    hide ToBytes, TakeNumber;
    NullIdFits();
    NumberBack(NULL_ID, 2, rest);
  }

  /** An object comes back with its own type exactly when its id is not that of a null pointer, and differs
      from that of the base type unless the object has the base type. When its type cannot be default
      constructed, reading fails instead. */
  lemma PointerRoundTrip(family: Types, instance: Instance<Source>, d: Descriptor, rest: seq<Byte>)
    requires Valid(family) && Writer(family, instance.index) == Some(d)
    requires ValidDescriptor(d) && |instance.fields| == |d.body.properties| && FieldsWritable(d.body.properties, d.body.version, instance.fields)
    ensures var distinguished := d.key != NULL_ID && (instance.index == family.base.index || d.key != family.base.key);
      var read := DecodePointer(family, EncodePointer(family, Some(instance)).value + rest);
      if d.body.blank.None? then distinguished ==> read == None
      else
        var restored := Restored(d.body.properties, d.body.version, instance.fields, d.body.blank.value);
        read == Some(Read(Some(Instance(instance.index, restored)), rest)) <==> distinguished
  {
    hide ToBytes, TakeNumber, EncodeObject, DecodeObject, Restored, FieldsWritable, Writer, Reader, Pow256;
    var body := EncodeObject(d.body.properties, d.body.version, instance.fields);
    ReaderOfWriter(family, instance.index);
    IdBack(d.key, body, rest);
    if d.body.blank.Some? {
      ObjectBack(d, instance.fields, d.body.blank.value, rest);
    }
  }

  lemma ObjectBack(d: Descriptor, fields: seq<Source>, target: seq<Value>, rest: seq<Byte>)
    requires ValidDescriptor(d) && |fields| == |d.body.properties| == |target| && FieldsWritable(d.body.properties, d.body.version, fields)
    ensures DecodeObject(d.body.properties, target, EncodeObject(d.body.properties, d.body.version, fields) + rest) ==
            Some(Read(Restored(d.body.properties, d.body.version, fields, target), rest))
  {
    hide EncodeObject, DecodeObject, Restored, FieldsWritable, Placed, ContentsOf;
    AnyVersionIsRead(d.body.properties, d.body.version, fields, d.body.properties, target, rest);
    PlacedIsRestored(d.body.properties, d.body.version, fields, target);
  }

  // ---------------------------------------------------------------- the serializers

  /** The object has the fields of its type. */
  ghost predicate HasItsFields(family: Types, instance: Instance<Source>) {
    var d := Writer(family, instance.index);
    d.None? || (
      && |instance.fields| == |d.value.body.properties|
      && FieldsHaveTypes(d.value.body.properties, d.value.body.version, instance.fields))
  }

  method SerializePointer(stream: MemoryStream, family: Types, pointer: Option<Instance<Source>>) returns (ok: bool)
    requires stream.Valid() && (pointer.Some? ==> HasItsFields(family, pointer.value))
    modifies stream
    ensures stream.Valid()
    ensures match EncodePointer(family, pointer)
      case None => !ok && stream.Written() == old(stream.Written())
      case Some(bytes) => ok && stream.Written() == old(stream.Written()) + bytes
  {
    hide ToBytes, EncodeObject, Writer, FieldsHaveTypes;
    if pointer.None? {
      stream.Write(ToBytes(NULL_ID, 2));
      return true;
    }
    var d := Writer(family, pointer.value.index);
    if d.None? {
      return false;
    }
    stream.Write(ToBytes(d.value.key, 2));
    SerializeObject(stream, d.value.body.properties, d.value.body.version, pointer.value.fields);
    ok := true;
  }

  method DeserializePointer(stream: MemoryStream, family: Types) returns (ok: bool, pointer: Option<Instance<Value>>)
    requires stream.Valid()
    modifies stream
    ensures stream.Valid() && stream.buffer == old(stream.buffer)
    ensures match DecodePointer(family, old(stream.Rest()))
      case None => !ok
      case Some(read) => ok && pointer == read.value && stream.Rest() == read.rest
  {
    hide TakeNumber, DecodeObject, Reader;
    var id := stream.ReadNumber(2);
    if id.None? {
      return false, None;
    }
    if id.value == NULL_ID {
      return true, None;
    }
    var d := Reader(family, id.value);
    if d.None? || d.value.body.blank.None? || |d.value.body.blank.value| != |d.value.body.properties| {
      return false, None;
    }
    var instance := new DescribedObject(d.value.body.blank.value);
    ok := DeserializeObject(stream, d.value.body.properties, instance);
    pointer := if ok then Some(Instance(d.value.index, instance.fields)) else None;
  }
}

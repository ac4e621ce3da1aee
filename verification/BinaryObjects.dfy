/** Versioned objects in binary form: which properties are written, and what reading them does to an object. */
module BinaryObjects {
  import opened Wrappers
  import opened Sequences
  import opened Bytes
  import opened BinaryValues
  import opened BinaryStreams

  const VERSIONS: nat := Pow256(2)

  /** A property, and the versions of the object that have it. */
  datatype Property = Property(t: Type, minVersion: nat, maxVersion: nat)

  predicate Has(p: Property, version: nat) {
    p.minVersion <= version <= p.maxVersion
  }

  /** The properties of this version, in order. */
  function Present(properties: seq<Property>, version: nat): seq<Type> {
    if properties == [] then []
    else
      var last := properties[|properties| - 1];
      Present(properties[..|properties| - 1], version) + if Has(last, version) then [last.t] else []
  }

  /** The fields of the properties of this version, in order. */
  function Picked<F>(properties: seq<Property>, version: nat, fields: seq<F>): (picked: seq<F>)
    requires |fields| == |properties|
    ensures |picked| == |Present(properties, version)|
  {
    if properties == [] then []
    else
      var n := |properties| - 1;
      Picked(properties[..n], version, fields[..n]) + if Has(properties[n], version) then [fields[n]] else []
  }

  /** An object whose properties of this version have these values in order, and whose other properties are
      as they were. */
  function Placed(properties: seq<Property>, version: nat, values: seq<Value>, target: seq<Value>): (filled: seq<Value>)
    requires |target| == |properties| && |values| == |Present(properties, version)|
    ensures |filled| == |target|
  {
    if properties == [] then []
    else
      var n := |properties| - 1;
      if Has(properties[n], version) then
        Placed(properties[..n], version, values[..|values| - 1], target[..n]) + [values[|values| - 1]]
      else Placed(properties[..n], version, values, target[..n]) + [target[n]]
  }

  // ---------------------------------------------------------------- writing

  function EncodeFields(properties: seq<Property>, version: nat, fields: seq<Source>): seq<Byte>
    requires |fields| == |properties|
  {
    if properties == [] then []
    else
      var n := |properties| - 1;
      EncodeFields(properties[..n], version, fields[..n]) +
      if Has(properties[n], version) then Encode(properties[n].t, fields[n]) else []
  }

  function EncodeObject(properties: seq<Property>, version: nat, fields: seq<Source>): seq<Byte>
    requires |fields| == |properties|
  {
    ToBytes(version, 2) + EncodeFields(properties, version, fields)
  }

  // ---------------------------------------------------------------- reading

  function DecodeFields(properties: seq<Property>, version: nat, target: seq<Value>, bytes: seq<Byte>):
    (read: Option<Read<seq<Value>>>)
    requires |target| == |properties|
    ensures read.Some? ==> |read.value.value| == |target|
  {
    if properties == [] then Some(Read([], bytes))
    else
      var n := |properties| - 1;
      var before :- DecodeFields(properties[..n], version, target[..n], bytes);
      if Has(properties[n], version) then
        var value :- Decode(properties[n].t, before.rest);
        Some(Read(before.value + [value.value], value.rest))
      else Some(Read(before.value + [target[n]], before.rest))
  }

  function DecodeObject(properties: seq<Property>, target: seq<Value>, bytes: seq<Byte>): (read: Option<Read<seq<Value>>>)
    requires |target| == |properties|
    ensures read.Some? ==> |read.value.value| == |target|
  {
    var version :- TakeNumber(2, bytes);
    DecodeFields(properties, version.value, target, version.rest)
  }

  // ---------------------------------------------------------------- what reading gives

  /** Every written field has its type, and its sizes fit. */
  ghost predicate FieldsWritable(properties: seq<Property>, version: nat, fields: seq<Source>)
    requires |fields| == |properties|
  {
    forall i | 0 <= i < |fields| && properties[i].minVersion <= version <= properties[i].maxVersion :: Writable(properties[i].t, fields[i])
  }

  ghost predicate PickedWritable(types: seq<Type>, sources: seq<Source>)
    requires |types| == |sources|
  {
    forall i | 0 <= i < |types| :: Writable(types[i], sources[i])
  }

  function EncodeAll(types: seq<Type>, sources: seq<Source>): seq<Byte>
    requires |types| == |sources|
  {
    if types == [] then []
    else
      var n := |types| - 1;
      EncodeAll(types[..n], sources[..n]) + Encode(types[n], sources[n])
  }

  function ContentsOf(types: seq<Type>, sources: seq<Source>): (values: seq<Value>)
    requires |types| == |sources|
    ensures |values| == |types|
  {
    seq(|types|, i requires 0 <= i < |types| => Contents(types[i], sources[i]))
  }

  lemma LastOf<T>(s: seq<T>, x: T)
    ensures (s + [x])[..|s|] == s && (s + [x])[|s|] == x
    ensures s + [] == s
  {
  }

  /** Only the fields of the version are written. */
  lemma {:induction false} WrittenFields(properties: seq<Property>, version: nat, fields: seq<Source>)
    requires |fields| == |properties|
    ensures EncodeFields(properties, version, fields) ==
            EncodeAll(Present(properties, version), Picked(properties, version, fields))
  {
    hide Encode, Has;
    if properties != [] {
      var n := |properties| - 1;
      WrittenFields(properties[..n], version, fields[..n]);
      LastOf(Present(properties[..n], version), properties[n].t);
      LastOf(Picked(properties[..n], version, fields[..n]), fields[n]);
      assert EncodeFields(properties[..n], version, fields[..n]) + [] == EncodeFields(properties[..n], version, fields[..n]);
    }
  }

  function Concat(pieces: seq<seq<Byte>>): seq<Byte> {
    if pieces == [] then [] else Concat(pieces[..|pieces| - 1]) + pieces[|pieces| - 1]
  }

  /** The fields with these indices, each in its own form. */
  function Pieces(properties: seq<Property>, fields: seq<Source>, indices: seq<nat>): (pieces: seq<seq<Byte>>)
    requires |fields| == |properties| && forall k | 0 <= k < |indices| :: indices[k] < |fields|
    ensures |pieces| == |indices|
  {
    seq(|indices|, k requires 0 <= k < |indices| => Encode(properties[indices[k]].t, fields[indices[k]]))
  }

  /** The indices, in order, of the properties whose versions reach from their first to their last one, both included. */
  ghost predicate AreOfVersion(indices: seq<nat>, properties: seq<Property>, version: nat) {
    && (forall j, k | 0 <= j < k < |indices| :: indices[j] < indices[k])
    && (forall k | 0 <= k < |indices| :: indices[k] < |properties|)
    && forall i: nat | i < |properties| ::
         i in indices <==> properties[i].minVersion <= version && version <= properties[i].maxVersion
  }

  /** What is written of an object is its version, and then exactly the fields of the version, in order. */
  lemma WrittenExactly(properties: seq<Property>, version: nat, fields: seq<Source>) returns (indices: seq<nat>)
    requires |fields| == |properties|
    ensures AreOfVersion(indices, properties, version)
    ensures EncodeObject(properties, version, fields) == ToBytes(version, 2) + Concat(Pieces(properties, fields, indices))
  {
    indices := FieldsWritten(properties, version, fields);
  }

  lemma {:induction false} FieldsWritten(properties: seq<Property>, version: nat, fields: seq<Source>) returns (indices: seq<nat>)
    requires |fields| == |properties|
    ensures AreOfVersion(indices, properties, version)
    ensures EncodeFields(properties, version, fields) == Concat(Pieces(properties, fields, indices))
  {
    hide Encode, AreOfVersion, Pieces, Concat;
    if properties == [] {
      indices := [];
      NoneOfVersion(version);
    } else {
      var n := |properties| - 1;
      var earlier := FieldsWritten(properties[..n], version, fields[..n]);
      OneMoreOfVersion(earlier, properties, version);
      OneMorePiece(earlier, properties, fields);
      LastOf(Concat(Pieces(properties, fields, earlier)), 0);
      indices := if Has(properties[n], version) then earlier + [n] else earlier;
    }
  }

  lemma NoneOfVersion(version: nat)
    ensures AreOfVersion([], [], version) && Concat(Pieces([], [], [])) == []
  {
  }

  lemma OneMoreOfVersion(earlier: seq<nat>, properties: seq<Property>, version: nat)
    requires properties != [] && AreOfVersion(earlier, properties[..|properties| - 1], version)
    ensures var n := |properties| - 1;
      && (forall k | 0 <= k < |earlier| :: earlier[k] < n)
      && AreOfVersion(if Has(properties[n], version) then earlier + [n] else earlier, properties, version)
  {
    var n := |properties| - 1;
    assert forall i: nat | i < n :: properties[..n][i] == properties[i];
    assert forall i: nat :: i in earlier + [n] <==> i in earlier || i == n;
  }

  lemma OneMorePiece(earlier: seq<nat>, properties: seq<Property>, fields: seq<Source>)
    requires |fields| == |properties| > 0 && forall k | 0 <= k < |earlier| :: earlier[k] < |fields| - 1
    ensures var n := |fields| - 1;
      && Pieces(properties, fields, earlier) == Pieces(properties[..n], fields[..n], earlier)
      && Concat(Pieces(properties, fields, earlier + [n])) ==
         Concat(Pieces(properties, fields, earlier)) + Encode(properties[n].t, fields[n])
  {
    hide Encode;
    var n := |fields| - 1;
    var pieces := Pieces(properties, fields, earlier);
    assert Pieces(properties, fields, earlier + [n]) == pieces + [Encode(properties[n].t, fields[n])];
    LastOf(pieces, Encode(properties[n].t, fields[n]));
  }

  lemma {:induction false} PickedIsWritable(properties: seq<Property>, version: nat, fields: seq<Source>)
    requires |fields| == |properties| && FieldsWritable(properties, version, fields)
    ensures PickedWritable(Present(properties, version), Picked(properties, version, fields))
  {
    hide Writable;
    if properties != [] {
      var n := |properties| - 1;
      PickedIsWritable(properties[..n], version, fields[..n]);
    }
  }

  /** What was written by types is read into the properties of the version, in order, provided that the reader
      has properties of the same types in that version. */
  lemma {:induction false} FieldsBack(properties: seq<Property>, version: nat, types: seq<Type>, sources: seq<Source>,
                                      target: seq<Value>, rest: seq<Byte>)
    requires |target| == |properties| && |types| == |sources|
    requires Present(properties, version) == types && PickedWritable(types, sources)
    ensures DecodeFields(properties, version, target, EncodeAll(types, sources) + rest) ==
            Some(Read(Placed(properties, version, ContentsOf(types, sources), target), rest))
  {
    hide Encode, Decode, Has, Contents, Writable;
    if properties == [] {
      assert [] + rest == rest;
    } else {
      var n := |properties| - 1;
      if Has(properties[n], version) {
        var k := |types| - 1;
        LastOf(Present(properties[..n], version), properties[n].t);
        Regroup(EncodeAll(types[..k], sources[..k]), Encode(types[k], sources[k]), rest);
        FieldsBack(properties[..n], version, types[..k], sources[..k], target[..n], Encode(types[k], sources[k]) + rest);
        ValueBack(types[k], sources[k], rest);
        assert ContentsOf(types, sources)[..k] == ContentsOf(types[..k], sources[..k]);
      } else {
        LastOf(Present(properties[..n], version), properties[n].t);
        FieldsBack(properties[..n], version, types, sources, target[..n], rest);
      }
    }
  }

  /** A payload that another version of the program wrote is read correctly whenever the properties that both
      know of that version have the same types in the same order: the reader's properties of that version take
      the written values, and its other properties stay as they were. */
  lemma AnyVersionIsRead(writer: seq<Property>, version: nat, fields: seq<Source>, reader: seq<Property>,
                         target: seq<Value>, rest: seq<Byte>)
    requires |fields| == |writer| && |target| == |reader| && version < VERSIONS
    requires FieldsWritable(writer, version, fields) && Present(reader, version) == Present(writer, version)
    ensures DecodeObject(reader, target, EncodeObject(writer, version, fields) + rest) ==
            Some(Read(Placed(reader, version,
              ContentsOf(Present(writer, version), Picked(writer, version, fields)), target), rest))
  {
    hide Encode, Decode, Has, Contents, Writable, ToBytes, FieldsWritable, TakeNumber, EncodeFields, DecodeFields, Placed, ContentsOf,
      Present, Picked, EncodeAll, VERSIONS;
    var body := EncodeFields(writer, version, fields);
    VersionsIs();
    Regroup(ToBytes(version, 2), body, rest);
    NumberBack(version, 2, body + rest);
    WrittenFields(writer, version, fields);
    PickedIsWritable(writer, version, fields);
    FieldsBack(reader, version, Present(writer, version), Picked(writer, version, fields), target, rest);
  }

  lemma VersionsIs()
    ensures VERSIONS == Pow256(2)
  {
  }

  /** What the reader of the same version ends up with. */
  function Restored(properties: seq<Property>, version: nat, fields: seq<Source>, target: seq<Value>): (filled: seq<Value>)
    requires |fields| == |properties| == |target|
    ensures |filled| == |target|
  {
    seq(|target|, i requires 0 <= i < |target| =>
      if properties[i].minVersion <= version <= properties[i].maxVersion then Contents(properties[i].t, fields[i]) else target[i])
  }

  lemma {:induction false} PlacedIsRestored(properties: seq<Property>, version: nat, fields: seq<Source>, target: seq<Value>)
    requires |fields| == |properties| == |target|
    ensures Placed(properties, version, ContentsOf(Present(properties, version), Picked(properties, version, fields)), target)
            == Restored(properties, version, fields, target)
  {
    hide Contents, Has, ContentsOf;
    if properties != [] {
      var n := |properties| - 1;
      PlacedIsRestored(properties[..n], version, fields[..n], target[..n]);
      var types, picked := Present(properties[..n], version), Picked(properties[..n], version, fields[..n]);
      LastOf(types, properties[n].t);
      LastOf(picked, fields[n]);
      LastOf(ContentsOf(types, picked), Contents(properties[n].t, fields[n]));
      OneMoreContents(types, picked, properties[n].t, fields[n]);
      OneMoreRestored(properties, version, fields, target);
    }
  }

  lemma OneMoreContents(types: seq<Type>, sources: seq<Source>, t: Type, source: Source)
    requires |types| == |sources|
    ensures ContentsOf(types + [t], sources + [source]) == ContentsOf(types, sources) + [Contents(t, source)]
  {
    hide Contents;
  }

  lemma OneMoreRestored(properties: seq<Property>, version: nat, fields: seq<Source>, target: seq<Value>)
    requires |fields| == |properties| == |target| > 0
    ensures var n := |properties| - 1;
      Restored(properties, version, fields, target) ==
      Restored(properties[..n], version, fields[..n], target[..n]) +
      [if Has(properties[n], version) then Contents(properties[n].t, fields[n]) else target[n]]
  {
    hide Contents;
  }

  /** Every field of the version has its type. */
  ghost predicate FieldsHaveTypes(properties: seq<Property>, version: nat, fields: seq<Source>)
    requires |fields| == |properties|
  {
    forall i | 0 <= i < |fields| && properties[i].minVersion <= version <= properties[i].maxVersion :: HasType(properties[i].t, fields[i])
  }

  ghost predicate FieldSizesFit(properties: seq<Property>, version: nat, fields: seq<Source>)
    requires |fields| == |properties|
  {
    forall i | 0 <= i < |fields| && properties[i].minVersion <= version <= properties[i].maxVersion :: SizesFit(properties[i].t, fields[i])
  }

  lemma {:induction false} ReadFieldsFit(properties: seq<Property>, version: nat, target: seq<Value>, bytes: seq<Byte>)
    requires |target| == |properties| && DecodeFields(properties, version, target, bytes).Some?
    ensures forall i | 0 <= i < |target| && Has(properties[i], version) ::
      ValueFits(properties[i].t, DecodeFields(properties, version, target, bytes).value.value[i])
  {
    hide Decode, Has, ValueFits;
    if properties != [] {
      var n := |properties| - 1;
      ReadFieldsFit(properties[..n], version, target[..n], bytes);
      var before := DecodeFields(properties[..n], version, target[..n], bytes).value;
      if Has(properties[n], version) {
        DecodedFits(properties[n].t, before.rest);
      }
      var all := DecodeFields(properties, version, target, bytes).value.value;
      assert all[..n] == before.value;
      forall i | 0 <= i < |target| && Has(properties[i], version)
        ensures ValueFits(properties[i].t, all[i])
      {
        if i < n {
          assert all[i] == before.value[i] && properties[..n][i] == properties[i];
        }
      }
    }
  }

  /** An object that is written comes back exactly when the sizes of all fields that its version has fit; its
      other properties keep the values they have in a new object. */
  lemma ObjectRoundTrip(properties: seq<Property>, version: nat, fields: seq<Source>, target: seq<Value>, rest: seq<Byte>)
    requires |fields| == |properties| == |target| && version < VERSIONS
    requires FieldsHaveTypes(properties, version, fields)
    ensures DecodeObject(properties, target, EncodeObject(properties, version, fields) + rest) ==
            Some(Read(Restored(properties, version, fields, target), rest))
            <==> FieldSizesFit(properties, version, fields)
  {
    hide Encode, Decode, Contents, HasType, SizesFit, ToBytes, TakeNumber, EncodeFields, DecodeFields, Placed,
      Present, Picked, ContentsOf, VERSIONS, ValueFits;
    var body := EncodeFields(properties, version, fields);
    var read := DecodeObject(properties, target, EncodeObject(properties, version, fields) + rest);
    if FieldSizesFit(properties, version, fields) {
      assert FieldsWritable(properties, version, fields);
      AnyVersionIsRead(properties, version, fields, properties, target, rest);
      PlacedIsRestored(properties, version, fields, target);
    } else {
      VersionsIs();
      Regroup(ToBytes(version, 2), body, rest);
      NumberBack(version, 2, body + rest);
      var i :| 0 <= i < |fields| && Has(properties[i], version) && !SizesFit(properties[i].t, fields[i]);
      if read == Some(Read(Restored(properties, version, fields, target), rest)) {
        ReadFieldsFit(properties, version, target, body + rest);
        assert ValueFits(properties[i].t, read.value.value[i]);
        ContentsFit(properties[i].t, fields[i]);
      }
    }
  }

  // ---------------------------------------------------------------- the serializers

  lemma FirstFields(properties: seq<Property>, version: nat, fields: seq<Source>, i: nat)
    requires |fields| == |properties| && i < |properties|
    ensures EncodeFields(properties[..i + 1], version, fields[..i + 1]) ==
            EncodeFields(properties[..i], version, fields[..i]) +
            if Has(properties[i], version) then Encode(properties[i].t, fields[i]) else []
  {
    hide Has, Encode;
    assert properties[..i + 1][..i] == properties[..i] && fields[..i + 1][..i] == fields[..i];
  }

  method SerializeObject(stream: MemoryStream, properties: seq<Property>, version: nat, fields: seq<Source>)
    requires stream.Valid() && |fields| == |properties| && FieldsHaveTypes(properties, version, fields)
    modifies stream
    ensures stream.Valid() && stream.Written() == old(stream.Written()) + EncodeObject(properties, version, fields)
  {
    hide EncodeFields, Encode, HasType, ToBytes, Has, FieldsHaveTypes;
    ghost var before := stream.Written();
    stream.Write(ToBytes(version, 2));
    ghost var head := stream.Written();
    assert EncodeFields(properties[..0], version, fields[..0]) == [] by { NoFields(version); }
    LastOf(head, 0);
    for i := 0 to |properties|
      invariant stream.Valid()
      invariant stream.Written() == head + EncodeFields(properties[..i], version, fields[..i])
    {
      FirstFields(properties, version, fields, i);
      Regroup(head, EncodeFields(properties[..i], version, fields[..i]), Encode(properties[i].t, fields[i]));
      LastOf(EncodeFields(properties[..i], version, fields[..i]), 0);
      if Has(properties[i], version) {
        FieldHasType(properties, version, fields, i);
        WriteValue(stream, properties[i].t, fields[i]);
      }
    }
    assert properties[..|properties|] == properties && fields[..|fields|] == fields;
    Regroup(before, ToBytes(version, 2), EncodeFields(properties, version, fields));
  }

  lemma FieldHasType(properties: seq<Property>, version: nat, fields: seq<Source>, i: nat)
    requires |fields| == |properties| && FieldsHaveTypes(properties, version, fields)
    requires i < |fields| && Has(properties[i], version)
    ensures HasType(properties[i].t, fields[i])
  {
    hide HasType;
  }

  lemma NoFields(version: nat)
    ensures EncodeFields([], version, []) == []
  {
  }

  /** An object that is being read. */
  class DescribedObject {
    var fields: seq<Value>

    constructor (fields: seq<Value>)
      ensures this.fields == fields
    {
      this.fields := fields;
    }
  }

  /** The first properties of the object have been read. */
  ghost predicate ReadSoFar(properties: seq<Property>, version: nat, target: seq<Value>, bytes: seq<Byte>, i: nat,
                            fields: seq<Value>, rest: seq<Byte>)
    requires |target| == |properties| && i <= |properties|
  {
    && |fields| == |target| && fields[i..] == target[i..]
    && DecodeFields(properties[..i], version, target[..i], bytes) == Some(Read(fields[..i], rest))
  }

  /** What reading the next property does. */
  lemma NextField(properties: seq<Property>, version: nat, target: seq<Value>, bytes: seq<Byte>, i: nat,
                  fields: seq<Value>, rest: seq<Byte>)
    requires |target| == |properties| && i < |properties| && ReadSoFar(properties, version, target, bytes, i, fields, rest)
    ensures !Has(properties[i], version) ==> ReadSoFar(properties, version, target, bytes, i + 1, fields, rest)
    ensures Has(properties[i], version) ==>
      match Decode(properties[i].t, rest)
      case None => DecodeFields(properties[..i + 1], version, target[..i + 1], bytes) == None
      case Some(read) => ReadSoFar(properties, version, target, bytes, i + 1, fields[i := read.value], read.rest)
  {
    hide Has, Decode;
    assert properties[..i + 1][..i] == properties[..i] && target[..i + 1][..i] == target[..i];
    assert fields[i] == fields[i..][0] == target[i];
    assert fields[..i + 1] == fields[..i] + [fields[i]];
    assert fields[i + 1..] == fields[i..][1..];
    forall v: Value
      ensures fields[i := v][..i + 1] == fields[..i] + [v] && fields[i := v][i + 1..] == fields[i + 1..]
    {
    }
  }

  lemma {:induction false} FieldsFailEarly(properties: seq<Property>, version: nat, target: seq<Value>, bytes: seq<Byte>, i: nat)
    requires |target| == |properties| && i <= |properties|
    requires DecodeFields(properties[..i], version, target[..i], bytes) == None
    ensures DecodeFields(properties, version, target, bytes) == None
  {
    hide Has, Decode;
    var n := |properties|;
    if i < n {
      assert properties[..n - 1][..i] == properties[..i] && target[..n - 1][..i] == target[..i];
      FieldsFailEarly(properties[..n - 1], version, target[..n - 1], bytes, i);
    } else {
      assert properties[..n] == properties && target[..n] == target;
    }
  }

  method DeserializeObject(stream: MemoryStream, properties: seq<Property>, instance: DescribedObject) returns (ok: bool)
    requires stream.Valid() && |instance.fields| == |properties|
    modifies stream, instance
    ensures stream.Valid() && stream.buffer == old(stream.buffer)
    ensures match DecodeObject(properties, old(instance.fields), old(stream.Rest()))
      case None => !ok
      case Some(read) => ok && instance.fields == read.value && stream.Rest() == read.rest
  {
    hide DecodeFields, Decode, Has, TakeNumber, ReadSoFar;
    ghost var target := instance.fields;
    var version := stream.ReadNumber(2);
    if version.None? {
      return false;
    }
    ghost var bytes := stream.Rest();
    NothingRead(properties, version.value, target, bytes);
    for i := 0 to |properties|
      invariant stream.Valid() && stream.buffer == old(stream.buffer) && |instance.fields| == |properties|
      invariant ReadSoFar(properties, version.value, target, bytes, i, instance.fields, stream.Rest())
    {
      NextField(properties, version.value, target, bytes, i, instance.fields, stream.Rest());
      if Has(properties[i], version.value) {
        var value := ReadValue(stream, properties[i].t);
        if value.None? {
          FieldsFailEarly(properties, version.value, target, bytes, i + 1);
          return false;
        }
        instance.fields := instance.fields[i := value.value];
      }
    }
    AllRead(properties, version.value, target, bytes, instance.fields, stream.Rest());
    ok := true;
  }

  lemma NothingRead(properties: seq<Property>, version: nat, target: seq<Value>, bytes: seq<Byte>)
    requires |target| == |properties|
    ensures ReadSoFar(properties, version, target, bytes, 0, target, bytes)
  {
  }

  lemma AllRead(properties: seq<Property>, version: nat, target: seq<Value>, bytes: seq<Byte>, fields: seq<Value>, rest: seq<Byte>)
    requires |target| == |properties| && ReadSoFar(properties, version, target, bytes, |properties|, fields, rest)
    ensures DecodeFields(properties, version, target, bytes) == Some(Read(fields, rest))
  {
    hide DecodeFields;
    var n := |properties|;
    assert properties[..n] == properties && target[..n] == target && fields[..n] == fields;
  }
}

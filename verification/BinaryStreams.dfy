/** Streams over memory, and the serializers that write to them and read from them. */
module BinaryStreams {
  import opened Wrappers
  import opened Sequences
  import opened Bytes
  import opened BinaryValues

  class MemoryStream {
    var buffer: seq<Byte>
    var position: nat

    predicate Valid()
      reads this
    {
      position <= |buffer|
    }

    function Written(): seq<Byte>
      requires Valid()
      reads this
    {
      buffer[..position]
    }

    function Rest(): seq<Byte>
      requires Valid()
      reads this
    {
      buffer[position..]
    }

    constructor (buffer: seq<Byte>)
      ensures Valid() && Written() == [] && Rest() == buffer
    {
      this.buffer, position := buffer, 0;
    }

    /** Overwrites what follows the position, and grows the stream as needed. */
    method Write(bytes: seq<Byte>)
      requires Valid()
      modifies this
      ensures Valid() && Written() == old(Written()) + bytes
      ensures Rest() == if |bytes| < |old(Rest())| then old(Rest())[|bytes|..] else []
    {
      var after := if position + |bytes| < |buffer| then buffer[position + |bytes|..] else [];
      buffer := buffer[..position] + bytes + after;
      position := position + |bytes|;
    }

    /** Reads exactly so many bytes; reading past the end fails. */
    method Read(count: nat) returns (bytes: Option<seq<Byte>>)
      requires Valid()
      modifies this
      ensures Valid() && buffer == old(buffer)
      ensures match Take(count, old(Rest()))
        case None => bytes == None && position == old(position)
        case Some(read) => bytes == Some(read.value) && Rest() == read.rest
    {
      if position + count > |buffer| {
        return None;
      }
      bytes := Some(buffer[position..position + count]);
      position := position + count;
      assert old(Rest())[..count] == bytes.value && old(Rest())[count..] == Rest();
    }

    method ReadNumber(width: nat) returns (n: Option<nat>)
      requires Valid()
      modifies this
      ensures Valid() && buffer == old(buffer)
      ensures match TakeNumber(width, old(Rest()))
        case None => n == None
        case Some(read) => n == Some(read.value) && Rest() == read.rest
    {
      hide Take, FromBytes;
      var bytes := Read(width);
      n := if bytes.Some? then Some(FromBytes(bytes.value)) else None;
    }
  }

  // ---------------------------------------------------------------- writing

  lemma OneMoreItem(item: Type, items: seq<Source>, i: nat)
    requires i < |items|
    ensures EncodeItems(item, items[..i + 1]) == EncodeItems(item, items[..i]) + Encode(item, items[i])
  {
    assert items[..i + 1][..i] == items[..i];
  }

  lemma OneMoreEntry(t: Type, entries: seq<Entry>, i: nat)
    requires t.Map? && i < |entries|
    ensures EncodeEntries(t, entries[..i + 1]) ==
            EncodeEntries(t, entries[..i]) + (Encode(t.key, entries[i].key) + Encode(t.mapped, entries[i].mapped))
  {
    assert entries[..i + 1][..i] == entries[..i];
  }

  lemma NoItems(t: Type, items: seq<Source>)
    ensures EncodeItems(t, items[..0]) == [] && items[..|items|] == items
  {
  }

  lemma NoEntries(t: Type, entries: seq<Entry>)
    requires t.Map?
    ensures EncodeEntries(t, entries[..0]) == [] && entries[..|entries|] == entries
  {
  }

  method WriteValue(stream: MemoryStream, t: Type, s: Source)
    requires stream.Valid() && HasType(t, s)
    modifies stream
    ensures stream.Valid() && stream.Written() == old(stream.Written()) + Encode(t, s)
    decreases t, 1
  {
    hide HasType, Encode, EncodeItems, EncodeEntries, ToBytes;
    ItemTypes(t, s);
    EncodeIs(t, s);
    ghost var before := stream.Written();
    match t
    case Number(width) =>
      stream.Write(ToBytes(s.n, width));
    case Text =>
      stream.Write(ToBytes(|s.bytes|, 4));
      stream.Write(s.bytes);
      Regroup(before, ToBytes(|s.bytes|, 4), s.bytes);
    case Map(_, _) =>
      stream.Write(ToBytes(|s.entries|, 4));
      WriteEntries(stream, t, s.entries);
      Regroup(before, ToBytes(|s.entries|, 4), EncodeEntries(t, s.entries));
    case Vector(item) =>
      stream.Write(ToBytes(|s.items|, 4));
      if item.Number? {
        WriteNumbers(stream, item, s.items);
      } else {
        WriteItems(stream, item, s.items);
      }
      Regroup(before, ToBytes(|s.items|, 4), EncodeItems(item, s.items));
    case _ =>
      stream.Write(ToBytes(|s.items|, 4));
      WriteItems(stream, t.item, s.items);
      Regroup(before, ToBytes(|s.items|, 4), EncodeItems(t.item, s.items));
  }

  lemma EncodeIs(t: Type, s: Source)
    requires HasType(t, s)
    ensures match t
      case Number(width) => s.Numeral? && Encode(t, s) == ToBytes(s.n, width)
      case Text => s.Chars? && Encode(t, s) == ToBytes(|s.bytes|, 4) + s.bytes
      case Map(_, _) => s.Entries? && Encode(t, s) == ToBytes(|s.entries|, 4) + EncodeEntries(t, s.entries)
      case _ => s.Items? && Encode(t, s) == ToBytes(|s.items|, 4) + EncodeItems(t.item, s.items)
  {
    hide Distinct, EncodeItems, EncodeEntries, ToBytes;
  }

  lemma ItemTypes(t: Type, s: Source)
    requires HasType(t, s)
    ensures (t.Vector? || t.List? || t.Set?) ==> s.Items? && forall i | 0 <= i < |s.items| :: HasType(t.item, s.items[i])
    ensures t.Map? ==> s.Entries?
    ensures t.Map? ==> forall i | 0 <= i < |s.entries| :: HasType(t.key, s.entries[i].key) && HasType(t.mapped, s.entries[i].mapped)
    ensures t.Text? ==> s.Chars?
    ensures t.Number? ==> s.Numeral?
  {
    hide Distinct;
  }

  method WriteItems(stream: MemoryStream, item: Type, items: seq<Source>)
    requires stream.Valid() && forall i | 0 <= i < |items| :: HasType(item, items[i])
    modifies stream
    ensures stream.Valid() && stream.Written() == old(stream.Written()) + EncodeItems(item, items)
    decreases item, 2
  {
    hide HasType, Encode, EncodeItems;
    NoItems(item, items);
    for i := 0 to |items|
      invariant stream.Valid() && stream.Written() == old(stream.Written()) + EncodeItems(item, items[..i])
    {
      OneMoreItem(item, items, i);
      WriteValue(stream, item, items[i]);
    }
  }

  method WriteEntries(stream: MemoryStream, t: Type, entries: seq<Entry>)
    requires stream.Valid() && t.Map?
    requires forall i | 0 <= i < |entries| :: HasType(t.key, entries[i].key) && HasType(t.mapped, entries[i].mapped)
    modifies stream
    ensures stream.Valid() && stream.Written() == old(stream.Written()) + EncodeEntries(t, entries)
    decreases t, 0
  {
    hide HasType, Encode, EncodeEntries;
    NoEntries(t, entries);
    for i := 0 to |entries|
      invariant stream.Valid() && stream.Written() == old(stream.Written()) + EncodeEntries(t, entries[..i])
    {
      OneMoreEntry(t, entries, i);
      WriteValue(stream, t.key, entries[i].key);
      WriteValue(stream, t.mapped, entries[i].mapped);
    }
  }

  /** The numbers as they lie in memory, written at once. */
  method WriteNumbers(stream: MemoryStream, item: Type, items: seq<Source>)
    requires stream.Valid() && item.Number? && forall i | 0 <= i < |items| :: HasType(item, items[i])
    modifies stream
    ensures stream.Valid() && stream.Written() == old(stream.Written()) + EncodeItems(item, items)
  {
    hide EncodeItems;
    var memory := LayOut(item, items);
    if |items| > 0 {
      stream.Write(memory);
    } else {
      NoItems(item, items);
    }
  }

  /** The bytes of the numbers, one after the other. */
  method LayOut(item: Type, items: seq<Source>) returns (memory: seq<Byte>)
    requires item.Number? && forall i | 0 <= i < |items| :: HasType(item, items[i])
    ensures memory == EncodeItems(item, items)
  {
    hide EncodeItems, ToBytes, Pow256;
    memory := [];
    NoItems(item, items);
    for i := 0 to |items|
      invariant memory == EncodeItems(item, items[..i])
    {
      OneMoreItem(item, items, i);
      memory := memory + ToBytes(items[i].n, item.width);
    }
  }

  // ---------------------------------------------------------------- reading

  /** Reading fails as soon as one item fails. */
  lemma {:induction false} ItemsFailEarly(item: Type, count: nat, more: nat, bytes: seq<Byte>)
    requires count <= more && DecodeItems(item, count, bytes).None?
    ensures DecodeItems(item, more, bytes).None?
  {
    hide Decode;
    if count < more {
      ItemsFailEarly(item, count, more - 1, bytes);
    }
  }

  lemma {:induction false} EntriesFailEarly(t: Type, count: nat, more: nat, bytes: seq<Byte>)
    requires t.Map? && count <= more && DecodeEntries(t, count, bytes).None?
    ensures DecodeEntries(t, more, bytes).None?
  {
    hide Decode;
    if count < more {
      EntriesFailEarly(t, count, more - 1, bytes);
    }
  }

  /** What a reader returns is what the bytes stand for, and it leaves the bytes that follow. */
  ghost predicate Reads<T(!new)>(result: Option<T>, expected: Option<Read<T>>, rest: seq<Byte>) {
    if expected.None? then result.None? else result == Some(expected.value.value) && rest == expected.value.rest
  }

  method ReadValue(stream: MemoryStream, t: Type) returns (value: Option<Value>)
    requires stream.Valid()
    modifies stream
    ensures stream.Valid() && stream.buffer == old(stream.buffer)
    ensures Reads(value, Decode(t, old(stream.Rest())), stream.Rest())
    decreases t, 1
  {
    hide Take, TakeNumber, DecodeItems, DecodeEntries, SetOf, MapOf;
    if t.Number? {
      var n := stream.ReadNumber(t.width);
      return if n.Some? then Some(NumberValue(n.value)) else None;
    }
    var count := stream.ReadNumber(4);
    if count.None? {
      return None;
    }
    match t
    case Text =>
      var bytes := stream.Read(count.value);
      value := if bytes.Some? then Some(TextValue(bytes.value)) else None;
    case Vector(item) =>
      var items;
      if item.Number? {
        items := ReadNumbers(stream, item, count.value);
      } else {
        items := ReadItems(stream, item, count.value);
      }
      value := if items.Some? then Some(SequenceValue(items.value)) else None;
    case List(item) =>
      var items := ReadItems(stream, item, count.value);
      value := if items.Some? then Some(SequenceValue(items.value)) else None;
    case Set(item) =>
      value := ReadSet(stream, item, count.value);
    case Map(_, _) =>
      value := ReadMap(stream, t, count.value);
  }

  method ReadItems(stream: MemoryStream, item: Type, count: nat) returns (values: Option<seq<Value>>)
    requires stream.Valid()
    modifies stream
    ensures stream.Valid() && stream.buffer == old(stream.buffer)
    ensures Reads(values, DecodeItems(item, count, old(stream.Rest())), stream.Rest())
    decreases item, 2
  {
    hide Decode;
    var result := [];
    for i := 0 to count
      invariant stream.Valid() && stream.buffer == old(stream.buffer)
      invariant DecodeItems(item, i, old(stream.Rest())) == Some(Read(result, stream.Rest()))
    {
      var value := ReadValue(stream, item);
      if value.None? {
        ItemsFailEarly(item, i + 1, count, old(stream.Rest()));
        return None;
      }
      result := result + [value.value];
    }
    values := Some(result);
  }

  method ReadSet(stream: MemoryStream, item: Type, count: nat) returns (value: Option<Value>)
    requires stream.Valid()
    modifies stream
    ensures stream.Valid() && stream.buffer == old(stream.buffer)
    ensures match DecodeItems(item, count, old(stream.Rest()))
      case None => value == None
      case Some(items) => value == Some(SetValue(SetOf(items.value))) && stream.Rest() == items.rest
    decreases item, 2
  {
    hide Decode, SetOf;
    var members := {};
    ghost var values := [];
    EmptyContainers();
    for i := 0 to count
      invariant stream.Valid() && stream.buffer == old(stream.buffer)
      invariant DecodeItems(item, i, old(stream.Rest())) == Some(Read(values, stream.Rest()))
      invariant members == SetOf(values)
    {
      var next := ReadValue(stream, item);
      if next.None? {
        ItemsFailEarly(item, i + 1, count, old(stream.Rest()));
        return None;
      }
      OneMoreMember(values, next.value);
      values := values + [next.value];
      members := members + {next.value};
    }
    value := Some(SetValue(members));
  }

  method ReadMap(stream: MemoryStream, t: Type, count: nat) returns (value: Option<Value>)
    requires stream.Valid() && t.Map?
    modifies stream
    ensures stream.Valid() && stream.buffer == old(stream.buffer)
    ensures match DecodeEntries(t, count, old(stream.Rest()))
      case None => value == None
      case Some(pairs) => value == Some(MapValue(MapOf(pairs.value))) && stream.Rest() == pairs.rest
    decreases t, 0
  {
    hide Decode, MapOf;
    var mapped := map[];
    ghost var pairs := [];
    EmptyContainers();
    for i := 0 to count
      invariant stream.Valid() && stream.buffer == old(stream.buffer)
      invariant DecodeEntries(t, i, old(stream.Rest())) == Some(Read(pairs, stream.Rest()))
      invariant mapped == MapOf(pairs)
    {
      var k := ReadValue(stream, t.key);
      if k.None? {
        EntriesFailEarly(t, i + 1, count, old(stream.Rest()));
        return None;
      }
      var v := ReadValue(stream, t.mapped);
      if v.None? {
        EntriesFailEarly(t, i + 1, count, old(stream.Rest()));
        return None;
      }
      OneMorePair(pairs, (k.value, v.value));
      pairs := pairs + [(k.value, v.value)];
      if k.value !in mapped {
        mapped := mapped[k.value := v.value];
      }
    }
    value := Some(MapValue(mapped));
  }

  lemma EmptyContainers()
    ensures SetOf([]) == {} && MapOf([]) == map[]
  {
  }

  lemma OneMoreMember(values: seq<Value>, value: Value)
    ensures SetOf(values + [value]) == SetOf(values) + {value}
  {
  }

  lemma OneMorePair(pairs: seq<(Value, Value)>, pair: (Value, Value))
    ensures MapOf(pairs + [pair]) == Emplace(MapOf(pairs), pair)
  {
    assert (pairs + [pair])[..|pairs|] == pairs;
  }

  // ---------------------------------------------------------------- numbers at once

  function Numbers(width: nat, count: nat, bytes: seq<Byte>): seq<Value>
    requires count * width <= |bytes|
  {
    if count == 0 then []
    else
      OneLess(count, width);
      Numbers(width, count - 1, bytes) + [NumberValue(FromBytes(bytes[(count - 1) * width..count * width]))]
  }

  lemma OneLess(count: nat, width: nat)
    requires count > 0
    ensures 0 <= (count - 1) * width == count * width - width
  {
  }

  /** Reading numbers one by one is the same as taking all their bytes at once. */
  lemma {:induction false} NumbersAtOnce(width: nat, count: nat, bytes: seq<Byte>)
    ensures DecodeItems(Number(width), count, bytes) ==
            if |bytes| < count * width then None else Some(Read(Numbers(width, count, bytes), bytes[count * width..]))
  {
    hide FromBytes;
    if count > 0 {
      OneLess(count, width);
      NumbersAtOnce(width, count - 1, bytes);
      if (count - 1) * width <= |bytes| {
        var before := bytes[(count - 1) * width..];
        if |before| >= width {
          assert before[..width] == bytes[(count - 1) * width..count * width];
          assert before[width..] == bytes[count * width..];
        }
      }
    }
  }

  method ReadNumbers(stream: MemoryStream, item: Type, count: nat) returns (values: Option<seq<Value>>)
    requires stream.Valid() && item.Number?
    modifies stream
    ensures stream.Valid() && stream.buffer == old(stream.buffer)
    ensures Reads(values, DecodeItems(item, count, old(stream.Rest())), stream.Rest())
  {
    hide DecodeItems, FromBytes;
    var width := item.width;
    NumbersAtOnce(width, count, stream.Rest());
    if count == 0 {
      return Some([]);
    }
    var memory := stream.Read(count * width);
    if memory.None? {
      return None;
    }
    var result := PickUp(width, count, memory.value);
    SameNumbers(width, count, memory.value, old(stream.Rest()));
    values := Some(result);
  }

  /** The numbers that lie one after the other in these bytes. */
  method PickUp(width: nat, count: nat, memory: seq<Byte>) returns (values: seq<Value>)
    requires count * width == |memory|
    ensures values == Numbers(width, count, memory)
  {
    hide FromBytes;
    values := [];
    for i := 0 to count
      invariant i * width <= count * width
      invariant values == Numbers(width, i, memory)
    {
      OneLess(i + 1, width);
      NotMore(i + 1, count, width);
      values := values + [NumberValue(FromBytes(memory[i * width..(i + 1) * width]))];
    }
  }

  lemma NotMore(i: nat, count: nat, width: nat)
    requires i <= count
    ensures i * width <= count * width
  {
    assert (count - i) * width >= 0;
  }

  lemma {:induction false} SameNumbers(width: nat, count: nat, a: seq<Byte>, b: seq<Byte>)
    requires count * width <= |a| && a <= b
    ensures Numbers(width, count, a) == Numbers(width, count, b)
  {
    if count > 0 {
      OneLess(count, width);
      SameNumbers(width, count - 1, a, b);
      assert a[(count - 1) * width..count * width] == b[(count - 1) * width..count * width];
    }
  }
}

/** The binary form of nested values: numbers, strings, sequences, sets and maps. */
module BinaryValues {
  import opened Wrappers
  import opened Sequences
  import opened Bytes

  /** The types that have a binary form. A number stands for any trivially copyable type of its width. */
  datatype Type =
    | Number(width: nat)
    | Text
    | Vector(item: Type)
    | List(item: Type)
    | Set(item: Type)
    | Map(key: Type, mapped: Type)

  /** What is written: containers as the writer walks over them, in whatever order they list their items. */
  datatype Source =
    | Numeral(n: nat)
    | Chars(bytes: seq<Byte>)
    | Items(items: seq<Source>)
    | Entries(entries: seq<Entry>)

  datatype Entry = Entry(key: Source, mapped: Source)

  /** What is read: containers as what they contain. */
  datatype Value =
    | NumberValue(n: nat)
    | TextValue(bytes: seq<Byte>)
    | SequenceValue(values: seq<Value>)
    | SetValue(members: set<Value>)
    | MapValue(mapped: map<Value, Value>)

  const SIZE_LIMIT: nat := Pow256(4)

  // ---------------------------------------------------------------- contents

  function SetOf(values: seq<Value>): set<Value> {
    set v | v in values
  }

  /** The map that results from adding pairs in order; a key that is already there keeps its value. */
  function MapOf(pairs: seq<(Value, Value)>): map<Value, Value> {
    if pairs == [] then map[]
    else Emplace(MapOf(pairs[..|pairs| - 1]), pairs[|pairs| - 1])
  }

  function Emplace(m: map<Value, Value>, pair: (Value, Value)): map<Value, Value> {
    if pair.0 in m then m else m[pair.0 := pair.1]
  }

  ghost predicate Distinct(values: seq<Value>) {
    forall i, j | 0 <= i < j < |values| :: values[i] != values[j]
  }

  /** What the reader should end up with. */
  function Contents(t: Type, s: Source): Value
    decreases t, 1
  {
    match (t, s)
    case (Number(_), Numeral(n)) => NumberValue(n)
    case (Text, Chars(bytes)) => TextValue(bytes)
    case (Vector(item), Items(items)) => SequenceValue(AllContents(item, items))
    case (List(item), Items(items)) => SequenceValue(AllContents(item, items))
    case (Set(item), Items(items)) => SetValue(SetOf(AllContents(item, items)))
    case (Map(_, _), Entries(entries)) => MapValue(MapOf(PairContents(t, entries)))
    case _ => NumberValue(0)
  }

  function AllContents(item: Type, items: seq<Source>): (values: seq<Value>)
    ensures |values| == |items|
    decreases item, 2
  {
    seq(|items|, i requires 0 <= i < |items| => Contents(item, items[i]))
  }

  function PairContents(t: Type, entries: seq<Entry>): (pairs: seq<(Value, Value)>)
    requires t.Map?
    ensures |pairs| == |entries|
    decreases t, 0
  {
    seq(|entries|, i requires 0 <= i < |entries| => (Contents(t.key, entries[i].key), Contents(t.mapped, entries[i].mapped)))
  }

  function Keys(entries: seq<Entry>): (keys: seq<Source>)
    ensures |keys| == |entries|
  {
    seq(|entries|, i requires 0 <= i < |entries| => entries[i].key)
  }

  /** The source is a value of the type: numbers have their width, and sets and maps list nothing twice. */
  ghost predicate HasType(t: Type, s: Source) {
    match (t, s)
    case (Number(width), Numeral(n)) => n < Pow256(width)
    case (Text, Chars(_)) => true
    case (Vector(item), Items(items)) => forall i | 0 <= i < |items| :: HasType(item, items[i])
    case (List(item), Items(items)) => forall i | 0 <= i < |items| :: HasType(item, items[i])
    case (Set(item), Items(items)) =>
      (forall i | 0 <= i < |items| :: HasType(item, items[i])) && Distinct(AllContents(item, items))
    case (Map(key, mapped), Entries(entries)) =>
      && (forall i | 0 <= i < |entries| :: HasType(key, entries[i].key) && HasType(mapped, entries[i].mapped))
      && Distinct(AllContents(key, Keys(entries)))
    case _ => false
  }

  /** Every string and every container has fewer than 2^32 items, so that its size fits its field. */
  ghost predicate SizesFit(t: Type, s: Source) {
    match (t, s)
    case (Number(_), _) => true
    case (Text, Chars(bytes)) => |bytes| < SIZE_LIMIT
    case (Vector(item), Items(items)) => |items| < SIZE_LIMIT && forall i | 0 <= i < |items| :: SizesFit(item, items[i])
    case (List(item), Items(items)) => |items| < SIZE_LIMIT && forall i | 0 <= i < |items| :: SizesFit(item, items[i])
    case (Set(item), Items(items)) => |items| < SIZE_LIMIT && forall i | 0 <= i < |items| :: SizesFit(item, items[i])
    case (Map(key, mapped), Entries(entries)) =>
      && |entries| < SIZE_LIMIT
      && forall i | 0 <= i < |entries| :: SizesFit(key, entries[i].key) && SizesFit(mapped, entries[i].mapped)
    case _ => true
  }

  // ---------------------------------------------------------------- writing

  function Encode(t: Type, s: Source): seq<Byte>
    decreases t, 1, 0
  {
    match (t, s)
    case (Number(width), Numeral(n)) => ToBytes(n, width)
    case (Text, Chars(bytes)) => ToBytes(|bytes|, 4) + bytes
    case (Vector(item), Items(items)) => ToBytes(|items|, 4) + EncodeItems(item, items)
    case (List(item), Items(items)) => ToBytes(|items|, 4) + EncodeItems(item, items)
    case (Set(item), Items(items)) => ToBytes(|items|, 4) + EncodeItems(item, items)
    case (Map(_, _), Entries(entries)) => ToBytes(|entries|, 4) + EncodeEntries(t, entries)
    case _ => []
  }

  function EncodeItems(item: Type, items: seq<Source>): seq<Byte>
    decreases item, 2, |items|
  {
    if items == [] then [] else EncodeItems(item, items[..|items| - 1]) + Encode(item, items[|items| - 1])
  }

  function EncodeEntries(t: Type, entries: seq<Entry>): seq<Byte>
    requires t.Map?
    decreases t, 0, |entries|
  {
    if entries == [] then []
    else
      var last := entries[|entries| - 1];
      EncodeEntries(t, entries[..|entries| - 1]) + (Encode(t.key, last.key) + Encode(t.mapped, last.mapped))
  }

  // ---------------------------------------------------------------- reading

  /** What was read, and the bytes after it. */
  datatype Read<T> = Read(value: T, rest: seq<Byte>)

  function Take(count: nat, bytes: seq<Byte>): Option<Read<seq<Byte>>> {
    if |bytes| < count then None else Some(Read(bytes[..count], bytes[count..]))
  }

  function TakeNumber(width: nat, bytes: seq<Byte>): Option<Read<nat>> {
    var read :- Take(width, bytes);
    Some(Read(FromBytes(read.value), read.rest))
  }

  function Decode(t: Type, bytes: seq<Byte>): Option<Read<Value>>
    decreases t, 1, 0
  {
    match t
    case Number(width) =>
      var number :- TakeNumber(width, bytes);
      Some(Read(NumberValue(number.value), number.rest))
    case Text =>
      var size :- TakeNumber(4, bytes);
      var text :- Take(size.value, size.rest);
      Some(Read(TextValue(text.value), text.rest))
    case Vector(item) =>
      var size :- TakeNumber(4, bytes);
      var items :- DecodeItems(item, size.value, size.rest);
      Some(Read(SequenceValue(items.value), items.rest))
    case List(item) =>
      var size :- TakeNumber(4, bytes);
      var items :- DecodeItems(item, size.value, size.rest);
      Some(Read(SequenceValue(items.value), items.rest))
    case Set(item) =>
      var size :- TakeNumber(4, bytes);
      var items :- DecodeItems(item, size.value, size.rest);
      Some(Read(SetValue(SetOf(items.value)), items.rest))
    case Map(_, _) =>
      var size :- TakeNumber(4, bytes);
      var pairs :- DecodeEntries(t, size.value, size.rest);
      Some(Read(MapValue(MapOf(pairs.value)), pairs.rest))
  }

  function DecodeItems(item: Type, count: nat, bytes: seq<Byte>): Option<Read<seq<Value>>>
    decreases item, 2, count
  {
    if count == 0 then Some(Read([], bytes))
    else
      var before :- DecodeItems(item, count - 1, bytes);
      var last :- Decode(item, before.rest);
      Some(Read(before.value + [last.value], last.rest))
  }

  function DecodeEntries(t: Type, count: nat, bytes: seq<Byte>): Option<Read<seq<(Value, Value)>>>
    requires t.Map?
    decreases t, 0, count
  {
    if count == 0 then Some(Read([], bytes))
    else
      var before :- DecodeEntries(t, count - 1, bytes);
      var k :- Decode(t.key, before.rest);
      var v :- Decode(t.mapped, k.rest);
      Some(Read(before.value + [(k.value, v.value)], v.rest))
  }

  // ---------------------------------------------------------------- round trip

  lemma TakeBack(bytes: seq<Byte>, rest: seq<Byte>)
    ensures Take(|bytes|, bytes + rest) == Some(Read(bytes, rest))
  {
    assert (bytes + rest)[..|bytes|] == bytes && (bytes + rest)[|bytes|..] == rest;
  }

  lemma NumberBack(n: nat, width: nat, rest: seq<Byte>)
    requires n < Pow256(width)
    ensures TakeNumber(width, ToBytes(n, width) + rest) == Some(Read(n, rest))
  {
    hide ToBytes, FromBytes, Take, Pow256;
    TakeBack(ToBytes(n, width), rest);
    NumberRoundTrip(n, width);
    SmallRemainder(n, Pow256(width));
  }

  lemma SmallRemainder(n: nat, p: nat)
    requires n < p
    ensures n % p == n
  {
  }

  lemma SizeBack(n: nat, bytes: seq<Byte>, rest: seq<Byte>)
    requires n < SIZE_LIMIT
    ensures TakeNumber(4, ToBytes(n, 4) + bytes + rest) == Some(Read(n, bytes + rest))
  {
    hide TakeNumber, ToBytes;
    Regroup(ToBytes(n, 4), bytes, rest);
    NumberBack(n, 4, bytes + rest);
  }

  ghost predicate Writable(t: Type, s: Source) {
    HasType(t, s) && SizesFit(t, s)
  }

  ghost predicate AllWritable(item: Type, items: seq<Source>) {
    forall i | 0 <= i < |items| :: Writable(item, items[i])
  }

  ghost predicate EntriesWritable(t: Type, entries: seq<Entry>)
    requires t.Map?
  {
    forall i | 0 <= i < |entries| :: Writable(t.key, entries[i].key) && Writable(t.mapped, entries[i].mapped)
  }

  lemma ItemsAreWritable(t: Type, s: Source)
    requires Writable(t, s)
    ensures (t.Vector? || t.List? || t.Set?) ==> s.Items? && |s.items| < SIZE_LIMIT && AllWritable(t.item, s.items)
    ensures t.Map? ==> s.Entries? && |s.entries| < SIZE_LIMIT && EntriesWritable(t, s.entries)
    ensures t.Text? ==> s.Chars? && |s.bytes| < SIZE_LIMIT
    ensures t.Number? ==> s.Numeral? && s.n < Pow256(t.width)
  {
    hide Distinct, AllContents, Keys, SIZE_LIMIT;
  }

  /** What was written is read back, whatever follows it. */
  lemma {:induction false} ValueBack(t: Type, s: Source, rest: seq<Byte>)
    requires Writable(t, s)
    ensures Decode(t, Encode(t, s) + rest) == Some(Read(Contents(t, s), rest))
    decreases t, 1, 0
  {
    hide HasType, SizesFit, Writable, AllWritable, EntriesWritable, SIZE_LIMIT, Take, TakeNumber, ToBytes, EncodeItems,
      EncodeEntries, DecodeItems, DecodeEntries, SetOf, MapOf, AllContents, PairContents, Pow256;
    ItemsAreWritable(t, s);
    match t
    case Number(width) =>
      NumberBack(s.n, width, rest);
    case Text =>
      SizeBack(|s.bytes|, s.bytes, rest);
      TakeBack(s.bytes, rest);
    case Map(_, _) =>
      SizeBack(|s.entries|, EncodeEntries(t, s.entries), rest);
      EntriesBack(t, s.entries, rest);
    case _ =>
      SizeBack(|s.items|, EncodeItems(t.item, s.items), rest);
      ItemsBack(t.item, s.items, rest);
  }

  lemma {:induction false} ItemsBack(item: Type, items: seq<Source>, rest: seq<Byte>)
    requires AllWritable(item, items)
    ensures DecodeItems(item, |items|, EncodeItems(item, items) + rest) == Some(Read(AllContents(item, items), rest))
    decreases item, 2, |items|
  {
    hide Decode, Encode, Contents, Writable;
    if items == [] {
      assert [] + rest == rest;
    } else {
      var before, last := items[..|items| - 1], items[|items| - 1];
      Regroup(EncodeItems(item, before), Encode(item, last), rest);
      ItemsBack(item, before, Encode(item, last) + rest);
      ValueBack(item, last, rest);
      assert AllContents(item, items) == AllContents(item, before) + [Contents(item, last)];
    }
  }

  lemma {:induction false} EntriesBack(t: Type, entries: seq<Entry>, rest: seq<Byte>)
    requires t.Map? && EntriesWritable(t, entries)
    ensures DecodeEntries(t, |entries|, EncodeEntries(t, entries) + rest) == Some(Read(PairContents(t, entries), rest))
    decreases t, 0, |entries|
  {
    hide Decode, Encode, Contents, Writable;
    if entries == [] {
      assert [] + rest == rest;
    } else {
      var before, last := entries[..|entries| - 1], entries[|entries| - 1];
      var key, mapped := Encode(t.key, last.key), Encode(t.mapped, last.mapped);
      Regroup(EncodeEntries(t, before), key + mapped, rest);
      Regroup(key, mapped, rest);
      EntriesBack(t, before, key + mapped + rest);
      ValueBack(t.key, last.key, mapped + rest);
      ValueBack(t.mapped, last.mapped, rest);
      assert PairContents(t, entries) ==
             PairContents(t, before) + [(Contents(t.key, last.key), Contents(t.mapped, last.mapped))];
    }
  }

  // ---------------------------------------------------------------- sizes

  ghost predicate ValueFits(t: Type, v: Value) {
    match (t, v)
    case (Text, TextValue(bytes)) => |bytes| < SIZE_LIMIT
    case (Vector(item), SequenceValue(values)) => |values| < SIZE_LIMIT && forall i | 0 <= i < |values| :: ValueFits(item, values[i])
    case (List(item), SequenceValue(values)) => |values| < SIZE_LIMIT && forall i | 0 <= i < |values| :: ValueFits(item, values[i])
    case (Set(item), SetValue(members)) => |members| < SIZE_LIMIT && forall v | v in members :: ValueFits(item, v)
    case (Map(key, mapped), MapValue(m)) =>
      |m| < SIZE_LIMIT && forall k | k in m :: ValueFits(key, k) && ValueFits(mapped, m[k])
    case _ => true
  }

  lemma NumberFits(width: nat, bytes: seq<Byte>)
    ensures TakeNumber(width, bytes).Some? ==> TakeNumber(width, bytes).value.value < Pow256(width)
  {
    hide FromBytes, Pow256;
    if |bytes| >= width {
      BytesRoundTrip(bytes[..width]);
    }
  }

  lemma {:induction false} SetOfSize(values: seq<Value>)
    ensures |SetOf(values)| <= |values|
    ensures Distinct(values) ==> |SetOf(values)| == |values|
  {
    if values != [] {
      var before, last := values[..|values| - 1], values[|values| - 1];
      SetOfSize(before);
      assert SetOf(values) == SetOf(before) + {last};
    }
  }

  lemma {:induction false} MapOfContains(pairs: seq<(Value, Value)>)
    ensures |MapOf(pairs)| <= |pairs|
    ensures forall k | k in MapOf(pairs) :: exists i | 0 <= i < |pairs| :: pairs[i] == (k, MapOf(pairs)[k])
  {
    if pairs != [] {
      var before := pairs[..|pairs| - 1];
      MapOfContains(before);
      forall k | k in MapOf(pairs)
        ensures exists i | 0 <= i < |pairs| :: pairs[i] == (k, MapOf(pairs)[k])
      {
        if k in MapOf(before) {
          var i :| 0 <= i < |before| && before[i] == (k, MapOf(before)[k]);
          assert pairs[i] == before[i];
        } else {
          assert pairs[|pairs| - 1] == (k, MapOf(pairs)[k]);
        }
      }
    }
  }

  ghost predicate DistinctKeys(pairs: seq<(Value, Value)>) {
    forall i, j | 0 <= i < j < |pairs| :: pairs[i].0 != pairs[j].0
  }

  /** Pairs with different keys all end up in the map. */
  lemma {:induction false} MapOfDistinct(pairs: seq<(Value, Value)>)
    requires DistinctKeys(pairs)
    ensures |MapOf(pairs)| == |pairs|
    ensures forall i | 0 <= i < |pairs| :: pairs[i].0 in MapOf(pairs) && MapOf(pairs)[pairs[i].0] == pairs[i].1
  {
    if pairs != [] {
      var before, last := pairs[..|pairs| - 1], pairs[|pairs| - 1];
      MapOfDistinct(before);
      MapOfContains(before);
      assert last.0 !in MapOf(before);
      assert forall i | 0 <= i < |before| :: pairs[i] == before[i];
    }
  }

  lemma {:induction false} DecodedFits(t: Type, bytes: seq<Byte>)
    requires Decode(t, bytes).Some?
    ensures ValueFits(t, Decode(t, bytes).value.value)
    decreases t, 1, 0
  {
    hide Take, TakeNumber, DecodeItems, DecodeEntries, SetOf, MapOf, Pow256;
    NumberFits(4, bytes);
    var size := TakeNumber(4, bytes);
    match t
    case Number(_) =>
    case Text =>
      TakenSize(size.value.value, size.value.rest);
    case Map(_, _) =>
      var pairs := DecodeEntries(t, size.value.value, size.value.rest).value.value;
      EntriesDecodedFit(t, size.value.value, size.value.rest);
      MapOfContains(pairs);
    case _ =>
      var values := DecodeItems(t.item, size.value.value, size.value.rest).value.value;
      ItemsDecodedFit(t.item, size.value.value, size.value.rest);
      SetOfSize(values);
      SetOfContains(values);
  }

  lemma TakenSize(count: nat, bytes: seq<Byte>)
    ensures Take(count, bytes).Some? ==> |Take(count, bytes).value.value| == count
  {
  }

  lemma SetOfContains(values: seq<Value>)
    ensures forall v | v in SetOf(values) :: v in values
    ensures forall i | 0 <= i < |values| :: values[i] in SetOf(values)
  {
  }

  lemma {:induction false} ItemsDecodedFit(item: Type, count: nat, bytes: seq<Byte>)
    requires DecodeItems(item, count, bytes).Some?
    ensures var values := DecodeItems(item, count, bytes).value.value;
      |values| == count && forall i | 0 <= i < count :: ValueFits(item, values[i])
    decreases item, 2, count
  {
    hide Decode, ValueFits;
    if count > 0 {
      ItemsDecodedFit(item, count - 1, bytes);
      DecodedFits(item, DecodeItems(item, count - 1, bytes).value.rest);
    }
  }

  lemma {:induction false} EntriesDecodedFit(t: Type, count: nat, bytes: seq<Byte>)
    requires t.Map? && DecodeEntries(t, count, bytes).Some?
    ensures var pairs := DecodeEntries(t, count, bytes).value.value;
      |pairs| == count && forall i | 0 <= i < count :: ValueFits(t.key, pairs[i].0) && ValueFits(t.mapped, pairs[i].1)
    decreases t, 0, count
  {
    hide Decode, ValueFits;
    if count > 0 {
      EntriesDecodedFit(t, count - 1, bytes);
      var rest := DecodeEntries(t, count - 1, bytes).value.rest;
      DecodedFits(t.key, rest);
      DecodedFits(t.mapped, Decode(t.key, rest).value.rest);
    }
  }

  /** Contents whose sizes fit come from sources whose sizes fit. */
  lemma {:induction false} ContentsFit(t: Type, s: Source)
    requires HasType(t, s) && ValueFits(t, Contents(t, s))
    ensures SizesFit(t, s)
  {
    hide SetOf, MapOf, SIZE_LIMIT;
    match t
    case Number(_) =>
    case Text =>
    case Map(key, mapped) =>
      var pairs := PairContents(t, s.entries);
      KeysOfPairs(t, s.entries);
      MapOfDistinct(pairs);
      forall i | 0 <= i < |s.entries|
        ensures SizesFit(key, s.entries[i].key) && SizesFit(mapped, s.entries[i].mapped)
      {
        assert pairs[i].0 in MapOf(pairs);
        ContentsFit(key, s.entries[i].key);
        ContentsFit(mapped, s.entries[i].mapped);
      }
    case _ =>
      var values := AllContents(t.item, s.items);
      SetOfSize(values);
      SetOfContains(values);
      forall i | 0 <= i < |s.items|
        ensures SizesFit(t.item, s.items[i])
      {
        assert values[i] in SetOf(values);
        ContentsFit(t.item, s.items[i]);
      }
  }

  lemma KeysOfPairs(t: Type, entries: seq<Entry>)
    requires t.Map? && Distinct(AllContents(t.key, Keys(entries)))
    ensures DistinctKeys(PairContents(t, entries))
  {
    hide Contents;
    var keys, pairs := AllContents(t.key, Keys(entries)), PairContents(t, entries);
    assert forall i | 0 <= i < |entries| :: keys[i] == pairs[i].0;
  }

  /** A value that is written comes back, whatever follows it and in whatever order its sets and maps are
      listed, exactly when all its sizes fit. */
  lemma RoundTripIsExact(t: Type, s: Source, rest: seq<Byte>)
    requires HasType(t, s)
    ensures Decode(t, Encode(t, s) + rest) == Some(Read(Contents(t, s), rest)) <==> SizesFit(t, s)
  {
    hide HasType, SizesFit, Encode, Decode, ValueFits;
    if SizesFit(t, s) {
      ValueBack(t, s, rest);
    } else if Decode(t, Encode(t, s) + rest) == Some(Read(Contents(t, s), rest)) {
      DecodedFits(t, Encode(t, s) + rest);
      ContentsFit(t, s);
    }
  }

  // ---------------------------------------------------------------- the layout

  /** Sizes have four bytes, keys come before what they are mapped to, and items in order: the bytes of a map with one
      entry, from a text to two numbers of two bytes. */
  lemma LayoutOfMap(low: Byte, high: Byte, c: Byte)
    ensures var entry := Entry(Chars([c]), Items([Numeral(low + high * 0x100), Numeral(high)]));
      Encode(Map(Text, Vector(Number(2))), Entries([entry])) ==
      [1, 0, 0, 0] + [1, 0, 0, 0, c] + [2, 0, 0, 0, low, high, high, 0]
  {
    SmallSizes();
    TwoBytes(low, high);
    TwoBytes(high, 0);
    var items := [Numeral(low + high * 0x100), Numeral(high)];
    assert items[..1] == [Numeral(low + high * 0x100)] && items[..1][..0] == [];
    var entry := Entry(Chars([c]), Items(items));
    assert [entry][..0] == [];
    hide ToBytes;
    assert EncodeItems(Number(2), items) == [low, high] + [high, 0] by {
      assert EncodeItems(Number(2), items[..1]) == [] + [low, high];
    }
    assert EncodeEntries(Map(Text, Vector(Number(2))), [entry]) ==
           [] + (([1, 0, 0, 0] + [c]) + ([2, 0, 0, 0] + ([low, high] + [high, 0])));
  }

  lemma SmallSizes()
    ensures ToBytes(1, 4) == [1, 0, 0, 0] && ToBytes(2, 4) == [2, 0, 0, 0]
  {
    assert ToBytes(0, 3) == [0, 0, 0] by {
      assert ToBytes(0, 1) == [0] && ToBytes(0, 2) == [0, 0];
    }
  }

  lemma TwoBytes(low: Byte, high: Byte)
    ensures ToBytes(low + high * 0x100, 2) == [low, high]
  {
    var n := low + high * 0x100;
    assert n % 0x100 == low && n / 0x100 == high;
    assert ToBytes(high, 1) == [high];
  }
}

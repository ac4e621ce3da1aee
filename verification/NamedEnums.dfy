/** The text of an enumeration value: its name, the names of its flags, or its number. */
module NamedEnums {
  import opened Wrappers
  import opened Sequences
  import opened Strings

  /** The bits of a value; the underlying type is a signed 32-bit integer. */
  type Bits = bv32

  datatype Item = Item(name: string, value: Bits)

  /** A declared enumeration: its items in order, and whether they are flags. */
  datatype Definition = Definition(items: seq<Item>, isFlags: bool)

  const INT_LIMIT: nat := 0x8000_0000

  /** The number a value is printed as. */
  function Signed(value: Bits): int {
    if value as int < INT_LIMIT then value as int else value as int - 0x1_0000_0000
  }

  predicate HasSingleBit(bits: Bits) {
    bits != 0 && bits & (bits - 1) == 0
  }

  /** Whether an item of a single bit is among the remaining bits. */
  predicate IsFlagOf(bits: Bits, remaining: Bits) {
    HasSingleBit(bits) && remaining & bits != 0
  }

  function Clear(remaining: Bits, bits: Bits): Bits {
    remaining & !bits
  }

  function Union(a: Bits, b: Bits): Bits {
    a | b
  }

  predicate IsPowerOfTwo(bits: Bits) {
    || bits == 0x1 || bits == 0x2 || bits == 0x4 || bits == 0x8
    || bits == 0x10 || bits == 0x20 || bits == 0x40 || bits == 0x80
    || bits == 0x100 || bits == 0x200 || bits == 0x400 || bits == 0x800
    || bits == 0x1000 || bits == 0x2000 || bits == 0x4000 || bits == 0x8000
    || bits == 0x1_0000 || bits == 0x2_0000 || bits == 0x4_0000 || bits == 0x8_0000
    || bits == 0x10_0000 || bits == 0x20_0000 || bits == 0x40_0000 || bits == 0x80_0000
    || bits == 0x100_0000 || bits == 0x200_0000 || bits == 0x400_0000 || bits == 0x800_0000
    || bits == 0x1000_0000 || bits == 0x2000_0000 || bits == 0x4000_0000 || bits == 0x8000_0000
  }

  /** The values that the loop over the flags takes into account are the powers of two. */
  lemma SingleBitIsPowerOfTwo(bits: Bits)
    ensures HasSingleBit(bits) <==> IsPowerOfTwo(bits)
  {
  }

  /** The number of a value is the one of 32 bits in two's complement that has its bits. */
  lemma SignedIs(value: Bits)
    ensures 0 - 0x8000_0000 <= Signed(value) < 0x8000_0000
    ensures Signed(value) == value as int || Signed(value) == value as int - 0x1_0000_0000
  {
    assert value as int < 0x1_0000_0000;
  }

  // ---------------------------------------------------------------- text helpers of the library

  predicate IsBlank(c: char) {
    c in " \t\r\n" || c == 11 as char || c == 12 as char
  }

  function TrimStart(text: string): (r: string)
    ensures |r| <= |text| && (r == "" || !IsBlank(r[0]))
  {
    if text != "" && IsBlank(text[0]) then TrimStart(text[1..]) else text
  }

  function TrimEnd(text: string): (r: string)
    ensures r <= text && (r == "" || !IsBlank(r[|r| - 1]))
  {
    if text != "" && IsBlank(text[|text| - 1]) then TrimEnd(text[..|text| - 1]) else text
  }

  function Trim(text: string): (r: string)
    ensures |r| <= |text|
  {
    TrimEnd(TrimStart(text))
  }

  /** The parts between delimiters; nothing after the last delimiter is not a part. */
  function Split(text: string, delimiter: char): (parts: seq<string>)
    ensures forall i | 0 <= i < |parts| :: |parts[i]| <= |text| && delimiter !in parts[i]
    decreases |text|
  {
    if text == "" then []
    else
      var end := UpTo(text, delimiter);
      if end == |text| then [text] else [text[..end]] + Split(text[end + 1..], delimiter)
  }

  /** The length of the text before the first delimiter. */
  function UpTo(text: string, delimiter: char): (end: nat)
    ensures end <= |text| && delimiter !in text[..end] && (end < |text| ==> text[end] == delimiter)
  {
    if text == "" || text[0] == delimiter then 0
    else
      assert forall n | 0 < n <= |text| :: text[..n] == [text[0]] + text[1..][..n - 1];
      1 + UpTo(text[1..], delimiter)
  }

  lemma SplitAt(text: string, start: nat, end: nat, delimiter: char)
    requires start <= end < |text| && delimiter !in text[start..end] && text[end] == delimiter
    ensures Split(text[start..], delimiter) == [text[start..end]] + Split(text[end + 1..], delimiter)
  {
    var tail := text[start..];
    assert tail[..end - start] == text[start..end] && tail[end - start + 1..] == text[end + 1..];
    PartEnds(tail, end - start, delimiter);
  }

  method SplitText(text: string, delimiter: char) returns (parts: seq<string>)
    ensures parts == Split(text, delimiter)
  {
    hide Split;
    ghost var goal := Split(text, delimiter);
    parts := [];
    var start := 0;
    assert text[0..] == text;
    for i := 0 to |text|
      invariant start <= i && delimiter !in text[start..i]
      invariant parts + Split(text[start..], delimiter) == goal
    {
      if text[i] == delimiter {
        SplitAt(text, start, i, delimiter);
        parts := parts + [text[start..i]];
        start := i + 1;
      } else {
        assert text[start..i + 1] == text[start..i] + [text[i]];
      }
    }
    assert text[start..|text|] == text[start..];
    if start < |text| {
      LastPart(text[start..], delimiter);
      parts := parts + [text[start..]];
    } else {
      NoParts(delimiter);
    }
  }

  lemma NoParts(delimiter: char)
    ensures Split("", delimiter) == []
  {
  }

  lemma {:induction false} UpToIs(text: string, end: nat, delimiter: char)
    requires end <= |text| && delimiter !in text[..end] && (end < |text| ==> text[end] == delimiter)
    ensures UpTo(text, delimiter) == end
  {
    if end > 0 {
      assert text[0] == text[..end][0];
      assert text[1..][..end - 1] == text[..end][1..];
      UpToIs(text[1..], end - 1, delimiter);
    }
  }

  lemma PartEnds(text: string, end: nat, delimiter: char)
    requires end < |text| && delimiter !in text[..end] && text[end] == delimiter
    ensures Split(text, delimiter) == [text[..end]] + Split(text[end + 1..], delimiter)
  {
    UpToIs(text, end, delimiter);
  }

  lemma LastPart(text: string, delimiter: char)
    requires text != "" && delimiter !in text
    ensures Split(text, delimiter) == [text]
  {
    assert text[..|text|] == text;
    UpToIs(text, |text|, delimiter);
  }

  function LowerChar(c: char): char {
    if 'A' <= c <= 'Z' then c - 'A' + 'a' else c
  }

  function ToLower(text: string): (r: string)
    ensures |r| == |text| && forall i | 0 <= i < |text| :: r[i] == LowerChar(text[i])
  {
    seq(|text|, i requires 0 <= i < |text| => LowerChar(text[i]))
  }

  // ---------------------------------------------------------------- writing

  /** The first item with this value. */
  function NameOf(items: seq<Item>, value: Bits): (item: Option<Item>)
    ensures item.Some? ==> item.value in items && item.value.value == value
  {
    if items == [] then None
    else if items[0].value == value then Some(items[0])
    else NameOf(items[1..], value)
  }

  /** The single-bit items found among the bits that no earlier one took. */
  function FlagsIn(items: seq<Item>, remaining: Bits): (found: seq<Item>)
    ensures forall i | 0 <= i < |found| :: found[i] in items
  {
    if items == [] then []
    else
      var bits := items[0].value;
      if IsFlagOf(bits, remaining) then [items[0]] + FlagsIn(items[1..], Clear(remaining, bits))
      else FlagsIn(items[1..], remaining)
  }

  /** The bits that no single-bit item has. */
  function Unnamed(items: seq<Item>, remaining: Bits): Bits {
    if items == [] then remaining
    else
      var bits := items[0].value;
      Unnamed(items[1..], if IsFlagOf(bits, remaining) then Clear(remaining, bits) else remaining)
  }

  const SEPARATOR: string := " | "

  function Join(items: seq<Item>): string {
    if items == [] then ""
    else if |items| == 1 then items[0].name
    else items[0].name + (SEPARATOR + Join(items[1..]))
  }

  /** The text of a number. */
  function NumberText(n: int): string {
    if n < 0 then "-" + DigitsOfNat(-n) else DigitsOfNat(n)
  }

  function Text(d: Definition, value: Bits): string {
    var item := NameOf(d.items, value);
    if item.Some? then item.value.name
    else if d.isFlags && FlagsIn(d.items, value) != [] && Unnamed(d.items, value) == 0 then Join(FlagsIn(d.items, value))
    else NumberText(Signed(value))
  }

  lemma {:induction false} JoinOneMore(found: seq<Item>, item: Item)
    ensures Join(found + [item]) == if found == [] then item.name else Join(found) + SEPARATOR + item.name
  {
    hide SEPARATOR;
    if |found| > 1 {
      JoinOneMore(found[1..], item);
      assert (found + [item])[1..] == found[1..] + [item];
      var first, rest := found[0].name, Join(found[1..]);
      Regroup(rest, SEPARATOR, item.name);
      Regroup(SEPARATOR, rest, SEPARATOR + item.name);
      Regroup(first, SEPARATOR + rest, SEPARATOR + item.name);
    } else if |found| == 1 {
      assert (found + [item])[1..] == [item];
    }
  }

  /** The names of a declaration: identifiers that differ in more than the case of their letters. */
  ghost predicate Named(items: seq<Item>) {
    && (forall i | 0 <= i < |items| :: IsIdentifier(items[i].name))
    && (forall i, j | 0 <= i < j < |items| :: ToLower(items[i].name) != ToLower(items[j].name))
  }

  predicate IsIdentifierChar(c: char) {
    'A' <= c <= 'Z' || 'a' <= c <= 'z' || '0' <= c <= '9' || c == '_'
  }

  predicate IsIdentifier(name: string) {
    name != "" && !IsDigit(name[0]) && forall i | 0 <= i < |name| :: IsIdentifierChar(name[i])
  }

  lemma FlagsStep(items: seq<Item>, i: nat, remaining: Bits)
    requires i < |items|
    ensures var bits := items[i].value;
      var left := if IsFlagOf(bits, remaining) then Clear(remaining, bits) else remaining;
      && FlagsIn(items[i..], remaining) ==
         (if IsFlagOf(bits, remaining) then [items[i]] else []) + FlagsIn(items[i + 1..], left)
      && Unnamed(items[i..], remaining) == Unnamed(items[i + 1..], left)
  {
    hide IsFlagOf, Clear;
    assert items[i..][1..] == items[i + 1..];
  }

  /** The loop over the single-bit names. */
  method JoinFlags(items: seq<Item>, value: Bits) returns (result: string, remaining: Bits)
    requires Named(items)
    ensures result == Join(FlagsIn(items, value)) && remaining == Unnamed(items, value)
    ensures result == "" <==> FlagsIn(items, value) == []
  {
    hide IsFlagOf, Clear, Join, Named, ToLower;
    remaining, result := value, "";
    ghost var found: seq<Item> := [];
    ghost var goal, left := FlagsIn(items, value), Unnamed(items, value);
    assert items[0..] == items;
    NothingJoined();
    NamesNotEmpty(items);
    for i := 0 to |items|
      invariant Unnamed(items[i..], remaining) == left
      invariant found + FlagsIn(items[i..], remaining) == goal
      invariant result == Join(found) && (result == "" <==> found == [])
    {
      FlagsStep(items, i, remaining);
      var bits := items[i].value;
      if !IsFlagOf(bits, remaining) {
        continue;
      }
      if result != "" {
        result := result + SEPARATOR;
      }
      JoinOneMore(found, items[i]);
      result := result + items[i].name;
      found := found + [items[i]];
      remaining := Clear(remaining, bits);
    }
    assert found + [] == found;
  }

  lemma NothingJoined()
    ensures Join([]) == ""
  {
  }

  lemma NamesNotEmpty(items: seq<Item>)
    requires Named(items)
    ensures forall i | 0 <= i < |items| :: items[i].name != ""
  {
  }

  method ToText(d: Definition, value: Bits) returns (text: string)
    requires Named(d.items)
    ensures text == Text(d, value)
  {
    for i := 0 to |d.items|
      invariant NameOf(d.items, value) == NameOf(d.items[i..], value)
    {
      assert d.items[i..][1..] == d.items[i + 1..];
      if d.items[i].value == value {
        return d.items[i].name;
      }
    }
    if d.isFlags {
      var result, remaining := JoinFlags(d.items, value);
      if remaining == 0 && result != "" {
        return result;
      }
    }
    text := NumberText(Signed(value));
  }

  // ---------------------------------------------------------------- reading

  /** A number, which must fill the text and fit the underlying type. */
  function ParseNumber(text: string): Option<Bits> {
    if AllDigits(text) && NatOfDigits(text) < INT_LIMIT then Some(NatOfDigits(text) as Bits) else None
  }

  /** The value of the first item with this key. */
  function ValueOf(items: seq<Item>, key: string): Option<Bits> {
    if items == [] then None
    else if ToLower(items[0].name) == key then Some(items[0].value)
    else ValueOf(items[1..], key)
  }

  function Parse(d: Definition, text: string): Option<Bits>
    decreases |text|, 1, 0
  {
    var name := Trim(text);
    if name == "" then None
    else if d.isFlags && '|' in name then
      ParseParts(d, Split(name, '|'), |name|)
    else if IsDigit(name[0]) then ParseNumber(name)
    else ValueOf(d.items, ToLower(name))
  }

  /** The union of some parts, all of which must have a value. */
  function ParseParts(d: Definition, parts: seq<string>, limit: nat): Option<Bits>
    requires forall i | 0 <= i < |parts| :: |parts[i]| < limit
    decreases limit, 0, |parts|
  {
    if parts == [] then Some(0)
    else
      var first :- Parse(d, parts[0]);
      var rest :- ParseParts(d, parts[1..], limit);
      Some(Union(first, rest))
  }

  method TryParse(d: Definition, text: string) returns (value: Option<Bits>)
    ensures value == Parse(d, text)
    decreases |text|
  {
    hide Split, Union, ToLower;
    var name := Trim(text);
    if name == "" {
      return None;
    }
    if d.isFlags && '|' in name {
      var result: Bits := 0;
      var parts := SplitText(name, '|');
      PartsAreShorter(name, '|');
      UnionWithNothing(ParseParts(d, parts, |name|));
      assert parts[0..] == parts;
      for i := 0 to |parts|
        invariant Joined(result, ParseParts(d, parts[i..], |name|)) == ParseParts(d, parts, |name|)
      {
        assert parts[i..][0] == parts[i] && parts[i..][1..] == parts[i + 1..];
        var part := TryParse(d, parts[i]);
        if part.None? {
          return None;
        }
        UnionAssociates(result, part.value, ParseParts(d, parts[i + 1..], |name|));
        result := Union(result, part.value);
      }
      UnionWithZero(result);
      return Some(result);
    }
    if IsDigit(name[0]) {
      return ParseNumber(name);
    }
    var key := ToLower(name);
    for i := 0 to |d.items|
      invariant ValueOf(d.items, key) == ValueOf(d.items[i..], key)
    {
      assert d.items[i..][1..] == d.items[i + 1..];
      if ToLower(d.items[i].name) == key {
        return Some(d.items[i].value);
      }
    }
    value := None;
  }

  lemma PartsAreShorter(name: string, delimiter: char)
    requires delimiter in name
    ensures forall i | 0 <= i < |Split(name, delimiter)| :: |Split(name, delimiter)[i]| < |name|
  {
    hide Split, UpTo;
    var end := UpTo(name, delimiter);
    assert end < |name| by {
      assert name[..|name|] == name;
    }
    PartEnds(name, end, delimiter);
    AllShorter([name[..end]], Split(name[end + 1..], delimiter), |name|);
  }

  lemma AllShorter(first: seq<string>, rest: seq<string>, limit: nat)
    requires forall i | 0 <= i < |first| :: |first[i]| < limit
    requires forall i | 0 <= i < |rest| :: |rest[i]| < limit
    ensures forall i | 0 <= i < |first + rest| :: |(first + rest)[i]| < limit
  {
  }

  /** The union of what was parsed so far with what is still to come. */
  function Joined(result: Bits, rest: Option<Bits>): Option<Bits> {
    if rest.None? then None else Some(Union(result, rest.value))
  }

  lemma UnionWithNothing(rest: Option<Bits>)
    ensures Joined(0, rest) == rest
  {
  }

  lemma UnionWithZero(result: Bits)
    ensures Union(result, 0) == result && Union(0, result) == result
  {
  }

  lemma UnionAssociates(a: Bits, b: Bits, rest: Option<Bits>)
    ensures Joined(Union(a, b), rest) == Joined(a, Joined(b, rest))
  {
    hide Union;
    if rest.Some? {
      UnionRegroups(a, b, rest.value);
    }
  }

  // ---------------------------------------------------------------- names

  predicate AllBlank(text: string) {
    forall i | 0 <= i < |text| :: IsBlank(text[i])
  }

  predicate Tight(text: string) {
    text != "" && !IsBlank(text[0]) && !IsBlank(text[|text| - 1])
  }

  lemma {:induction false} TrimStartBlanks(before: string, text: string)
    requires AllBlank(before) && text != "" && !IsBlank(text[0])
    ensures TrimStart(before + text) == text
  {
    hide IsBlank;
    if before == "" {
      assert before + text == text;
    } else {
      assert (before + text)[1..] == before[1..] + text;
      TrimStartBlanks(before[1..], text);
    }
  }

  lemma {:induction false} TrimEndBlanks(text: string, after: string)
    requires AllBlank(after) && text != "" && !IsBlank(text[|text| - 1])
    ensures TrimEnd(text + after) == text
  {
    hide IsBlank;
    if after == "" {
      assert text + after == text;
    } else {
      var n := |text + after| - 1;
      assert (text + after)[..n] == text + after[..|after| - 1];
      assert (text + after)[n] == after[|after| - 1];
      TrimEndBlanks(text, after[..|after| - 1]);
    }
  }

  /** Blanks around a text are trimmed off. */
  lemma TrimBlanks(before: string, text: string, after: string)
    requires AllBlank(before) && Tight(text) && AllBlank(after)
    ensures Trim(before + text + after) == text
  {
    hide IsBlank, TrimStart, TrimEnd, AllBlank;
    assert before + text + after == before + (text + after);
    TrimStartBlanks(before, text + after);
    TrimEndBlanks(text, after);
  }

  /** Space, tab, line feed, vertical tab, form feed and carriage return are trimmed off, and nothing else. */
  lemma WhitespaceIsTrimmed(before: string, text: string, after: string)
    requires forall i | 0 <= i < |before| :: before[i] == ' ' || 9 <= before[i] as int <= 13
    requires forall i | 0 <= i < |after| :: after[i] == ' ' || 9 <= after[i] as int <= 13
    requires text != "" && text[0] != ' ' && !(9 <= text[0] as int <= 13)
    requires text[|text| - 1] != ' ' && !(9 <= text[|text| - 1] as int <= 13)
    ensures Trim(before + text + after) == text
  {
    BlanksAre(before);
    BlanksAre(after);
    TrimBlanks(before, text, after);
  }

  lemma BlanksAre(text: string)
    requires forall i | 0 <= i < |text| :: text[i] == ' ' || 9 <= text[i] as int <= 13
    ensures AllBlank(text)
  {
    forall i | 0 <= i < |text|
      ensures IsBlank(text[i])
    {
      var c := text[i];
      assert c == ' ' || c == '\t' || c == '\r' || c == '\n' || c == 11 as char || c == 12 as char;
    }
  }

  /** The same letters, each in either case. */
  ghost predicate SameLetters(a: string, b: string) {
    |a| == |b| && forall i | 0 <= i < |a| :: SameLetter(a[i], b[i])
  }

  /** Capital and small letters are 32 apart. */
  predicate SameLetter(c: char, d: char) {
    || c == d
    || ('A' <= c <= 'Z' && d as int == c as int + 32)
    || ('A' <= d <= 'Z' && c as int == d as int + 32)
  }

  lemma SameLettersLower(a: string, b: string)
    ensures ToLower(a) == ToLower(b) <==> SameLetters(a, b)
  {
    forall i | 0 <= i < |a| && i < |b|
      ensures LowerChar(a[i]) == LowerChar(b[i]) <==> SameLetter(a[i], b[i])
    {
    }
    if ToLower(a) == ToLower(b) {
      assert |ToLower(a)| == |ToLower(b)|;
      assert forall i | 0 <= i < |a| :: ToLower(a)[i] == ToLower(b)[i];
    }
  }

  /** A name is read as the item that has the same letters, whatever their case, and as nothing if there is none. */
  lemma NameParsesInAnyCase(d: Definition, name: string)
    requires Named(d.items) && IsIdentifier(name)
    ensures forall i | 0 <= i < |d.items| && SameLetters(name, d.items[i].name) :: Parse(d, name) == Some(d.items[i].value)
    ensures (forall i | 0 <= i < |d.items| :: !SameLetters(name, d.items[i].name)) ==> Parse(d, name) == None
  {
    hide ToLower, IsBlank, SameLetters, Named, IsIdentifier;
    IdentifierText(name);
    TrimNothing(name);
    forall i | 0 <= i < |d.items| && SameLetters(name, d.items[i].name)
      ensures Parse(d, name) == Some(d.items[i].value)
    {
      SameLettersLower(name, d.items[i].name);
      ValueOfItem(d.items, d.items[i]);
    }
    if forall i | 0 <= i < |d.items| :: !SameLetters(name, d.items[i].name) {
      NoItemLike(d.items, name);
    }
  }

  lemma {:induction false} NoItemLike(items: seq<Item>, name: string)
    requires forall i | 0 <= i < |items| :: !SameLetters(name, items[i].name)
    ensures ValueOf(items, ToLower(name)) == None
  {
    hide ToLower, SameLetters;
    if items != [] {
      SameLettersLower(name, items[0].name);
      NoItemLike(items[1..], name);
    }
  }

  lemma {:induction false} ValueOfItem(items: seq<Item>, item: Item)
    requires Named(items) && item in items
    ensures ValueOf(items, ToLower(item.name)) == Some(item.value)
  {
    hide ToLower;
    if items[0] != item {
      var k :| 0 <= k < |items| && items[k] == item;
      assert ToLower(items[0].name) != ToLower(items[k].name);
      assert item in items[1..] by {
        assert items[1..][k - 1] == item;
      }
      ValueOfItem(items[1..], item);
    }
  }

  lemma IdentifierText(name: string)
    requires IsIdentifier(name)
    ensures '|' !in name && Tight(name) && !IsDigit(name[0])
  {
  }

  /** A name is read as the value of its item, also with blanks around it. */
  lemma NameParses(d: Definition, item: Item, before: string, after: string)
    requires Named(d.items) && item in d.items && AllBlank(before) && AllBlank(after)
    ensures Parse(d, before + item.name + after) == Some(item.value)
  {
    hide ToLower, IsBlank;
    var k :| 0 <= k < |d.items| && d.items[k] == item;
    assert IsIdentifier(d.items[k].name);
    IdentifierText(item.name);
    TrimBlanks(before, item.name, after);
    ValueOfItem(d.items, item);
  }

  // ---------------------------------------------------------------- flags

  function UnionOf(found: seq<Item>): Bits {
    if found == [] then 0 else Union(found[0].value, UnionOf(found[1..]))
  }

  /** The bits of the items of a single bit. */
  function SingleBits(items: seq<Item>): Bits {
    if items == [] then 0
    else Union(if HasSingleBit(items[0].value) then items[0].value else 0, SingleBits(items[1..]))
  }

  lemma PassItem(bits: Bits, remaining: Bits, others: Bits)
    requires !IsFlagOf(bits, remaining)
    ensures Clear(remaining, others) == Clear(remaining, Union(if HasSingleBit(bits) then bits else 0, others))
  {
    if HasSingleBit(bits) {
      ClearNothing(bits, remaining, others);
    } else {
      UnionWithZero(others);
    }
  }

  lemma ClearNothing(bits: Bits, remaining: Bits, others: Bits)
    requires remaining & bits == 0
    ensures Clear(remaining, others) == Clear(remaining, Union(bits, others))
  {
    hide Clear, Union;
    ClearIsNothing(bits, remaining);
    ClearBoth(bits, remaining, others);
  }

  lemma ClearIsNothing(bits: Bits, remaining: Bits)
    requires remaining & bits == 0
    ensures Clear(remaining, bits) == remaining
  {
  }

  lemma ClearBoth(bits: Bits, remaining: Bits, others: Bits)
    ensures Clear(Clear(remaining, bits), others) == Clear(remaining, Union(bits, others))
  {
  }

  lemma PutFlagBack(bits: Bits, remaining: Bits, found: Bits, left: Bits)
    requires IsFlagOf(bits, remaining) && Union(found, left) == Clear(remaining, bits)
    ensures Union(Union(bits, found), left) == remaining
  {
    SingleBitIsContained(bits, remaining);
    hide HasSingleBit, IsFlagOf, Union, Clear;
    UnionRegroups(bits, found, left);
    ClearedAndBack(bits, remaining);
  }

  lemma UnionRegroups(a: Bits, b: Bits, c: Bits)
    ensures Union(Union(a, b), c) == Union(a, Union(b, c))
  {
  }

  lemma ClearedAndBack(bits: Bits, remaining: Bits)
    requires remaining & bits == bits
    ensures Union(bits, Clear(remaining, bits)) == remaining
  {
  }

  /** A flag that shares a bit with a value is part of it. */
  lemma SingleBitIsContained(bits: Bits, remaining: Bits)
    requires IsFlagOf(bits, remaining)
    ensures remaining & bits == bits
  {
  }

  /** The flags found and the bits left over make up the value; what is left over is what no flag has. */
  lemma {:induction false} FlagsMakeUpTheValue(items: seq<Item>, remaining: Bits)
    ensures Union(UnionOf(FlagsIn(items, remaining)), Unnamed(items, remaining)) == remaining
    ensures Unnamed(items, remaining) == Clear(remaining, SingleBits(items))
  {
    hide Union, Clear, IsFlagOf, HasSingleBit;
    if items == [] {
      NoFlags(remaining);
    } else {
      var bits, rest := items[0].value, items[1..];
      if IsFlagOf(bits, remaining) {
        var left := Clear(remaining, bits);
        FlagsMakeUpTheValue(rest, left);
        PutFlagBack(bits, remaining, UnionOf(FlagsIn(rest, left)), Unnamed(rest, left));
        ClearBoth(bits, remaining, SingleBits(rest));
        FlagIsSingle(bits, remaining);
        assert ([items[0]] + FlagsIn(rest, left))[1..] == FlagsIn(rest, left);
      } else {
        FlagsMakeUpTheValue(rest, remaining);
        PassItem(bits, remaining, SingleBits(rest));
      }
    }
  }

  lemma FlagIsSingle(bits: Bits, remaining: Bits)
    requires IsFlagOf(bits, remaining)
    ensures HasSingleBit(bits)
  {
  }

  lemma NoFlags(remaining: Bits)
    ensures Union(0, remaining) == remaining && Clear(remaining, 0) == remaining
  {
  }

  // ---------------------------------------------------------------- joined names

  /** Each part of joined names ends at the bar after its name. */
  lemma JoinSplits(before: string, found: seq<Item>)
    requires |found| > 1 && '|' !in before && '|' !in found[0].name
    ensures Split(before + Join(found), '|') ==
            [before + found[0].name + " "] + Split(" " + Join(found[1..]), '|')
  {
    hide Join;
    var part, rest := before + found[0].name + " ", " " + Join(found[1..]);
    var text := before + Join(found);
    assert text == part + "|" + rest by {
      JoinTwo(found);
    }
    assert text[..|part|] == part && text[|part| + 1..] == rest;
    PartEnds(text, |part|, '|');
  }

  lemma JoinTwo(found: seq<Item>)
    requires |found| > 1
    ensures Join(found) == found[0].name + " " + "|" + (" " + Join(found[1..]))
  {
    var name, rest := found[0].name, Join(found[1..]);
    hide Join;
    assert SEPARATOR == " " + "|" + " ";
    Regroup(" " + "|", " ", rest);
    Regroup(name, " " + "|", " " + rest);
    Regroup(name, " ", "|");
  }

  lemma JoinOne(found: seq<Item>)
    requires |found| == 1
    ensures Join(found) == found[0].name
  {
  }

  lemma UnionOfOne(found: seq<Item>)
    requires |found| == 1
    ensures UnionOf(found) == found[0].value
  {
    assert found[1..] == [];
  }

  lemma OnePart(d: Definition, part: string, limit: nat)
    requires |part| < limit
    ensures ParseParts(d, [part], limit) == Parse(d, part)
  {
    assert [part][1..] == [];
    if Parse(d, part).Some? {
      UnionWithZero(Parse(d, part).value);
    }
  }

  lemma MoreParts(d: Definition, part: string, rest: seq<string>, limit: nat)
    requires |part| < limit && forall i | 0 <= i < |rest| :: |rest[i]| < limit
    ensures ParseParts(d, [part] + rest, limit) ==
            if Parse(d, part).Some? then Joined(Parse(d, part).value, ParseParts(d, rest, limit)) else None
  {
    assert ([part] + rest)[1..] == rest;
  }

  lemma NameOfItem(items: seq<Item>, item: Item)
    requires Named(items) && item in items
    ensures IsIdentifier(item.name)
  {
    var k :| 0 <= k < |items| && items[k] == item;
    assert IsIdentifier(items[k].name);
  }

  /** The parts of joined names are read as the union of their values. */
  lemma {:induction false} JoinedPartsParse(d: Definition, found: seq<Item>, before: string, limit: nat)
    requires Named(d.items) && found != [] && AllBlank(before) && '|' !in before
    requires forall i | 0 <= i < |found| :: found[i] in d.items
    requires forall i | 0 <= i < |Split(before + Join(found), '|')| :: |Split(before + Join(found), '|')[i]| < limit
    ensures ParseParts(d, Split(before + Join(found), '|'), limit) == Some(UnionOf(found))
    decreases |found|
  {
    hide Named, Split, Join, Parse, ParseParts, Union;
    var name := found[0].name;
    NameOfItem(d.items, found[0]);
    IdentifierText(name);
    if |found| == 1 {
      JoinOne(found);
      LastPart(before + name, '|');
      assert before + name + "" == before + name;
      NameParses(d, found[0], before, "");
      assert Split(before + Join(found), '|')[0] == before + name;
      OnePart(d, before + name, limit);
      UnionOfOne(found);
    } else {
      JoinSplits(before, found);
      var part, rest := before + name + " ", Split(" " + Join(found[1..]), '|');
      var parts := [part] + rest;
      assert |parts[0]| < limit;
      assert forall i | 0 <= i < |rest| :: rest[i] == parts[i + 1];
      NameParses(d, found[0], before, " ");
      JoinedPartsParse(d, found[1..], " ", limit);
      MoreParts(d, part, rest, limit);
    }
  }

  lemma TrimNothing(text: string)
    requires Tight(text)
    ensures Trim(text) == text
  {
  }

  lemma {:induction false} JoinEnds(items: seq<Item>, found: seq<Item>)
    requires Named(items) && found != [] && forall i | 0 <= i < |found| :: found[i] in items
    ensures Tight(Join(found))
    ensures |found| > 1 ==> '|' in Join(found)
  {
    hide Named, IsBlank;
    NameOfItem(items, found[0]);
    IdentifierText(found[0].name);
    if |found| > 1 {
      JoinEnds(items, found[1..]);
      JoinTwo(found);
      assert Join(found)[|found[0].name| + 1] == '|';
    }
  }

  /** Joined names of flags are read as the union of their values. */
  lemma JoinParses(d: Definition, found: seq<Item>)
    requires Named(d.items) && d.isFlags && found != []
    requires forall i | 0 <= i < |found| :: found[i] in d.items
    ensures Parse(d, Join(found)) == Some(UnionOf(found))
  {
    hide Named, Split, Join, ParseParts, Union, Trim, IsBlank;
    var text := Join(found);
    if |found| == 1 {
      JoinOne(found);
      assert "" + found[0].name + "" == found[0].name;
      NameParses(d, found[0], "", "");
      UnionOfOne(found);
    } else {
      JoinEnds(d.items, found);
      TrimNothing(text);
      PartsAreShorter(text, '|');
      assert "" + text == text;
      JoinedPartsParse(d, found, "", |text|);
    }
  }

  // ---------------------------------------------------------------- numbers

  lemma DigitsParse(d: Definition, n: nat)
    ensures Parse(d, DigitsOfNat(n)) == if n < INT_LIMIT then Some(n as Bits) else None
  {
    hide Split, ParseParts, DigitsOfNat, NatOfDigits;
    var text := DigitsOfNat(n);
    DigitsAreTight(text);
    TrimNothing(text);
  }

  lemma DigitsAreTight(text: string)
    requires text != "" && AllDigits(text)
    ensures Tight(text) && IsDigit(text[0]) && '|' !in text
  {
    assert forall i | 0 <= i < |text| :: IsDigit(text[i]);
  }

  lemma {:induction false} NoNameLike(items: seq<Item>, key: string)
    requires Named(items) && key != "" && key[0] == '-'
    ensures ValueOf(items, key) == None
  {
    if items != [] {
      assert IsIdentifier(items[0].name);
      assert IsIdentifierChar(items[0].name[0]);
      assert ToLower(items[0].name)[0] != '-';
      NoNameLike(items[1..], key);
    }
  }

  lemma NegativeFails(d: Definition, n: nat)
    requires Named(d.items)
    ensures Parse(d, "-" + DigitsOfNat(n)) == None
  {
    hide Split, ParseParts, DigitsOfNat, NatOfDigits, Named;
    var digits := DigitsOfNat(n);
    var text := "-" + digits;
    DigitsAreTight(digits);
    assert text[|text| - 1] == digits[|digits| - 1];
    TrimNothing(text);
    assert '|' !in text;
    NoNameLike(d.items, ToLower(text));
  }

  lemma NumberParses(d: Definition, value: Bits)
    requires Named(d.items)
    ensures Parse(d, NumberText(Signed(value))) == Some(value) <==> Signed(value) >= 0
  {
    hide Parse, Named, DigitsOfNat;
    if Signed(value) >= 0 {
      DigitsParse(d, value as nat);
      assert (value as nat) as Bits == value;
    } else {
      NegativeFails(d, 0 - Signed(value));
    }
  }

  // ---------------------------------------------------------------- round trip

  /** Written text gives the value back exactly when it is not a negative number. */
  lemma TextParses(d: Definition, value: Bits)
    requires Named(d.items)
    ensures Parse(d, Text(d, value)) == Some(value) <==>
            || NameOf(d.items, value).Some?
            || (d.isFlags && Clear(value, SingleBits(d.items)) == 0)
            || Signed(value) >= 0
  {
    hide Parse, Named, Join, NumberText, Clear, SingleBits, Union, Signed;
    var item, found := NameOf(d.items, value), FlagsIn(d.items, value);
    FlagsMakeUpTheValue(d.items, value);
    UnionWithZero(UnionOf(found));
    if item.Some? {
      assert "" + item.value.name + "" == item.value.name;
      NameParses(d, item.value, "", "");
    } else if d.isFlags && found != [] && Unnamed(d.items, value) == 0 {
      JoinParses(d, found);
    } else {
      NumberParses(d, value);
      ZeroIsNotNegative(value);
    }
  }

  lemma ZeroIsNotNegative(value: Bits)
    ensures value == 0 ==> Signed(value) >= 0
  {
  }

  /** A value that is not read back: -1, where nothing is declared. */
  lemma MinusOneIsNotRead()
    ensures Parse(Definition([], false), Text(Definition([], false), 0xFFFF_FFFF)) != Some(0xFFFF_FFFF)
  {
    hide Parse, Text;
    TextParses(Definition([], false), 0xFFFF_FFFF);
  }
}

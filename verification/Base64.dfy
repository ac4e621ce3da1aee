/** Base64 text (section 4 of RFC 4648), as it is written and as it is read back. */
module Base64 {
  import opened Wrappers
  import opened Sequences
  import opened Bytes

  const WORD32: nat := 0x1_0000_0000
  const PADDING: char := '='

  /** The alphabet: A-Z, a-z, 0-9, + and /. */
  function Digit(value: nat): char
    requires value < 64
  {
    if value < 26 then 'A' + value as char
    else if value < 52 then 'a' + (value - 26) as char
    else if value < 62 then '0' + (value - 52) as char
    else if value == 62 then '+'
    else '/'
  }

  /** The lookup table built from the alphabet. */
  function Lookup(c: char): (value: Option<nat>)
    ensures value.Some? ==> value.value < 64 && Digit(value.value) == c
  {
    if 'A' <= c <= 'Z' then Some((c - 'A') as nat)
    else if 'a' <= c <= 'z' then Some((c - 'a') as nat + 26)
    else if '0' <= c <= '9' then Some((c - '0') as nat + 52)
    else if c == '+' then Some(62)
    else if c == '/' then Some(63)
    else None
  }

  lemma LookupDigit(value: nat)
    requires value < 64
    ensures Lookup(Digit(value)) == Some(value) && Digit(value) != PADDING
  {
  }

  // ---------------------------------------------------------------- encoding

  /** The four digits of 24 bits. */
  function GroupDigits(group: nat): (digits: string)
    ensures |digits| == 4
  {
    [Digit(group / 0x40000 % 64), Digit(group / 0x1000 % 64), Digit(group / 0x40 % 64), Digit(group % 64)]
  }

  function Group(a: Byte, b: Byte, c: Byte): nat {
    a * 0x10000 + b * 0x100 + c
  }

  /** The digits of some data, without padding. */
  function Digits(data: seq<Byte>): string {
    if data == [] then ""
    else if |data| == 1 then GroupDigits(Group(data[0], 0, 0))[..2]
    else if |data| == 2 then GroupDigits(Group(data[0], data[1], 0))[..3]
    else GroupDigits(Group(data[0], data[1], data[2])) + Digits(data[3..])
  }

  function Padding(count: nat): string {
    seq(count, _ => PADDING)
  }

  /** Padded to a multiple of four. */
  function Encode(data: seq<Byte>): string {
    Digits(data) + Padding((3 - |data| % 3) % 3)
  }

  lemma DigitsStep(data: seq<Byte>, i: nat)
    requires i + 3 <= |data|
    ensures Digits(data[i..]) == GroupDigits(Group(data[i], data[i + 1], data[i + 2])) + Digits(data[i + 3..])
  {
    assert data[i..][3..] == data[i + 3..];
  }

  /** The digits and the padding of what is left after the whole groups. */
  function LastDigits(data: seq<Byte>): string
    requires |data| < 3
  {
    if |data| == 1 then GroupDigits(Group(data[0], 0, 0))[..2] + "=="
    else if |data| == 2 then GroupDigits(Group(data[0], data[1], 0))[..3] + "="
    else ""
  }

  lemma LastDigitsEncode(data: seq<Byte>)
    requires |data| < 3
    ensures LastDigits(data) == Digits(data) + Padding((3 - |data| % 3) % 3)
  {
    hide GroupDigits, Group, Padding;
    PaddingIs();
    if data == [] {
      assert (3 - |data| % 3) % 3 == 0;
    } else if |data| == 1 {
      assert (3 - |data| % 3) % 3 == 2;
    } else {
      assert (3 - |data| % 3) % 3 == 1;
    }
  }

  lemma PaddingIs()
    ensures Padding(0) == "" && Padding(1) == "=" && Padding(2) == "=="
  {
  }

  method EncodeBase64(data: seq<Byte>) returns (result: string)
    ensures result == Encode(data)
  {
    hide GroupDigits, Digits;
    result := "";
    var i := 0;
    assert data[0..] == data;
    while i + 3 <= |data|
      invariant i <= |data| && i % 3 == 0
      invariant result + Digits(data[i..]) == Digits(data)
    {
      DigitsStep(data, i);
      result := result + GroupDigits(Group(data[i], data[i + 1], data[i + 2]));
      i := i + 3;
    }
    ghost var rest := data[i..];
    LastDigitsEncode(rest);
    assert |rest| % 3 == |data| % 3;
    var remaining := |data| - i;
    ghost var before := result;
    if remaining == 1 {
      result := result + (GroupDigits(Group(data[i], 0, 0))[..2] + "==");
    } else if remaining == 2 {
      result := result + (GroupDigits(Group(data[i], data[i + 1], 0))[..3] + "=");
    }
    assert result == before + LastDigits(rest);
    assert before + (Digits(rest) + Padding((3 - |data| % 3) % 3)) == Digits(data) + Padding((3 - |data| % 3) % 3);
  }

  // ---------------------------------------------------------------- decoding

  /** How many values a few bits can have. */
  function Values(bits: nat): nat {
    if bits == 0 then 1 else if bits == 2 then 4 else if bits == 4 then 16 else 64
  }

  predicate IsBitCount(bits: nat) {
    bits == 0 || bits == 2 || bits == 4 || bits == 6
  }

  lemma BitsFit(left: nat, digit: nat, bits: nat)
    requires IsBitCount(bits) && bits > 0 && left < Values(bits) && digit < 64
    ensures (left * 64 + digit) / Values(bits - 2) < 256 && (left * 64 + digit) % Values(bits - 2) < Values(bits - 2)
  {
  }

  /** Reading digits with some bits left over from the ones before; the bits that complete a byte come
      first, and whatever is left at the end must be zero. */
  function DecodeFrom(text: string, left: nat, bits: nat, padded: bool): Option<seq<Byte>>
    requires IsBitCount(bits) && left < Values(bits)
  {
    if text == "" then if left == 0 then Some([]) else None
    else if text[0] == PADDING then DecodeFrom(text[1..], left, bits, true)
    else if padded then None
    else
      var digit :- Lookup(text[0]);
      if bits == 0 then DecodeFrom(text[1..], digit, 6, false)
      else
        var values := Values(bits - 2);
        BitsFit(left, digit, bits);
        var tail :- DecodeFrom(text[1..], (left * 64 + digit) % values, bits - 2, false);
        Some([(left * 64 + digit) / values] + tail)
  }

  function Decode(text: string): Option<seq<Byte>> {
    DecodeFrom(text, 0, 0, false)
  }

  lemma LowByte(y: nat, v: nat, u: int, z: nat)
    requires v == 1 || v == 4 || v == 16
    requires y == 0x100 * v * u + z && z < 0x100 * v
    ensures y / v % 0x100 == z / v && y % v == z % v
  {
    assert y == v * (0x100 * u) + z;
    assert y / v == 0x100 * u + z / v;
  }

  lemma ShiftBy6(group: nat, v: nat, digit: nat) returns (u: int)
    requires group < WORD32 && digit < 64 && (v == 1 || v == 4 || v == 16)
    ensures (group * 64 + digit) % WORD32 == 0x100 * v * u + (group % (4 * v) * 64 + digit)
  {
    var t := (group * 64 + digit) / WORD32;
    if v == 1 {
      u := group / 4 - 0x1000000 * t;
    } else if v == 4 {
      u := group / 16 - 0x400000 * t;
    } else {
      u := group / 64 - 0x100000 * t;
    }
  }

  /** The shift of the 32-bit group, which loses its high bits, does not touch the bits that are left. */
  lemma GroupKeepsBits(group: nat, bits: nat, digit: nat)
    requires group < WORD32 && IsBitCount(bits) && bits > 0 && digit < 64
    ensures var shifted, v, z := (group * 64 + digit) % WORD32, Values(bits - 2), group % Values(bits) * 64 + digit;
      shifted / v % 0x100 == z / v && shifted % v == z % v
  {
    var v := Values(bits - 2);
    var u := ShiftBy6(group, v, digit);
    LowByte((group * 64 + digit) % WORD32, v, u, group % (4 * v) * 64 + digit);
  }

  lemma FirstDigitKept(group: nat, digit: nat)
    requires group < WORD32 && digit < 64
    ensures (group * 64 + digit) % WORD32 % 64 == digit
  {
    var t := (group * 64 + digit) / WORD32;
    assert (group * 64 + digit) % WORD32 == 64 * (group - 0x4000000 * t) + digit;
  }

  /** What decoding does at a position. */
  lemma DecodeAt(text: string, i: nat, left: nat, bits: nat, padded: bool)
    requires i < |text| && IsBitCount(bits) && left < Values(bits)
    ensures var all, digit := DecodeFrom(text[i..], left, bits, padded), Lookup(text[i]);
      if text[i] == PADDING then all == DecodeFrom(text[i + 1..], left, bits, true)
      else if padded || digit.None? then all == None
      else if bits == 0 then all == DecodeFrom(text[i + 1..], digit.value, 6, false)
      else
        var v, z := Values(bits - 2), left * 64 + digit.value;
        all == Prepend<Byte>([z / v], DecodeFrom(text[i + 1..], z % v, bits - 2, false))
  {
    hide Lookup;
    assert text[i..][0] == text[i] && text[i..][1..] == text[i + 1..];
  }

  lemma NothingLeft(result: seq<Byte>, left: nat, bits: nat, padded: bool)
    requires IsBitCount(bits) && left < Values(bits)
    ensures Prepend<Byte>(result, DecodeFrom("", left, bits, padded)) == if left == 0 then Some(result) else None
  {
    assert result + [] == result;
  }

  method TryDecodeBase64(text: string) returns (data: Option<seq<Byte>>)
    ensures data == Decode(text)
  {
    hide Lookup, Digit, Prepend, DecodeFrom;
    var result: seq<Byte> := [];
    var group: nat, bits: nat, padding := 0, 0, false;
    ghost var goal := Decode(text);
    assert text[0..] == text;
    PrependNothing<Byte>(goal);
    for i := 0 to |text|
      invariant group < WORD32 && IsBitCount(bits)
      invariant Prepend<Byte>(result, DecodeFrom(text[i..], group % Values(bits), bits, padding)) == goal
    {
      DecodeAt(text, i, group % Values(bits), bits, padding);
      PrependNone<Byte>(result);
      if text[i] == PADDING {
        padding := true;
        continue;
      }
      if padding {
        return None;
      }
      var digit := Lookup(text[i]);
      if digit.None? {
        return None;
      }
      if bits == 0 {
        FirstDigitKept(group, digit.value);
      } else {
        GroupKeepsBits(group, bits, digit.value);
      }
      group := (group * 64 + digit.value) % WORD32;
      bits := bits + 6;
      if bits >= 8 {
        bits := bits - 8;
        PrependTwice<Byte>(result, [group / Values(bits) % 0x100],
                     DecodeFrom(text[i + 1..], group % Values(bits), bits, false));
        result := result + [group / Values(bits) % 0x100];
      }
    }
    assert text[|text|..] == "";
    NothingLeft(result, group % Values(bits), bits, padding);
    if bits > 0 && group % Values(bits) != 0 {
      return None;
    }
    data := Some(result);
  }

  // ---------------------------------------------------------------- both directions

  lemma OneDigit(digit: nat, rest: string, left: nat, bits: nat)
    requires digit < 64 && IsBitCount(bits) && left < Values(bits)
    ensures bits == 0 ==> DecodeFrom([Digit(digit)] + rest, left, bits, false) == DecodeFrom(rest, digit, 6, false)
    ensures bits > 0 ==>
      var v, z := Values(bits - 2), left * 64 + digit;
      DecodeFrom([Digit(digit)] + rest, left, bits, false) == Prepend<Byte>([z / v], DecodeFrom(rest, z % v, bits - 2, false))
  {
    var text := [Digit(digit)] + rest;
    LookupDigit(digit);
    assert text[0] == Digit(digit) && text[1..] == rest;
  }

  lemma TwoDigits(d0: nat, d1: nat, rest: string)
    requires d0 < 64 && d1 < 64
    ensures DecodeFrom([Digit(d0), Digit(d1)] + rest, 0, 0, false) ==
            Prepend<Byte>([d0 * 4 + d1 / 16], DecodeFrom(rest, d1 % 16, 4, false))
  {
    hide Digit, Lookup, DecodeFrom;
    assert [Digit(d0), Digit(d1)] + rest == [Digit(d0)] + ([Digit(d1)] + rest);
    var z := d0 * 64 + d1;
    assert z / 16 == d0 * 4 + d1 / 16 && z % 16 == d1 % 16;
    OneDigit(d0, [Digit(d1)] + rest, 0, 0);
    OneDigit(d1, rest, d0, 6);
  }

  lemma ThreeDigits(d0: nat, d1: nat, d2: nat, rest: string)
    requires d0 < 64 && d1 < 64 && d2 < 64
    ensures DecodeFrom([Digit(d0), Digit(d1), Digit(d2)] + rest, 0, 0, false) ==
            Prepend<Byte>([d0 * 4 + d1 / 16, d1 % 16 * 16 + d2 / 4], DecodeFrom(rest, d2 % 4, 2, false))
  {
    hide Digit, Lookup, DecodeFrom;
    assert [Digit(d0), Digit(d1), Digit(d2)] + rest == [Digit(d0), Digit(d1)] + ([Digit(d2)] + rest);
    var z := d1 % 16 * 64 + d2;
    assert z / 4 == d1 % 16 * 16 + d2 / 4 && z % 4 == d2 % 4;
    TwoDigits(d0, d1, [Digit(d2)] + rest);
    OneDigit(d2, rest, d1 % 16, 4);
    var first, second := d0 * 4 + d1 / 16, d1 % 16 * 16 + d2 / 4;
    PrependTwice<Byte>([first], [second], DecodeFrom(rest, d2 % 4, 2, false));
    assert [first] + [second] == [first, second];
  }

  lemma FourDigits(d0: nat, d1: nat, d2: nat, d3: nat, rest: string)
    requires d0 < 64 && d1 < 64 && d2 < 64 && d3 < 64
    ensures DecodeFrom([Digit(d0), Digit(d1), Digit(d2), Digit(d3)] + rest, 0, 0, false) ==
            Prepend<Byte>([d0 * 4 + d1 / 16, d1 % 16 * 16 + d2 / 4, d2 % 4 * 64 + d3], Decode(rest))
  {
    hide Digit, Lookup, DecodeFrom;
    assert [Digit(d0), Digit(d1), Digit(d2), Digit(d3)] + rest ==
           [Digit(d0), Digit(d1), Digit(d2)] + ([Digit(d3)] + rest);
    ThreeDigits(d0, d1, d2, [Digit(d3)] + rest);
    OneDigit(d3, rest, d2 % 4, 2);
    var first, second, third := d0 * 4 + d1 / 16, d1 % 16 * 16 + d2 / 4, d2 % 4 * 64 + d3;
    PrependTwice<Byte>([first, second], [third], Decode(rest));
    assert [first, second] + [third] == [first, second, third];
  }

  /** The digits of a group are the bits of its bytes, six at a time. */
  lemma GroupIs(a: Byte, b: Byte, c: Byte)
    ensures GroupDigits(Group(a, b, c)) ==
            [Digit(a / 4), Digit(a % 4 * 16 + b / 16), Digit(b % 16 * 4 + c / 64), Digit(c % 64)]
  {
    hide Digit;
    GroupBits(a, b, c);
  }

  lemma GroupBits(a: Byte, b: Byte, c: Byte)
    ensures Group(a, b, c) / 0x40000 % 64 == a / 4
    ensures Group(a, b, c) / 0x1000 % 64 == a % 4 * 16 + b / 16
    ensures Group(a, b, c) / 0x40 % 64 == b % 16 * 4 + c / 64
    ensures Group(a, b, c) % 64 == c % 64
  {
    var group := Group(a, b, c);
    Sextet(group, 0x40000, 0, a / 4, a % 4 * 0x10000 + b * 0x100 + c);
    Sextet(group, 0x1000, a / 4, a % 4 * 16 + b / 16, b % 16 * 0x100 + c);
    Sextet(group, 0x40, a * 16 + b / 16, b % 16 * 4 + c / 64, c % 64);
    Sextet(group, 1, a * 0x400 + b * 4 + c / 64, c % 64, 0);
  }

  lemma Sextet(group: nat, unit: nat, high: nat, digit: nat, low: nat)
    requires unit == 0x40000 || unit == 0x1000 || unit == 0x40 || unit == 1
    requires group == unit * (64 * high + digit) + low && digit < 64 && low < unit
    ensures group / unit % 64 == digit
  {
  }

  /** The bits still open after some data: none after whole groups, and zeros otherwise. */
  function OpenBits(count: nat): (bits: nat)
    ensures IsBitCount(bits)
  {
    if count % 3 == 0 then 0 else if count % 3 == 1 then 4 else 2
  }

  lemma GroupDecodes(a: Byte, b: Byte, c: Byte, rest: string)
    ensures DecodeFrom(GroupDigits(Group(a, b, c)) + rest, 0, 0, false) == Prepend<Byte>([a, b, c], Decode(rest))
  {
    hide Digit, Lookup, DecodeFrom;
    GroupIs(a, b, c);
    var d0, d1, d2, d3 := a / 4, a % 4 * 16 + b / 16, b % 16 * 4 + c / 64, c % 64;
    FourDigits(d0, d1, d2, d3, rest);
    assert d0 * 4 + d1 / 16 == a && d1 % 16 * 16 + d2 / 4 == b && d2 % 4 * 64 + d3 == c;
  }

  lemma OneByteDecodes(a: Byte, rest: string)
    ensures DecodeFrom(Digits([a]) + rest, 0, 0, false) == Prepend<Byte>([a], DecodeFrom(rest, 0, 4, false))
  {
    hide Digit, Lookup, DecodeFrom, GroupDigits;
    GroupIs(a, 0, 0);
    assert Digits([a]) == [Digit(a / 4), Digit(a % 4 * 16)];
    TwoDigits(a / 4, a % 4 * 16, rest);
    assert a % 4 * 16 / 16 == a % 4 && a % 4 * 16 % 16 == 0;
  }

  lemma BitsOfTwo(a: Byte, b: Byte)
    ensures var d0, d1, d2 := a / 4, a % 4 * 16 + b / 16, b % 16 * 4;
      d1 < 64 && d2 < 64 && d0 * 4 + d1 / 16 == a && d1 % 16 * 16 + d2 / 4 == b && d2 % 4 == 0
  {
  }

  lemma TwoBytesDecode(a: Byte, b: Byte, rest: string)
    ensures DecodeFrom(Digits([a, b]) + rest, 0, 0, false) == Prepend<Byte>([a, b], DecodeFrom(rest, 0, 2, false))
  {
    hide Digit, Lookup, DecodeFrom, GroupDigits;
    GroupIs(a, b, 0);
    BitsOfTwo(a, b);
    assert Digits([a, b]) == [Digit(a / 4), Digit(a % 4 * 16 + b / 16), Digit(b % 16 * 4)];
    ThreeDigits(a / 4, a % 4 * 16 + b / 16, b % 16 * 4, rest);
  }

  lemma ShortDecodes(data: seq<Byte>, rest: string)
    requires |data| == 1 || |data| == 2
    ensures DecodeFrom(Digits(data) + rest, 0, 0, false) ==
            Prepend<Byte>(data, DecodeFrom(rest, 0, OpenBits(|data|), false))
  {
    hide Digit, Lookup, DecodeFrom, GroupDigits;
    if |data| == 1 {
      assert data == [data[0]];
      OneByteDecodes(data[0], rest);
    } else {
      assert data == [data[0], data[1]];
      TwoBytesDecode(data[0], data[1], rest);
    }
  }

  lemma NoDigits()
    ensures Digits([]) == "" && OpenBits(0) == 0
  {
  }

  lemma LongerDigits(data: seq<Byte>)
    requires |data| >= 3
    ensures Digits(data) == GroupDigits(Group(data[0], data[1], data[2])) + Digits(data[3..])
    ensures OpenBits(|data|) == OpenBits(|data| - 3)
  {
    hide GroupDigits, Group;
    SameRemainder(|data| - 3);
  }

  lemma {:induction false} DigitsDecode(data: seq<Byte>, rest: string)
    ensures DecodeFrom(Digits(data) + rest, 0, 0, false) ==
            Prepend<Byte>(data, DecodeFrom(rest, 0, OpenBits(|data|), false))
    decreases |data|
  {
    hide Digit, Lookup, DecodeFrom, GroupDigits, Digits, Group, OpenBits;
    NoDigits();
    if data == [] {
      assert "" + rest == rest;
      PrependNothing<Byte>(Decode(rest));
    } else if |data| <= 2 {
      ShortDecodes(data, rest);
    } else {
      var a, b, c := data[0], data[1], data[2];
      LongerDigits(data);
      Regroup(GroupDigits(Group(a, b, c)), Digits(data[3..]), rest);
      GroupDecodes(a, b, c, Digits(data[3..]) + rest);
      DigitsDecode(data[3..], rest);
      PrependTwice<Byte>([a, b, c], data[3..], DecodeFrom(rest, 0, OpenBits(|data|), false));
      assert [a, b, c] + data[3..] == data;
    }
  }

  lemma {:induction false} PaddingDecodes(count: nat, bits: nat, padded: bool)
    requires IsBitCount(bits)
    ensures DecodeFrom(Padding(count), 0, bits, padded) == Some([])
  {
    if count > 0 {
      assert Padding(count)[1..] == Padding(count - 1);
      PaddingDecodes(count - 1, bits, true);
    }
  }

  /** Decoding undoes encoding. */
  lemma DecodeEncoded(data: seq<Byte>)
    ensures Decode(Encode(data)) == Some(data)
  {
    DigitsDecode(data, Padding((3 - |data| % 3) % 3));
    PaddingDecodes((3 - |data| % 3) % 3, OpenBits(|data|), false);
    assert data + [] == data;
  }

  /** The texts that stand for some data: its digits with any padding, or, after whole groups, with one
      more digit of zeros in between. */
  ghost predicate IsTextOf(text: string, data: seq<Byte>) {
    exists count: nat :: HasForm(text, data, count)
  }

  ghost predicate HasForm(text: string, data: seq<Byte>, count: nat) {
    text == Digits(data) + Padding(count) || (|data| % 3 == 0 && text == Digits(data) + ("A" + Padding(count)))
  }

  lemma TextDecodes(text: string, data: seq<Byte>)
    requires IsTextOf(text, data)
    ensures Decode(text) == Some(data)
  {
    var count: nat :| HasForm(text, data, count);
    PaddingDecodes(count, OpenBits(|data|), false);
    assert data + [] == data;
    if text == Digits(data) + Padding(count) {
      DigitsDecode(data, Padding(count));
    } else {
      DigitsDecode(data, "A" + Padding(count));
      OneDigit(0, Padding(count), 0, 0);
      PaddingDecodes(count, 6, false);
    }
  }

  lemma {:induction false} OnlyPadding(text: string, left: nat, bits: nat)
    requires IsBitCount(bits) && left < Values(bits)
    requires DecodeFrom(text, left, bits, true).Some?
    ensures text == Padding(|text|) && left == 0 && DecodeFrom(text, left, bits, true) == Some([])
  {
    if text != "" {
      OnlyPadding(text[1..], left, bits);
      assert text == [PADDING] + text[1..];
    }
  }

  /** A text starts with padding, or ends, or goes on with a digit. */
  predicate Ends(text: string) {
    text == "" || text[0] == PADDING
  }

  lemma EndDecodes(text: string, left: nat, bits: nat)
    requires IsBitCount(bits) && left < Values(bits) && Ends(text)
    requires DecodeFrom(text, left, bits, false).Some?
    ensures text == Padding(|text|) && left == 0 && DecodeFrom(text, left, bits, false) == Some([])
  {
    if text != "" {
      OnlyPadding(text[1..], left, bits);
      assert text == [PADDING] + text[1..];
    }
  }

  lemma NextDigit(text: string, left: nat, bits: nat) returns (digit: nat, rest: string)
    requires IsBitCount(bits) && left < Values(bits) && !Ends(text)
    requires DecodeFrom(text, left, bits, false).Some?
    ensures digit < 64 && text == [Digit(digit)] + rest && rest == text[1..]
  {
    digit, rest := Lookup(text[0]).value, text[1..];
  }

  lemma OneDigitText(d0: nat, rest: string)
    requires d0 < 64 && Ends(rest) && Decode([Digit(d0)] + rest).Some?
    ensures IsTextOf([Digit(d0)] + rest, Decode([Digit(d0)] + rest).value)
  {
    hide Lookup;
    OneDigit(d0, rest, 0, 0);
    EndDecodes(rest, d0, 6);
    assert HasForm([Digit(d0)] + rest, [], |rest|);
  }

  lemma TwoDigitText(d0: nat, d1: nat, rest: string)
    requires d0 < 64 && d1 < 64 && Ends(rest) && Decode([Digit(d0), Digit(d1)] + rest).Some?
    ensures IsTextOf([Digit(d0), Digit(d1)] + rest, Decode([Digit(d0), Digit(d1)] + rest).value)
  {
    hide Digit, Lookup, DecodeFrom, GroupDigits;
    TwoDigits(d0, d1, rest);
    EndDecodes(rest, d1 % 16, 4);
    var a: Byte := d0 * 4 + d1 / 16;
    assert [a] + [] == [a];
    GroupIs(a, 0, 0);
    assert a / 4 == d0 && a % 4 * 16 == d1;
    assert Digits([a]) == [Digit(d0), Digit(d1)];
    assert HasForm([Digit(d0), Digit(d1)] + rest, [a], |rest|);
  }

  lemma ThreeDigitText(d0: nat, d1: nat, d2: nat, rest: string)
    requires d0 < 64 && d1 < 64 && d2 < 64 && Ends(rest)
    requires Decode([Digit(d0), Digit(d1), Digit(d2)] + rest).Some?
    ensures IsTextOf([Digit(d0), Digit(d1), Digit(d2)] + rest, Decode([Digit(d0), Digit(d1), Digit(d2)] + rest).value)
  {
    hide Digit, Lookup, DecodeFrom, GroupDigits;
    ThreeDigits(d0, d1, d2, rest);
    EndDecodes(rest, d2 % 4, 2);
    var a: Byte, b: Byte := d0 * 4 + d1 / 16, d1 % 16 * 16 + d2 / 4;
    assert [a, b] + [] == [a, b];
    GroupIs(a, b, 0);
    assert a / 4 == d0 && a % 4 * 16 + b / 16 == d1 && b % 16 * 4 == d2;
    assert Digits([a, b]) == [Digit(d0), Digit(d1), Digit(d2)];
    assert HasForm([Digit(d0), Digit(d1), Digit(d2)] + rest, [a, b], |rest|);
  }

  lemma GroupOfDigits(d0: nat, d1: nat, d2: nat, d3: nat, a: Byte, b: Byte, c: Byte)
    requires d0 < 64 && d1 < 64 && d2 < 64 && d3 < 64
    requires a == d0 * 4 + d1 / 16 && b == d1 % 16 * 16 + d2 / 4 && c == d2 % 4 * 64 + d3
    ensures GroupDigits(Group(a, b, c)) == [Digit(d0), Digit(d1), Digit(d2), Digit(d3)]
  {
    hide Digit, GroupDigits, Group;
    GroupIs(a, b, c);
    assert a / 4 == d0 && a % 4 * 16 + b / 16 == d1 && b % 16 * 4 + c / 64 == d2 && c % 64 == d3;
  }

  lemma TextInFront(front: string, rest: string, data: seq<Byte>, longer: seq<Byte>)
    requires IsTextOf(rest, data) && Digits(longer) == front + Digits(data) && |longer| == |data| + 3
    ensures IsTextOf(front + rest, longer)
  {
    hide HasForm;
    var count: nat :| HasForm(rest, data, count);
    FormInFront(front, rest, data, longer, count);
  }

  lemma FormInFront(front: string, rest: string, data: seq<Byte>, longer: seq<Byte>, count: nat)
    requires HasForm(rest, data, count) && Digits(longer) == front + Digits(data) && |longer| == |data| + 3
    ensures HasForm(front + rest, longer, count)
  {
    hide Digits, Padding;
    var digits, padding := Digits(data), Padding(count);
    if rest == digits + padding {
      Regroup(front, digits, padding);
    } else {
      assert rest == digits + ("A" + padding);
      Extra(front, digits, padding, rest);
      SameRemainder(|data|);
    }
  }

  lemma SameRemainder(n: nat)
    ensures (n + 3) % 3 == n % 3
  {
  }

  lemma Extra(front: string, digits: string, padding: string, rest: string)
    ensures rest == digits + ("A" + padding) ==> front + rest == front + digits + ("A" + padding)
  {
    Regroup(front, digits, "A" + padding);
  }

  /** One more whole group in front keeps a text of some data a text of the longer data. */
  lemma FourDigitText(d0: nat, d1: nat, d2: nat, d3: nat, rest: string, data: seq<Byte>)
    requires d0 < 64 && d1 < 64 && d2 < 64 && d3 < 64 && IsTextOf(rest, data)
    ensures IsTextOf([Digit(d0), Digit(d1), Digit(d2), Digit(d3)] + rest,
                     [d0 * 4 + d1 / 16, d1 % 16 * 16 + d2 / 4, d2 % 4 * 64 + d3] + data)
  {
    hide Digit, GroupDigits, Group, IsTextOf;
    var a: Byte, b: Byte, c: Byte := d0 * 4 + d1 / 16, d1 % 16 * 16 + d2 / 4, d2 % 4 * 64 + d3;
    var longer := [a, b, c] + data;
    GroupOfDigits(d0, d1, d2, d3, a, b, c);
    assert longer[3..] == data;
    TextInFront([Digit(d0), Digit(d1), Digit(d2), Digit(d3)], rest, data, longer);
  }

  lemma {:induction false} DecodedText(text: string)
    requires Decode(text).Some?
    ensures IsTextOf(text, Decode(text).value)
    decreases |text|
  {
    hide Digit, Lookup, DecodeFrom, IsTextOf;
    if Ends(text) {
      EndDecodes(text, 0, 0);
      PaddingIsText(text);
      return;
    }
    var d0, rest0 := NextDigit(text, 0, 0);
    OneDigit(d0, rest0, 0, 0);
    if Ends(rest0) {
      OneDigitText(d0, rest0);
      return;
    }
    var d1, rest1 := NextDigit(rest0, d0, 6);
    assert text == [Digit(d0), Digit(d1)] + rest1;
    TwoDigits(d0, d1, rest1);
    if Ends(rest1) {
      TwoDigitText(d0, d1, rest1);
      return;
    }
    var d2, rest2 := NextDigit(rest1, d1 % 16, 4);
    assert text == [Digit(d0), Digit(d1), Digit(d2)] + rest2;
    ThreeDigits(d0, d1, d2, rest2);
    if Ends(rest2) {
      ThreeDigitText(d0, d1, d2, rest2);
      return;
    }
    var d3, rest3 := NextDigit(rest2, d2 % 4, 2);
    assert text == [Digit(d0), Digit(d1), Digit(d2), Digit(d3)] + rest3;
    FourDigits(d0, d1, d2, d3, rest3);
    DecodedText(rest3);
    FourDigitText(d0, d1, d2, d3, rest3, Decode(rest3).value);
  }

  lemma PaddingIsText(text: string)
    requires text == Padding(|text|)
    ensures IsTextOf(text, [])
  {
    assert HasForm(text, [], |text|);
  }

  /** Exactly these texts are decoded, and to exactly this data. */
  lemma DecodesExactly(text: string, data: seq<Byte>)
    ensures Decode(text) == Some(data) <==> IsTextOf(text, data)
  {
    if Decode(text) == Some(data) {
      DecodedText(text);
    }
    if IsTextOf(text, data) {
      TextDecodes(text, data);
    }
  }

  // ---------------------------------------------------------------- the alphabet

  const LETTERS: string := "ABCDEFGHIJKLMNOPQRSTUVWXYZ"
  const SMALL_LETTERS: string := "abcdefghijklmnopqrstuvwxyz"

  /** The alphabet of table 1 in section 4 of RFC 4648. */
  const ALPHABET: string := LETTERS + SMALL_LETTERS + "0123456789+/"

  lemma LettersAre(k: nat)
    requires k < 26
    ensures LETTERS[k] == 'A' + k as char && SMALL_LETTERS[k] == 'a' + k as char
  {
    if k < 13 {
      assert k == 0 || k == 1 || k == 2 || k == 3 || k == 4 || k == 5 || k == 6 || k == 7 || k == 8 || k == 9 || k == 10
        || k == 11 || k == 12;
    } else {
      assert k == 13 || k == 14 || k == 15 || k == 16 || k == 17 || k == 18 || k == 19 || k == 20 || k == 21 || k == 22
        || k == 23 || k == 24 || k == 25;
    }
  }

  lemma DigitIsOfAlphabet(value: nat)
    requires value < 64
    ensures |ALPHABET| == 64 && Digit(value) == ALPHABET[value]
  {
    if value < 26 {
      LettersAre(value);
    } else if value < 52 {
      LettersAre(value - 26);
    } else {
      assert ALPHABET[value] == "0123456789+/"[value - 52];
      var k := value - 52;
      assert k == 0 || k == 1 || k == 2 || k == 3 || k == 4 || k == 5 || k == 6 || k == 7 || k == 8 || k == 9 || k == 10 || k == 11;
    }
  }

  /** Three bytes are the four digits of their 24 bits, most significant first; one and two bytes are padded with
      zero bits to digits, and with = to four characters; longer data is written three bytes at a time. */
  lemma EncodesByGroups(a: Byte, b: Byte, c: Byte, rest: seq<Byte>)
    ensures Encode([]) == ""
    ensures Encode([a]) == [ALPHABET[a / 4], ALPHABET[a % 4 * 16], '=', '=']
    ensures Encode([a, b]) == [ALPHABET[a / 4], ALPHABET[a % 4 * 16 + b / 16], ALPHABET[b % 16 * 4], '=']
    ensures Encode([a, b, c] + rest) ==
      [ALPHABET[a / 4], ALPHABET[a % 4 * 16 + b / 16], ALPHABET[b % 16 * 4 + c / 64], ALPHABET[c % 64]] + Encode(rest)
  {
    hide Digit, GroupDigits, Group, Padding, ALPHABET;
    PaddingIs();
    GroupIs(a, b, c);
    GroupIs(a, b, 0);
    GroupIs(a, 0, 0);
    DigitIsOfAlphabet(a / 4);
    DigitIsOfAlphabet(a % 4 * 16);
    DigitIsOfAlphabet(a % 4 * 16 + b / 16);
    DigitIsOfAlphabet(b % 16 * 4);
    DigitIsOfAlphabet(b % 16 * 4 + c / 64);
    DigitIsOfAlphabet(c % 64);
    var data := [a, b, c] + rest;
    assert data[3..] == rest;
    SameRemainder(|rest|);
  }
}

/** Text helpers shared by the text formats. A byte of a std::string is a char below 256. */
module Strings {
  import opened Wrappers

  predicate OccursAt(text: string, pattern: string, at: nat) {
    at + |pattern| <= |text| && text[at..at + |pattern|] == pattern
  }

  /** std::string_view::find: the first occurrence of the pattern at or after `from`. */
  function Find(text: string, pattern: string, from: nat): (at: Option<nat>)
    ensures at.Some? ==> from <= at.value && OccursAt(text, pattern, at.value)
    ensures at.Some? ==> forall k: nat | from <= k < at.value :: !OccursAt(text, pattern, k)
    ensures at.None? ==> forall k: nat | from <= k :: !OccursAt(text, pattern, k)
    decreases |text| - from
  {
    if from > |text| then None
    else if OccursAt(text, pattern, from) then Some(from)
    else Find(text, pattern, from + 1)
  }

  /** Searching a suffix is searching the whole text further on. */
  lemma FindInSuffix(text: string, pattern: string, skip: nat, from: nat)
    requires skip <= |text|
    ensures Find(text, pattern, skip + from) ==
            (match Find(text[skip..], pattern, from) case None => None case Some(k) => Some(skip + k))
  {
    forall k: nat
      ensures OccursAt(text[skip..], pattern, k) == OccursAt(text, pattern, skip + k)
    {
      if skip + k + |pattern| <= |text| {
        assert text[skip..][k..k + |pattern|] == text[skip + k..skip + k + |pattern|];
      }
    }
    var inner, outer := Find(text[skip..], pattern, from), Find(text, pattern, skip + from);
    if outer.Some? {
      assert OccursAt(text[skip..], pattern, outer.value - skip);
    }
    if inner.Some? {
      assert OccursAt(text, pattern, skip + inner.value);
    }
  }

  function HexValue(c: char): (value: Option<nat>)
    ensures value.Some? ==> value.value < 16
  {
    if '0' <= c <= '9' then Some((c - '0') as nat)
    else if 'a' <= c <= 'f' then Some((c - 'a') as nat + 10)
    else if 'A' <= c <= 'F' then Some((c - 'A') as nat + 10)
    else None
  }

  predicate IsDigit(c: char) {
    '0' <= c <= '9'
  }

  predicate AllDigits(s: string) {
    forall i | 0 <= i < |s| :: IsDigit(s[i])
  }

  /** The longest run of digits at the start of the text, as std::from_chars consumes it. */
  function DigitRun(text: string): (run: string)
    ensures run <= text && AllDigits(run)
    ensures |run| < |text| ==> !IsDigit(text[|run|])
  {
    if text == "" || !IsDigit(text[0]) then "" else [text[0]] + DigitRun(text[1..])
  }

  lemma {:induction false} DigitRunStops(digits: string, rest: string)
    requires AllDigits(digits)
    requires rest == "" || !IsDigit(rest[0])
    ensures DigitRun(digits + rest) == digits
  {
    if digits == "" {
      assert digits + rest == rest;
    } else {
      DigitRunStops(digits[1..], rest);
      assert (digits + rest)[1..] == digits[1..] + rest;
    }
  }

  /** The number a run of decimal digits stands for. */
  function NatOfDigits(digits: string): nat
    requires AllDigits(digits)
  {
    if digits == "" then 0
    else NatOfDigits(digits[..|digits| - 1]) * 10 + (digits[|digits| - 1] - '0') as nat
  }

  /** The decimal text of a number. */
  function DigitsOfNat(n: nat): (digits: string)
    ensures digits != "" && AllDigits(digits) && NatOfDigits(digits) == n
  {
    if n < 10 then ['0' + n as char] else DigitsOfNat(n / 10) + ['0' + (n % 10) as char]
  }

  /** Decimal text is written without leading zeros. */
  lemma {:induction false} NoLeadingZero(n: nat)
    ensures |DigitsOfNat(n)| == 1 || DigitsOfNat(n)[0] != '0'
    ensures |DigitsOfNat(n)| == 1 <==> n < 10
  {
    if n >= 10 {
      NoLeadingZero(n / 10);
    }
  }

  function Pow10(width: nat): nat {
    if width == 0 then 1 else 10 * Pow10(width - 1)
  }

  lemma {:induction false} DigitCount(n: nat, width: nat)
    requires width > 0
    ensures |DigitsOfNat(n)| <= width <==> n < Pow10(width)
    decreases width
  {
    if width == 1 {
      assert Pow10(1) == 10;
    } else if n >= 10 {
      DigitCount(n / 10, width - 1);
    } else {
      DigitCount(n, width - 1);
    }
  }

  // ---------------------------------------------------------------- hex digits

  /** A hex digit, as a capital letter or as a small one. */
  function HexChar(value: nat, isCapital: bool): char
    requires value < 16
  {
    (if isCapital then "0123456789ABCDEF" else "0123456789abcdef")[value]
  }

  /** As many hex digits of a number as there are choices of a letter case, the last digit of the number last. */
  function HexText(n: nat, capitals: seq<bool>): (digits: string)
    ensures |digits| == |capitals|
  {
    if capitals == [] then ""
    else
      var last := |capitals| - 1;
      HexText(n / 16, capitals[..last]) + [HexChar(n % 16, capitals[last])]
  }

  lemma HexCharHasValue(value: nat, isCapital: bool)
    requires value < 16
    ensures HexValue(HexChar(value, isCapital)) == Some(value)
  {
    if value < 8 {
      assert value == 0 || value == 1 || value == 2 || value == 3 || value == 4 || value == 5 || value == 6 || value == 7;
    } else {
      assert value == 8 || value == 9 || value == 10 || value == 11 || value == 12 || value == 13 || value == 14 || value == 15;
    }
  }

  /** Nothing else is a hex digit. */
  lemma HexValueHasChar(c: char) returns (isCapital: bool)
    requires HexValue(c).Some?
    ensures HexChar(HexValue(c).value, isCapital) == c
  {
    isCapital := 'A' <= c;
    if 'a' <= c {
      isCapital := false;
    }
    var value := HexValue(c).value;
    HexCharHasValue(value, isCapital);
    if value < 10 {
      assert c == '0' + value as char;
    }
  }
}

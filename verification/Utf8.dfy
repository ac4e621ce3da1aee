/** The UTF-8 form of a code point (section 3 of RFC 3629); a byte is a char below 256. */
module Utf8 {
  /** A Unicode scalar value: a code point that is not a surrogate. */
  predicate IsScalar(codePoint: nat) {
    codePoint < 0xD800 || 0xE000 <= codePoint < 0x110000
  }

  function Byte(value: nat): char
    requires value < 0x100
  {
    value as char
  }

  /** Shifts and masks of the source are divisions and remainders by powers of two, and its ors of
      disjoint bits are sums. */
  function Encode(codePoint: nat): (bytes: string)
    requires codePoint < 0x110000
  {
    if codePoint < 0x80 then [Byte(codePoint)]
    else if codePoint < 0x800 then [Byte(0xC0 + codePoint / 0x40), Byte(0x80 + codePoint % 0x40)]
    else if codePoint < 0x10000 then
      [Byte(0xE0 + codePoint / 0x1000), Byte(0x80 + codePoint / 0x40 % 0x40), Byte(0x80 + codePoint % 0x40)]
    else
      [Byte(0xF0 + codePoint / 0x40000), Byte(0x80 + codePoint / 0x1000 % 0x40),
       Byte(0x80 + codePoint / 0x40 % 0x40), Byte(0x80 + codePoint % 0x40)]
  }

  predicate IsTail(c: char) {
    0x80 <= c as int <= 0xBF
  }

  /** The byte sequences of section 4 of RFC 3629, which lists them by their first two bytes. */
  predicate IsUnit(u: string) {
    if |u| == 1 then u[0] as int <= 0x7F
    else if |u| == 2 then 0xC2 <= u[0] as int <= 0xDF && IsTail(u[1])
    else if |u| == 3 then
      && IsTail(u[1]) && IsTail(u[2])
      && (match u[0] as int
          case 0xE0 => 0xA0 <= u[1] as int
          case 0xED => u[1] as int <= 0x9F
          case lead => 0xE1 <= lead <= 0xEF)
    else if |u| == 4 then
      && IsTail(u[1]) && IsTail(u[2]) && IsTail(u[3])
      && (match u[0] as int
          case 0xF0 => 0x90 <= u[1] as int
          case 0xF4 => u[1] as int <= 0x8F
          case lead => 0xF1 <= lead <= 0xF3)
    else false
  }

  /** Reads a unit back: the bits after the lead and tail marks, most significant first. */
  function Decode(u: string): nat
    requires IsUnit(u)
  {
    if |u| == 1 then u[0] as int
    else if |u| == 2 then (u[0] as int - 0xC0) * 0x40 + (u[1] as int - 0x80)
    else if |u| == 3 then
      (u[0] as int - 0xE0) * 0x1000 + (u[1] as int - 0x80) * 0x40 + (u[2] as int - 0x80)
    else
      (u[0] as int - 0xF0) * 0x40000 + (u[1] as int - 0x80) * 0x1000 +
      (u[2] as int - 0x80) * 0x40 + (u[3] as int - 0x80)
  }

  /** Encoding writes exactly one valid unit, which stands for the code point it was written for. */
  lemma EncodeIsUnit(codePoint: nat)
    requires IsScalar(codePoint)
    ensures IsUnit(Encode(codePoint)) && Decode(Encode(codePoint)) == codePoint
  {
    if 0x800 <= codePoint < 0x10000 {
      assert codePoint / 0x1000 == codePoint / 0x40 / 0x40;
    } else if 0x10000 <= codePoint {
      assert codePoint / 0x40000 == codePoint / 0x1000 / 0x40;
      assert codePoint / 0x1000 == codePoint / 0x40 / 0x40;
    }
  }

  /** The converse: every valid unit is what is written for the scalar value that it stands for. */
  lemma UnitIsEncoded(u: string)
    requires IsUnit(u)
    ensures IsScalar(Decode(u)) && Encode(Decode(u)) == u
  {
    if |u| == 2 {
      Parts(u[0] as int - 0xC0, u[1] as int - 0x80);
    } else if |u| == 3 {
      ThreeAreEncoded(u);
    } else if |u| == 4 {
      FourAreEncoded(u);
    }
  }

  lemma ThreeAreEncoded(u: string)
    requires IsUnit(u) && |u| == 3
    ensures IsScalar(Decode(u)) && Encode(Decode(u)) == u
  {
    var a, b, c := u[0] as int - 0xE0, u[1] as int - 0x80, u[2] as int - 0x80;
    Parts(a, b);
    Parts(a * 0x40 + b, c);
    var n := (a * 0x40 + b) * 0x40 + c;
    assert n == Decode(u) && n / 0x1000 == n / 0x40 / 0x40;
    assert 0x800 <= n < 0x10000;
  }

  lemma PartsOfFour(a: int, b: int, c: int, d: int)
    requires 0 <= a && 0 <= b < 0x40 && 0 <= c < 0x40 && 0 <= d < 0x40
    ensures var n := ((a * 0x40 + b) * 0x40 + c) * 0x40 + d;
      n / 0x40000 == a && n / 0x1000 % 0x40 == b && n / 0x40 % 0x40 == c && n % 0x40 == d
  {
    Parts(a, b);
    Parts(a * 0x40 + b, c);
    Parts((a * 0x40 + b) * 0x40 + c, d);
    var n := ((a * 0x40 + b) * 0x40 + c) * 0x40 + d;
    assert n / 0x1000 == n / 0x40 / 0x40 && n / 0x40000 == n / 0x1000 / 0x40;
  }

  lemma FourAreEncoded(u: string)
    requires IsUnit(u) && |u| == 4
    ensures IsScalar(Decode(u)) && Encode(Decode(u)) == u
  {
    var a, b, c, d := u[0] as int - 0xF0, u[1] as int - 0x80, u[2] as int - 0x80, u[3] as int - 0x80;
    PartsOfFour(a, b, c, d);
    var n := ((a * 0x40 + b) * 0x40 + c) * 0x40 + d;
    assert n == Decode(u) && 0x10000 <= n < 0x110000;
  }

  lemma Parts(high: int, low: int)
    requires 0 <= high && 0 <= low < 0x40
    ensures (high * 0x40 + low) / 0x40 == high && (high * 0x40 + low) % 0x40 == low
  {
  }

  /** The number of bytes the first byte of a unit announces. */
  function UnitSize(lead: char): nat {
    if lead as int < 0x80 then 1
    else if lead as int < 0xE0 then 2
    else if lead as int < 0xF0 then 3
    else 4
  }

  predicate WellFormed(text: string) {
    text == "" ||
    (var size := UnitSize(text[0]);
     size <= |text| && IsUnit(text[..size]) && WellFormed(text[size..]))
  }

  lemma NothingIsWellFormed()
    ensures WellFormed("")
  {
  }

  lemma WellFormedUnit(u: string, rest: string)
    requires IsUnit(u) && WellFormed(rest)
    ensures WellFormed(u + rest)
  {
    var text := u + rest;
    assert text[..|u|] == u && text[|u|..] == rest;
    assert text[0] == u[0];
  }

  /** Plain ASCII at the front can be taken off. */
  lemma {:induction false} DropAscii(text: string, count: nat)
    requires WellFormed(text) && count <= |text|
    requires forall i | 0 <= i < count :: text[i] as int < 0x80
    ensures WellFormed(text[count..])
  {
    if count > 0 {
      DropAscii(text, count - 1);
      assert text[count - 1..][1..] == text[count..];
    } else {
      assert text[0..] == text;
    }
  }
}

/** JSON string literals: escaping, unescaping, and finding the closing quote. */
module JsonStrings {
  import opened Wrappers
  import opened Sequences
  import opened Strings
  import opened JsonGaps
  import Utf8

  const BACKSPACE: char := 8 as char
  const FORM_FEED: char := 12 as char

  /** What a parse step produced, and the text it left in the view. */
  datatype Parsed<+T> = Parsed(value: Option<T>, rest: string)

  function HexDigit(value: nat): char
    requires value < 16
  {
    if value < 10 then '0' + value as char else 'a' + (value - 10) as char
  }

  function EscapeChar(c: char): string {
    match c
    case '"' => "\\\""
    case '\\' => "\\\\"
    case '\r' => "\\r"
    case '\n' => "\\n"
    case '\t' => "\\t"
    case _ =>
      if c == BACKSPACE then "\\b"
      else if c == FORM_FEED then "\\f"
      else if c < ' ' then "\\u00" + [HexDigit(c as nat / 16), HexDigit(c as nat % 16)]
      else [c]
  }

  /** The escaped form of a string; it ends at the first NUL. */
  function Escape(value: string): string {
    if value == "" || value[0] == '\0' then "" else EscapeChar(value[0]) + Escape(value[1..])
  }

  method EscapeString(value: string) returns (result: string)
    ensures result == Escape(value)
  {
    hide Escape, EscapeChar;
    result := "";
    assert value[0..] == value;
    for i := 0 to |value|
      invariant result + Escape(value[i..]) == Escape(value)
    {
      EscapeAt(value, i);
      if value[i] == '\0' {
        assert result + "" == result;
        return;
      }
      Regroup(result, EscapeChar(value[i]), Escape(value[i + 1..]));
      result := result + EscapeChar(value[i]);
    }
    EscapeNothing();
    assert value[|value|..] == "" && result + "" == result;
  }

  lemma EscapeNothing()
    ensures Escape("") == ""
  {
  }

  lemma EscapeAt(value: string, i: nat)
    requires i < |value|
    ensures Escape(value[i..]) == if value[i] == '\0' then "" else EscapeChar(value[i]) + Escape(value[i + 1..])
  {
    hide EscapeChar;
    OneLessOfSuffix(value, i);
  }

  /** The four hex digits of a code unit. */
  function CodeUnit(text: string): (unit: Option<nat>)
    ensures unit.Some? ==> |text| >= 4 && unit.value < 0x10000
  {
    if |text| < 4 then None
    else
      var a :- HexValue(text[0]);
      var b :- HexValue(text[1]);
      var c :- HexValue(text[2]);
      var d :- HexValue(text[3]);
      Some(a * 0x1000 + b * 0x100 + c * 0x10 + d)
  }

  predicate IsHighSurrogate(unit: nat) {
    0xD800 <= unit <= 0xDBFF
  }

  predicate IsLowSurrogate(unit: nat) {
    0xDC00 <= unit <= 0xDFFF
  }

  /** The low surrogate written right after the four digits of a high one. */
  function LowSurrogate(text: string): (unit: Option<nat>)
    ensures unit.Some? ==> |text| >= 10 && IsLowSurrogate(unit.value)
  {
    if |text| >= 6 && text[4] == '\\' && text[5] == 'u' then
      var unit :- CodeUnit(text[6..]);
      if IsLowSurrogate(unit) then Some(unit) else None
    else None
  }

  /** The code point of a \u escape and the characters it takes, from the first hex digit on. */
  datatype CodePoint = CodePoint(value: nat, length: nat)

  const REPLACEMENT: nat := 0xFFFD

  function ReadCodePoint(text: string): (r: Option<CodePoint>)
    ensures r.Some? ==> Utf8.IsScalar(r.value.value) && r.value.length <= |text|
  {
    var unit :- CodeUnit(text);
    if IsHighSurrogate(unit) then
      match LowSurrogate(text)
      case Some(low) => Some(CodePoint(0x10000 + (unit - 0xD800) * 0x400 + (low - 0xDC00), 10))
      case None => Some(CodePoint(REPLACEMENT, 4))
    else if IsLowSurrogate(unit) then Some(CodePoint(REPLACEMENT, 4))
    else Some(CodePoint(unit, 4))
  }

  function SimpleEscape(c: char): char {
    match c
    case '0' => '\0'
    case 'b' => BACKSPACE
    case 'f' => FORM_FEED
    case 'r' => '\r'
    case 'n' => '\n'
    case 't' => '\t'
    case _ => c
  }

  function Unescape(text: string): Option<string>
    decreases |text|
  {
    if text == "" then Some("")
    else if text[0] != '\\' then
      var tail :- Unescape(text[1..]);
      Some([text[0]] + tail)
    else if |text| == 1 then None
    else if text[1] == 'u' then
      var point :- ReadCodePoint(text[2..]);
      var tail :- Unescape(text[2 + point.length..]);
      Some(Utf8.Encode(point.value) + tail)
    else
      var tail :- Unescape(text[2..]);
      Some([SimpleEscape(text[1])] + tail)
  }

  method ReadUnicodeEscape(text: string, position: nat, result: string)
    returns (ok: bool, newPosition: nat, newResult: string)
    requires position < |text|
    ensures match ReadCodePoint(text[position + 1..])
            case None => !ok
            case Some(point) =>
              ok && newPosition == position + point.length && newPosition < |text|
              && newResult == result + Utf8.Encode(point.value)
  {
    hide CodeUnit, Utf8.Encode;
    newPosition, newResult := position, result;
    var codeUnit := CodeUnit(text[position + 1..]);
    if codeUnit.None? {
      return false, newPosition, newResult;
    }
    newPosition := position + 4;
    var codePoint := codeUnit.value;
    if IsHighSurrogate(codePoint) {
      var low := None;
      assert newPosition + 3 <= |text| ==> text[position + 1..][6..] == text[newPosition + 3..];
      if newPosition + 2 < |text| && text[newPosition + 1] == '\\' && text[newPosition + 2] == 'u' {
        low := CodeUnit(text[newPosition + 3..]);
      }
      if low.Some? && IsLowSurrogate(low.value) {
        codePoint := 0x10000 + (codePoint - 0xD800) * 0x400 + (low.value - 0xDC00);
        newPosition := newPosition + 6;
      } else {
        codePoint := REPLACEMENT;
      }
    } else if IsLowSurrogate(codePoint) {
      codePoint := REPLACEMENT;
    }
    ok, newResult := true, result + Utf8.Encode(codePoint);
  }

  /** What unescaping does at a position. */
  lemma UnescapeAt(text: string, position: nat)
    requires position < |text|
    ensures var all := Unescape(text[position..]);
      if text[position] != '\\' then all == Prepend([text[position]], Unescape(text[position + 1..]))
      else if position + 1 == |text| then all == None
      else if text[position + 1] != 'u' then
        all == Prepend([SimpleEscape(text[position + 1])], Unescape(text[position + 2..]))
      else
        match ReadCodePoint(text[position + 2..])
        case None => all == None
        case Some(point) =>
          && position + 2 + point.length <= |text|
          && all == Prepend(Utf8.Encode(point.value), Unescape(text[position + 2 + point.length..]))
  {
    hide ReadCodePoint, SimpleEscape, Utf8.Encode;
    var ahead := text[position..];
    assert ahead[1..] == text[position + 1..];
    if |ahead| > 1 {
      assert ahead[2..] == text[position + 2..];
      var point := ReadCodePoint(ahead[2..]);
      if point.Some? {
        assert ahead[2 + point.value.length..] == text[position + 2 + point.value.length..];
      }
    }
  }

  method UnescapeString(text: string) returns (value: Option<string>)
    ensures value == Unescape(text)
  {
    hide Unescape, Prepend, ReadCodePoint, SimpleEscape;
    var result, position := "", 0;
    ghost var goal := Unescape(text);
    assert text[0..] == text;
    PrependNothing(goal);
    while position < |text|
      invariant position <= |text|
      invariant Prepend(result, Unescape(text[position..])) == goal
    {
      UnescapeAt(text, position);
      PrependNone(result);
      if text[position] != '\\' {
        PrependTwice(result, [text[position]], Unescape(text[position + 1..]));
        result := result + [text[position]];
      } else {
        position := position + 1;
        if position == |text| {
          return None;
        }
        if text[position] == 'u' {
          var ok, newPosition, newResult := ReadUnicodeEscape(text, position, result);
          if !ok {
            return None;
          }
          PrependTwice(result, Utf8.Encode(ReadCodePoint(text[position + 1..]).value.value), Unescape(text[newPosition + 1..]));
          position, result := newPosition, newResult;
        } else {
          PrependTwice(result, [SimpleEscape(text[position])], Unescape(text[position + 1..]));
          result := result + [SimpleEscape(text[position])];
        }
      }
      position := position + 1;
    }
    assert text[position..] == "";
    NothingLeft(result);
    value := Some(result);
  }

  lemma NothingLeft(result: string)
    ensures Prepend(result, Unescape("")) == Some(result)
  {
    assert result + "" == result;
  }

  /** The first quote that no backslash escapes. */
  function QuoteAt(text: string): (at: Option<nat>)
    ensures at.Some? ==> at.value < |text|
    decreases |text|
  {
    if text == "" then None
    else if text[0] == '"' then Some(0)
    else
      var step := if text[0] == '\\' then 2 else 1;
      if |text| < step then None
      else
        var at :- QuoteAt(text[step..]);
        Some(at + step)
  }

  function ParseString(text: string): (r: Parsed<string>)
    ensures |r.rest| <= |text| && (r.value.Some? ==> |r.rest| < |text|)
  {
    if text == "" || text[0] != '"' then Parsed(None, text)
    else
      match QuoteAt(text[1..])
      case None => Parsed(None, text)
      case Some(at) =>
        match Unescape(text[1..][..at])
        case None => Parsed(None, text)
        case Some(value) => Parsed(Some(value), text[1..][at + 1..])
  }

  method StringFromString(view: StringView) returns (value: Option<string>)
    modifies view
    ensures Parsed(value, view.text) == ParseString(old(view.text))
  {
    hide QuoteAt, Unescape, ParseString;
    var text := view.text;
    StringStarts(text);
    if text == "" || text[0] != '"' {
      return None;
    }
    ghost var quote := QuoteAt(text[1..]);
    var position := 1;
    while position < |text|
      invariant 1 <= position && view.text == text
      invariant position <= |text| ==> quote == Further(QuoteAt(text[position..]), position - 1)
      invariant position > |text| ==> quote.None?
    {
      QuoteStep(text, position);
      var character := text[position];
      if character == '\\' {
        position := position + 1;
      } else if character == '"' {
        StringEnds(text, position);
        var result := UnescapeString(text[1..position]);
        if result.None? {
          return None;
        }
        view.text := text[position + 1..];
        return result;
      }
      position := position + 1;
    }
    NoQuote(text, position);
    value := None;
  }

  function Further(at: Option<nat>, passed: nat): Option<nat> {
    if at.None? then None else Some(at.value + passed)
  }

  lemma StringStarts(text: string)
    ensures text == "" || text[0] != '"' || QuoteAt(text[1..]).None? ==> ParseString(text) == Parsed(None, text)
  {
  }

  /** A string whose closing quote is found here. */
  lemma StringEnds(text: string, position: nat)
    requires 1 <= position < |text| && text[0] == '"' && QuoteAt(text[1..]) == Some((position - 1) as nat)
    ensures ParseString(text) ==
            match Unescape(text[1..position])
            case None => Parsed(None, text)
            case Some(value) => Parsed(Some(value), text[position + 1..])
  {
    hide QuoteAt, Unescape;
    assert text[1..][..position - 1] == text[1..position];
    assert text[1..][position..] == text[position + 1..];
  }

  lemma NoQuote(text: string, position: nat)
    ensures position == |text| ==> QuoteAt(text[position..]) == None
  {
  }

  /** The search for the closing quote, one character further. */
  lemma QuoteStep(text: string, position: nat)
    requires position < |text|
    ensures var at, step := QuoteAt(text[position..]), if text[position] == '\\' then 2 else 1;
      if text[position] == '"' then at == Some(0)
      else if position + step > |text| then at == None
      else
        at == Further(QuoteAt(text[position + step..]), step)
  {
    var ahead := text[position..];
    assert ahead[1..] == text[position + 1..];
    if position + 2 <= |text| {
      assert ahead[2..] == text[position + 2..];
    }
  }

  // ---------------------------------------------------------------- escaping round trip

  /** A string up to its first NUL. */
  function UpToNul(s: string): string {
    if s == "" || s[0] == '\0' then "" else [s[0]] + UpToNul(s[1..])
  }

  lemma {:induction false} UpToNulIsWhole(s: string)
    ensures UpToNul(s) == s <==> '\0' !in s
    ensures '\0' !in UpToNul(s)
  {
    if s != "" {
      assert s == [s[0]] + s[1..];
      UpToNulIsWhole(s[1..]);
    }
  }

  lemma UnescapeControl(c: char, tail: string)
    requires c < ' '
    ensures Unescape("\\u00" + [HexDigit(c as nat / 16), HexDigit(c as nat % 16)] + tail) == Prepend([c], Unescape(tail))
  {
    var text := "\\u00" + [HexDigit(c as nat / 16), HexDigit(c as nat % 16)] + tail;
    assert text[2..][..4] == ['0', '0', HexDigit(c as nat / 16), HexDigit(c as nat % 16)];
    assert CodeUnit(text[2..]) == Some(c as nat);
    assert text[2 + 4..] == tail;
  }

  lemma UnescapeEscapedChar(c: char, tail: string)
    requires c != '\0'
    ensures Unescape(EscapeChar(c) + tail) == Prepend([c], Unescape(tail))
  {
    var text := EscapeChar(c) + tail;
    if |EscapeChar(c)| == 1 {
      assert text[1..] == tail;
    } else if |EscapeChar(c)| == 2 {
      assert text[2..] == tail;
    } else {
      UnescapeControl(c, tail);
    }
  }

  /** Unescaping undoes escaping, except that everything from the first NUL on is lost. */
  lemma {:induction false} UnescapeEscaped(s: string)
    ensures Unescape(Escape(s)) == Some(UpToNul(s))
  {
    if s != "" && s[0] != '\0' {
      UnescapeEscaped(s[1..]);
      UnescapeEscapedChar(s[0], Escape(s[1..]));
    }
  }

  /** The round trip is exact for the strings without a NUL, and only for those. */
  lemma EscapeRoundTrip(s: string)
    ensures Unescape(Escape(s)) == Some(s) <==> '\0' !in s
  {
    UnescapeEscaped(s);
    UpToNulIsWhole(s);
  }

  // ---------------------------------------------------------------- literals and their closing quote

  /** The inside of a string literal: every quote in it is escaped, and no escape is cut off. */
  predicate ClosedLiteral(raw: string)
    decreases |raw|
  {
    if raw == "" then true
    else if raw[0] == '"' then false
    else if raw[0] == '\\' then |raw| >= 2 && ClosedLiteral(raw[2..])
    else ClosedLiteral(raw[1..])
  }

  lemma {:induction false} ClosedLiteralConcat(a: string, b: string)
    requires ClosedLiteral(a) && ClosedLiteral(b)
    ensures ClosedLiteral(a + b)
    decreases |a|
  {
    if a == "" {
      assert a + b == b;
    } else {
      var step := if a[0] == '\\' then 2 else 1;
      ClosedLiteralConcat(a[step..], b);
      assert (a + b)[step..] == a[step..] + b;
    }
  }

  lemma {:induction false} EscapeIsClosed(s: string)
    ensures ClosedLiteral(Escape(s))
  {
    if s != "" && s[0] != '\0' {
      EscapeIsClosed(s[1..]);
      EscapeCharIsClosed(s[0]);
      ClosedLiteralConcat(EscapeChar(s[0]), Escape(s[1..]));
    }
  }

  lemma EscapeCharIsClosed(c: char)
    ensures ClosedLiteral(EscapeChar(c))
  {
    var text := EscapeChar(c);
    if |text| == 6 {
      PlainIsClosed(text[2..]);
    }
  }

  lemma {:induction false} PlainIsClosed(raw: string)
    requires '"' !in raw && '\\' !in raw
    ensures ClosedLiteral(raw)
  {
    if raw != "" {
      PlainIsClosed(raw[1..]);
    }
  }

  /** The scan stops at the quote right after a closed literal, whatever follows. */
  lemma {:induction false} QuoteAfterLiteral(raw: string, rest: string)
    requires ClosedLiteral(raw)
    ensures QuoteAt(raw + "\"" + rest) == Some(|raw|)
    decreases |raw|
  {
    var text := raw + "\"" + rest;
    if raw != "" {
      var step := if raw[0] == '\\' then 2 else 1;
      QuoteAfterLiteral(raw[step..], rest);
      assert text[step..] == raw[step..] + "\"" + rest;
    }
  }

  /** What the scan stopped at is a quote after a closed literal. */
  lemma {:induction false} LiteralBeforeQuote(text: string)
    requires QuoteAt(text).Some?
    ensures text[QuoteAt(text).value] == '"' && ClosedLiteral(text[..QuoteAt(text).value])
    decreases |text|
  {
    if text[0] != '"' {
      var step := if text[0] == '\\' then 2 else 1;
      LiteralBeforeQuote(text[step..]);
      assert text[..QuoteAt(text).value][step..] == text[step..][..QuoteAt(text[step..]).value];
    }
  }

  /** A closed literal between quotes is read in full, and nothing after it is touched. */
  lemma LiteralParses(raw: string, rest: string)
    requires ClosedLiteral(raw) && Unescape(raw).Some?
    ensures ParseString("\"" + raw + "\"" + rest) == Parsed(Unescape(raw), rest)
  {
    var text := "\"" + raw + "\"" + rest;
    assert text[1..] == raw + "\"" + rest;
    QuoteAfterLiteral(raw, rest);
    assert text[1..][..|raw|] == raw;
    assert text[1..][|raw| + 1..] == rest;
  }

  /** A quoted escaped string is read back, up to its first NUL. */
  lemma EscapedStringParses(s: string, rest: string)
    ensures ParseString("\"" + Escape(s) + "\"" + rest) == Parsed(Some(UpToNul(s)), rest)
  {
    EscapeIsClosed(s);
    UnescapeEscaped(s);
    LiteralParses(Escape(s), rest);
  }

  /** A string that is lost. */
  lemma NulIsLost()
    ensures Unescape(Escape("\0")) == Some("")
  {
    UnescapeEscaped("\0");
    assert UpToNul("\0") == "";
  }

  // ---------------------------------------------------------------- Unicode escapes

  /** What follows the \u of an escaped code point (section 7 of RFC 8259): the hex digits of one code unit, or those
      of a high surrogate and then the escape of a low one. Each digit is written in the letter case asked for. */
  function EscapeOf(codePoint: nat, capitals: seq<bool>): string
    requires codePoint < 0x110000 && |capitals| == 8
  {
    if codePoint < 0x10000 then HexText(codePoint, capitals[..4])
    else
      HexText(0xD800 + (codePoint - 0x10000) / 0x400, capitals[..4]) + "\\u" +
      HexText(0xDC00 + (codePoint - 0x10000) % 0x400, capitals[4..])
  }

  lemma OneMoreDigit(n: nat, digit: nat, capitals: seq<bool>, isCapital: bool)
    requires digit < 16
    ensures HexText(n * 16 + digit, capitals + [isCapital]) == HexText(n, capitals) + [HexChar(digit, isCapital)]
  {
    assert (capitals + [isCapital])[..|capitals|] == capitals;
    assert (n * 16 + digit) / 16 == n && (n * 16 + digit) % 16 == digit;
  }

  lemma NoDigits()
    ensures HexText(0, []) == ""
  {
  }

  lemma TwoDigits(a: nat, b: nat, p: bool, q: bool)
    requires a < 16 && b < 16
    ensures HexText(a * 0x10 + b, [p, q]) == [HexChar(a, p), HexChar(b, q)]
  {
    hide HexText, HexChar;
    NoDigits();
    OneMoreDigit(0, a, [], p);
    OneMoreDigit(a, b, [p], q);
    assert [] + [p] == [p] && [p] + [q] == [p, q];
  }

  lemma ThreeDigits(a: nat, b: nat, c: nat, p: bool, q: bool, r: bool)
    requires a < 16 && b < 16 && c < 16
    ensures HexText((a * 0x10 + b) * 0x10 + c, [p, q, r]) == [HexChar(a, p), HexChar(b, q), HexChar(c, r)]
  {
    hide HexText, HexChar;
    TwoDigits(a, b, p, q);
    OneMoreDigit(a * 0x10 + b, c, [p, q], r);
    assert [p, q] + [r] == [p, q, r];
  }

  lemma FourDigits(a: nat, b: nat, c: nat, d: nat, p: bool, q: bool, r: bool, s: bool)
    requires a < 16 && b < 16 && c < 16 && d < 16
    ensures HexText(((a * 0x10 + b) * 0x10 + c) * 0x10 + d, [p, q, r, s]) ==
      [HexChar(a, p), HexChar(b, q), HexChar(c, r), HexChar(d, s)]
  {
    hide HexText, HexChar;
    ThreeDigits(a, b, c, p, q, r);
    OneMoreDigit((a * 0x10 + b) * 0x10 + c, d, [p, q, r], s);
    Fourth(p, q, r, s);
    Fourth(HexChar(a, p), HexChar(b, q), HexChar(c, r), HexChar(d, s));
  }

  lemma Fourth<T>(a: T, b: T, c: T, d: T)
    ensures [a, b, c] + [d] == [a, b, c, d]
  {
  }

  lemma UnitOfDigits(unit: nat) returns (a: nat, b: nat, c: nat, d: nat)
    requires unit < 0x10000
    ensures a < 16 && b < 16 && c < 16 && d < 16 && unit == ((a * 0x10 + b) * 0x10 + c) * 0x10 + d
  {
    var n, m := unit / 16, unit / 16 / 16;
    a, b, c, d := m / 16, m % 16, n % 16, unit % 16;
  }

  lemma CodeUnitOfDigits(a: nat, b: nat, c: nat, d: nat, digits: string, rest: string)
    requires |digits| == 4 && HexValue(digits[0]) == Some(a) && HexValue(digits[1]) == Some(b)
    requires HexValue(digits[2]) == Some(c) && HexValue(digits[3]) == Some(d)
    ensures CodeUnit(digits + rest) == Some(((a * 0x10 + b) * 0x10 + c) * 0x10 + d)
  {
    hide HexValue;
  }

  /** Four hex digits are read as the number for which they are written, whatever their letter cases. */
  lemma CodeUnitReads(unit: nat, capitals: seq<bool>, rest: string)
    requires unit < 0x10000 && |capitals| == 4
    ensures CodeUnit(HexText(unit, capitals) + rest) == Some(unit)
  {
    hide HexText, HexChar, HexValue, CodeUnit;
    var a, b, c, d := UnitOfDigits(unit);
    assert capitals == [capitals[0], capitals[1], capitals[2], capitals[3]];
    FourDigits(a, b, c, d, capitals[0], capitals[1], capitals[2], capitals[3]);
    HexCharHasValue(a, capitals[0]);
    HexCharHasValue(b, capitals[1]);
    HexCharHasValue(c, capitals[2]);
    HexCharHasValue(d, capitals[3]);
    CodeUnitOfDigits(a, b, c, d, HexText(unit, capitals), rest);
  }

  /** The converse: nothing else is read as a number. */
  lemma CodeUnitIsHexText(text: string) returns (capitals: seq<bool>)
    requires CodeUnit(text).Some?
    ensures |capitals| == 4 && text[..4] == HexText(CodeUnit(text).value, capitals)
  {
    hide HexText, HexChar, HexValue;
    var p := HexValueHasChar(text[0]);
    var q := HexValueHasChar(text[1]);
    var r := HexValueHasChar(text[2]);
    var s := HexValueHasChar(text[3]);
    capitals := [p, q, r, s];
    FourDigits(HexValue(text[0]).value, HexValue(text[1]).value, HexValue(text[2]).value, HexValue(text[3]).value, p, q, r, s);
  }

  lemma ReadsCodePoint(codePoint: nat, capitals: seq<bool>, rest: string)
    requires Utf8.IsScalar(codePoint) && |capitals| == 8
    ensures var digits := EscapeOf(codePoint, capitals);
      ReadCodePoint(digits + rest) == Some(CodePoint(codePoint, |digits|))
  {
    hide CodeUnit, HexText;
    if codePoint < 0x10000 {
      CodeUnitReads(codePoint, capitals[..4], rest);
    } else {
      var digits, n := EscapeOf(codePoint, capitals), codePoint - 0x10000;
      var high, low := HexText(0xD800 + n / 0x400, capitals[..4]), HexText(0xDC00 + n % 0x400, capitals[4..]);
      Regroup(high + "\\u", low, rest);
      Regroup(high, "\\u", low + rest);
      CodeUnitReads(0xD800 + n / 0x400, capitals[..4], "\\u" + (low + rest));
      CodeUnitReads(0xDC00 + n % 0x400, capitals[4..], rest);
      assert (digits + rest)[6..] == low + rest;
    }
  }

  lemma UnescapeCodePoint(digits: string, point: CodePoint, rest: string)
    requires ReadCodePoint(digits + rest) == Some(point) && point.length == |digits|
    ensures Unescape("\\u" + digits + rest) == Prepend(Utf8.Encode(point.value), Unescape(rest))
  {
    var text := "\\u" + digits + rest;
    assert text[2..] == digits + rest;
    assert text[2 + |digits|..] == rest;
  }

  /** Every scalar value written as an escape is read as its UTF-8 form. */
  lemma UnicodeEscapeDecodes(codePoint: nat, capitals: seq<bool>, rest: string)
    requires Utf8.IsScalar(codePoint) && |capitals| == 8
    ensures Unescape("\\u" + EscapeOf(codePoint, capitals) + rest) == Prepend(Utf8.Encode(codePoint), Unescape(rest))
  {
    hide ReadCodePoint, Unescape, EscapeOf;
    var digits := EscapeOf(codePoint, capitals);
    ReadsCodePoint(codePoint, capitals, rest);
    UnescapeCodePoint(digits, CodePoint(codePoint, |digits|), rest);
  }

  lemma ReplacementForm()
    ensures Utf8.Encode(REPLACEMENT) == [0xEF as char, 0xBF as char, 0xBD as char]
  {
  }

  /** The text goes on with the escape of a low surrogate. */
  ghost predicate LowFollows(text: string) {
    exists low: nat, capitals: seq<bool> :: StartsWithLow(text, low, capitals)
  }

  ghost predicate StartsWithLow(text: string, low: nat, capitals: seq<bool>) {
    0xDC00 <= low < 0xE000 && |capitals| == 4 && "\\u" + HexText(low, capitals) <= text
  }

  lemma LowSurrogateFollows(high: string, text: string)
    requires |high| == 4
    ensures LowSurrogate(high + text).Some? <==> LowFollows(text)
  {
    hide CodeUnit, HexText;
    var whole := high + text;
    if |text| >= 2 {
      assert whole[6..] == text[2..];
    }
    if LowSurrogate(whole).Some? {
      var capitals := CodeUnitIsHexText(text[2..]);
      var low := CodeUnit(text[2..]).value;
      assert text == text[..2] + (text[2..][..4] + text[6..]);
      assert StartsWithLow(text, low, capitals);
    }
    if low: nat, capitals: seq<bool> :| StartsWithLow(text, low, capitals) {
      assert text[2..] == HexText(low, capitals) + text[6..];
      CodeUnitReads(low, capitals, text[6..]);
    }
  }

  /** A surrogate that is not part of a pair is read as U+FFFD, whose UTF-8 form is EF BF BD. */
  lemma UnpairedSurrogateDecodes(unit: nat, capitals: seq<bool>, rest: string)
    requires |capitals| == 4 && (0xDC00 <= unit < 0xE000 || (0xD800 <= unit < 0xDC00 && !LowFollows(rest)))
    ensures Unescape("\\u" + HexText(unit, capitals) + rest) == Prepend([0xEF as char, 0xBF as char, 0xBD as char], Unescape(rest))
  {
    var digits := HexText(unit, capitals);
    CodeUnitReads(unit, capitals, rest);
    LowSurrogateFollows(digits, rest);
    assert ReadCodePoint(digits + rest) == Some(CodePoint(REPLACEMENT, 4)) by {
      hide CodeUnit, LowSurrogate, HexText, LowFollows;
    }
    hide CodeUnit, LowSurrogate, ReadCodePoint, Unescape, LowFollows;
    UnescapeCodePoint(digits, CodePoint(REPLACEMENT, 4), rest);
    ReplacementForm();
  }

  /** The two-character escapes of section 7 of RFC 8259, and one for NUL: each letter stands for its character, and
      any other one but u for itself. */
  const ESCAPE_LETTERS: string := "\"\\/bfnrt0"
  const ESCAPED: seq<int> := [0x22, 0x5C, 0x2F, 0x08, 0x0C, 0x0A, 0x0D, 0x09, 0x00]

  lemma SimpleEscapeDecodes(letter: char, rest: string)
    requires letter != 'u'
    ensures forall k | 0 <= k < |ESCAPE_LETTERS| && letter == ESCAPE_LETTERS[k] ::
      Unescape("\\" + [letter] + rest) == Prepend([ESCAPED[k] as char], Unescape(rest))
    ensures letter !in ESCAPE_LETTERS ==> Unescape("\\" + [letter] + rest) == Prepend([letter], Unescape(rest))
  {
    var text := "\\" + [letter] + rest;
    assert text[2..] == rest;
    forall k | 0 <= k < |ESCAPE_LETTERS| && letter == ESCAPE_LETTERS[k]
      ensures SimpleEscape(letter) == ESCAPED[k] as char
    {
      assert k == 0 || k == 1 || k == 2 || k == 3 || k == 4 || k == 5 || k == 6 || k == 7 || k == 8;
    }
    if letter !in ESCAPE_LETTERS {
      NoEscapeLetter(letter);
    }
  }

  lemma NoEscapeLetter(letter: char)
    requires letter !in ESCAPE_LETTERS
    ensures SimpleEscape(letter) == letter
  {
    assert ESCAPE_LETTERS[3] == 'b' && ESCAPE_LETTERS[4] == 'f' && ESCAPE_LETTERS[5] == 'n' && ESCAPE_LETTERS[6] == 'r';
    assert ESCAPE_LETTERS[7] == 't' && ESCAPE_LETTERS[8] == '0';
  }

  // ---------------------------------------------------------------- the escaped form

  /** Escaping leaves no control character in the text (section 7 of RFC 8259), and adds no capital letter. */
  lemma {:induction false} EscapedIsPrintable(s: string)
    ensures forall c | c in Escape(s) :: c >= ' ' && ('A' <= c <= 'Z' ==> c in s)
  {
    if s != "" && s[0] != '\0' {
      EscapedIsPrintable(s[1..]);
      EscapedCharIsPrintable(s[0]);
      assert s == [s[0]] + s[1..];
    }
  }

  lemma EscapedCharIsPrintable(c: char)
    ensures c != '\0' ==> forall x | x in EscapeChar(c) :: x >= ' ' && ('A' <= x <= 'Z' ==> x == c)
  {
  }

  lemma {:induction false} EscapeConcat(a: string, b: string)
    requires '\0' !in a
    ensures Escape(a + b) == Escape(a) + Escape(b)
  {
    hide EscapeChar;
    if a == "" {
      assert a + b == b;
    } else {
      assert (a + b)[1..] == a[1..] + b;
      EscapeConcat(a[1..], b);
      Regroup(EscapeChar(a[0]), Escape(a[1..]), Escape(b));
    }
  }

  lemma {:induction false} EscapeKeepsLong(s: string)
    requires forall i | 0 <= i < |s| :: s[i] as int >= 0x80
    ensures Escape(s) == s && '\0' !in s
  {
    if s != "" {
      EscapeKeepsLong(s[1..]);
    }
  }

  lemma {:induction false} ClosedAfterPlain(text: string, count: nat)
    requires ClosedLiteral(text) && count <= |text| && '\\' !in text[..count]
    ensures ClosedLiteral(text[count..])
  {
    if count > 0 {
      assert text[0] == text[..count][0] && text[1..][..count - 1] == text[..count][1..];
      ClosedAfterPlain(text[1..], count - 1);
    }
  }

  lemma CodeUnitIsPlain(text: string)
    requires CodeUnit(text).Some?
    ensures '\\' !in text[..4]
  {
  }

  /** After the digits of an escape, the literal is still closed. */
  lemma ClosedAfterEscape(text: string)
    requires ClosedLiteral(text) && ReadCodePoint(text).Some?
    ensures ClosedLiteral(text[ReadCodePoint(text).value.length..])
  {
    hide CodeUnit, ClosedLiteral;
    CodeUnitIsPlain(text);
    ClosedAfterPlain(text, 4);
    if ReadCodePoint(text).value.length == 10 {
      ClosedBackslash(text[4..]);
      assert text[4..][2..] == text[6..] && text[6..][4..] == text[10..];
      CodeUnitIsPlain(text[6..]);
      ClosedAfterPlain(text[6..], 4);
    }
  }

  lemma ClosedBackslash(text: string)
    requires |text| >= 2 && text[0] == '\\' && ClosedLiteral(text)
    ensures ClosedLiteral(text[2..])
  {
  }

  lemma EscapedUnitIsShort(codePoint: nat)
    requires 0 < codePoint < 0x110000
    ensures |Escape(Utf8.Encode(codePoint))| <= 6 && '\0' !in Utf8.Encode(codePoint)
  {
    var unit := Utf8.Encode(codePoint);
    if codePoint < 0x80 {
      assert unit[1..] == "";
    } else {
      EscapeKeepsLong(unit);
    }
  }

  lemma EscapedCharIsShort(c: char)
    ensures |EscapeChar(c)| <= 6 && (c >= ' ' ==> |EscapeChar(c)| <= 2)
    ensures c >= ' ' && c != '"' && c != '\\' ==> |EscapeChar(c)| == 1
  {
  }

  predicate NoControls(text: string) {
    forall i | 0 <= i < |text| :: text[i] >= ' '
  }

  /** No literal without control characters that stands for the string is shorter than its escaped form. */
  lemma {:induction false} EscapeIsShortest(s: string, raw: string)
    requires '\0' !in s && Unescape(raw) == Some(s)
    requires ClosedLiteral(raw) && NoControls(raw)
    ensures |Escape(s)| <= |raw|
    decreases |raw|
  {
    hide EscapeChar, ReadCodePoint, Utf8.Encode;
    if raw != "" {
      if raw[0] != '\\' {
        assert s[0] == raw[0] && Unescape(raw[1..]) == Some(s[1..]);
        EscapeIsShortest(s[1..], raw[1..]);
        EscapedCharIsShort(raw[0]);
      } else if raw[1] == 'u' {
        var point := ReadCodePoint(raw[2..]).value;
        var unit, rest := Utf8.Encode(point.value), raw[2 + point.length..];
        assert raw[2..][point.length..] == rest;
        ClosedAfterEscape(raw[2..]);
        var tail := s[|unit|..];
        assert s == unit + tail;
        NotNul(point.value, s);
        EscapeIsShortest(tail, rest);
        EscapedUnitIsShort(point.value);
        EscapeConcat(unit, tail);
        LongEnough(raw[2..]);
      } else {
        assert s[0] == SimpleEscape(raw[1]) && Unescape(raw[2..]) == Some(s[1..]);
        EscapeIsShortest(s[1..], raw[2..]);
        SimpleIsShort(raw[1]);
      }
    }
  }

  lemma LongEnough(text: string)
    requires ReadCodePoint(text).Some?
    ensures ReadCodePoint(text).value.length >= 4
  {
    hide CodeUnit;
  }

  lemma NotNul(codePoint: nat, s: string)
    requires codePoint < 0x110000 && Utf8.Encode(codePoint) <= s && '\0' !in s
    ensures codePoint > 0
  {
    var unit := Utf8.Encode(codePoint);
    assert unit[0] == s[0] && s[0] in s;
  }

  lemma SimpleIsShort(letter: char)
    requires letter >= ' ' && SimpleEscape(letter) != '\0'
    ensures |EscapeChar(SimpleEscape(letter))| <= 2
  {
  }

  lemma CodeUnitIsAscii(text: string)
    requires CodeUnit(text).Some?
    ensures forall i | 0 <= i < 4 :: text[i] as int < 0x80
  {
  }

  lemma ReadCodePointIsAscii(text: string)
    requires ReadCodePoint(text).Some?
    ensures forall i | 0 <= i < ReadCodePoint(text).value.length :: text[i] as int < 0x80
  {
    CodeUnitIsAscii(text);
    if ReadCodePoint(text).value.length == 10 {
      CodeUnitIsAscii(text[6..]);
      forall i | 6 <= i < 10
        ensures text[i] as int < 0x80
      {
        assert text[i] == text[6..][i - 6];
      }
    }
  }

  lemma {:induction false} UnescapePlain(plain: string, rest: string)
    requires '\\' !in plain
    ensures Unescape(plain + rest) == Prepend(plain, Unescape(rest))
  {
    if plain == "" {
      assert plain + rest == rest;
      PrependNothing(Unescape(rest));
    } else {
      assert (plain + rest)[1..] == plain[1..] + rest;
      UnescapePlain(plain[1..], rest);
      PrependTwice([plain[0]], plain[1..], Unescape(rest));
      assert [plain[0]] + plain[1..] == plain;
    }
  }

  lemma EscapeIsAscii(text: string)
    requires |text| >= 2 && text[0] == '\\' && text[1] == 'u' && ReadCodePoint(text[2..]).Some?
    ensures forall i | 0 <= i < 2 + ReadCodePoint(text[2..]).value.length :: text[i] as int < 0x80
  {
    hide ReadCodePoint;
    ReadCodePointIsAscii(text[2..]);
    forall i | 0 <= i < 2 + ReadCodePoint(text[2..]).value.length
      ensures text[i] as int < 0x80
    {
      assert i >= 2 ==> text[i] == text[2..][i - 2];
    }
  }

  /** Unescaping keeps text well formed: well-formed UTF-8 in, well-formed UTF-8 out. */
  lemma {:induction false} UnescapeKeepsUtf8(text: string)
    requires Utf8.WellFormed(text) && Unescape(text).Some?
    ensures Utf8.WellFormed(Unescape(text).value)
    decreases |text|, 1
  {
    hide Utf8.WellFormed, ReadCodePoint;
    if text == "" {
      Utf8.NothingIsWellFormed();
    } else if text[0] != '\\' {
      UnescapeKeepsUnit(text);
    } else if text[1] == 'u' {
      UnescapeKeepsCodePoint(text);
    } else {
      UnescapeKeepsSimple(text);
    }
  }

  lemma {:induction false} UnescapeKeepsCodePoint(text: string)
    requires Utf8.WellFormed(text) && Unescape(text).Some? && |text| >= 2 && text[0] == '\\' && text[1] == 'u'
    ensures Utf8.WellFormed(Unescape(text).value)
    decreases |text|, 0
  {
    hide Utf8.WellFormed, ReadCodePoint, Utf8.Encode, Utf8.IsUnit;
    var point := ReadCodePoint(text[2..]).value;
    EscapeIsAscii(text);
    Utf8.DropAscii(text, 2 + point.length);
    UnescapeKeepsUtf8(text[2 + point.length..]);
    Utf8.EncodeIsUnit(point.value);
    Utf8.WellFormedUnit(Utf8.Encode(point.value), Unescape(text[2 + point.length..]).value);
  }

  lemma {:induction false} UnescapeKeepsSimple(text: string)
    requires Utf8.WellFormed(text) && Unescape(text).Some? && |text| >= 2 && text[0] == '\\' && text[1] != 'u'
    ensures Utf8.WellFormed(Unescape(text).value)
    decreases |text|, 0
  {
    hide Utf8.WellFormed, ReadCodePoint;
    if text[1] as int < 0x80 {
      Utf8.DropAscii(text, 2);
      UnescapeKeepsUtf8(text[2..]);
      AsciiIsUnit(text[1]);
      Utf8.WellFormedUnit([SimpleEscape(text[1])], Unescape(text[2..]).value);
    } else {
      // a backslash before a longer unit is dropped, and the unit is kept
      Utf8.DropAscii(text, 1);
      assert text[1..][1..] == text[2..];
      assert Unescape(text) == Unescape(text[1..]);
      UnescapeKeepsUnit(text[1..]);
    }
  }

  lemma AsciiIsUnit(c: char)
    requires c as int < 0x80
    ensures Utf8.IsUnit([SimpleEscape(c)])
  {
  }

  lemma {:induction false} UnescapeKeepsUnit(text: string)
    requires text != "" && text[0] != '\\'
    requires Utf8.WellFormed(text) && Unescape(text).Some?
    ensures Utf8.WellFormed(Unescape(text).value)
    decreases |text|, 0
  {
    hide Unescape;
    var size := Utf8.UnitSize(text[0]);
    var unit, rest := text[..size], text[size..];
    assert text == unit + rest;
    assert '\\' !in unit;
    UnescapePlain(unit, rest);
    UnescapeKeepsUtf8(rest);
    Utf8.WellFormedUnit(unit, Unescape(rest).value);
  }
}

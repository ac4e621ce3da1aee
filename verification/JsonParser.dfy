/** The recursive-descent parser: what it reads, as functions, and the loops that read it. */
module JsonParser {
  import opened Wrappers
  import opened Strings
  import opened JsonGaps
  import opened JsonStrings

  /** A parsed document. Numbers are the integers that print exactly; an object is its map of members. */
  datatype Json =
    | Null
    | Boolean(b: bool)
    | Number(n: int)
    | Text(s: string)
    | Array(items: seq<Json>)
    | Object(members: map<string, Json>)

  const NUMBER_LIMIT: nat := 1_000_000_000_000_000

  /** What would make a number longer if it came right after it. */
  predicate ExtendsNumber(rest: string) {
    rest != "" && (IsDigit(rest[0]) || rest[0] == '.' || rest[0] == 'e' || rest[0] == 'E')
  }

  function ParseLiteral(text: string, literal: string, value: Json): (r: Parsed<Json>)
    requires literal != ""
    ensures |r.rest| <= |text| && (r.value.Some? ==> |r.rest| < |text|)
  {
    if literal <= text then Parsed(Some(value), text[|literal|..]) else Parsed(None, text)
  }

  function ParseBoolean(text: string): (r: Parsed<Json>)
    ensures |r.rest| <= |text| && (r.value.Some? ==> |r.rest| < |text|)
  {
    if "true" <= text then ParseLiteral(text, "true", Boolean(true))
    else ParseLiteral(text, "false", Boolean(false))
  }

  /** Integers of magnitude below the limit; a fraction, an exponent or a larger number is not part of this model. */
  function ParseNumber(text: string): (r: Parsed<Json>)
    ensures |r.rest| <= |text| && (r.value.Some? ==> |r.rest| < |text|)
  {
    var sign := if text != "" && text[0] == '-' then 1 else 0;
    var digits := DigitRun(text[sign..]);
    var rest := text[sign..][|digits|..];
    if digits == "" || ExtendsNumber(rest) || NatOfDigits(digits) >= NUMBER_LIMIT then Parsed(None, text)
    else Parsed(Some(Number(if sign == 1 then 0 - NatOfDigits(digits) else NatOfDigits(digits))), rest)
  }

  /** A number that goes on as a fraction or with an exponent is refused by this model, whatever comes then; one that
      ends is read. */
  lemma NumbersAreWhole(n: nat, next: char, rest: string)
    requires !IsDigit(next)
    ensures ParseNumber(DigitsOfNat(n) + ([next] + rest)) ==
      if next == '.' || next == 'e' || next == 'E' || |DigitsOfNat(n)| > 15 then Parsed(None, DigitsOfNat(n) + ([next] + rest))
      else Parsed(Some(Number(n)), [next] + rest)
  {
    hide DigitsOfNat, NatOfDigits, DigitRun;
    var digits, after := DigitsOfNat(n), [next] + rest;
    DigitRunStops(digits, after);
    assert (digits + after)[|digits|..] == after && IsDigit(digits[0]) && (digits + after)[0] == digits[0];
    assert (digits + after)[0..] == digits + after;
    DigitCount(n, 15);
    Limit();
  }

  lemma Limit()
    ensures Pow10(15) == NUMBER_LIMIT
  {
    assert Pow10(5) == 100_000;
    assert Pow10(10) == 10_000_000_000;
  }

  function ParseText(text: string): (r: Parsed<Json>)
    ensures |r.rest| <= |text| && (r.value.Some? ==> |r.rest| < |text|)
  {
    var r := ParseString(text);
    Parsed(if r.value.None? then None else Some(Text(r.value.value)), r.rest)
  }

  /** Every value read shortens the text, which bounds the recursion of arrays and objects. */
  function ParseValue(text: string): (r: Parsed<Json>)
    ensures |r.rest| <= |text| && (r.value.Some? ==> |r.rest| < |text|)
    decreases |text|, 1
  {
    var text := SkipGap(text);
    if text == "" then Parsed(None, text)
    else
      match text[0]
      case 'n' => ParseLiteral(text, "null", Null)
      case 't' => ParseBoolean(text)
      case 'f' => ParseBoolean(text)
      case '"' => ParseText(text)
      case '[' => ParseItems(text[1..], [])
      case '{' => ParseMembers(text[1..], map[])
      case _ => ParseNumber(text)
  }

  /** A comma between items is skipped when there is one. */
  function SkipComma(text: string): (rest: string)
    ensures |rest| <= |text|
  {
    var text := SkipGap(text);
    if text != "" && text[0] == ',' then text[1..] else text
  }

  function ParseItems(text: string, items: seq<Json>): (r: Parsed<Json>)
    ensures |r.rest| <= |text| && (r.value.Some? ==> |r.rest| < |text|)
    decreases |text|, 2
  {
    var text := SkipGap(text);
    if text == "" then Parsed(None, text)
    else if text[0] == ']' then Parsed(Some(Array(items)), text[1..])
    else
      var item := ParseValue(text);
      if item.value.None? then Parsed(None, item.rest)
      else ParseItems(SkipComma(item.rest), items + [item.value.value])
  }

  /** A member up to its value: the name and the text after the colon. */
  function ParseName(text: string): (r: Parsed<string>)
    ensures |r.rest| <= |text| && (r.value.Some? ==> |r.rest| < |text|)
  {
    var key := ParseString(text);
    if key.value.None? then Parsed(None, key.rest)
    else
      var text := SkipGap(key.rest);
      if text == "" || text[0] != ':' then Parsed(None, text) else Parsed(key.value, text[1..])
  }

  function ParseMembers(text: string, members: map<string, Json>): (r: Parsed<Json>)
    ensures |r.rest| <= |text| && (r.value.Some? ==> |r.rest| < |text|)
    decreases |text|, 2
  {
    var text := SkipGap(text);
    if text == "" then Parsed(None, text)
    else if text[0] == '}' then Parsed(Some(Object(members)), text[1..])
    else
      var name := ParseName(text);
      if name.value.None? then Parsed(None, name.rest)
      else
        var value := ParseValue(name.rest);
        if value.value.None? then Parsed(None, value.rest)
        else ParseMembers(SkipComma(value.rest), members[name.value.value := value.value.value])
  }

  // ---------------------------------------------------------------- the loops

  method ValueFromString(view: StringView) returns (value: Option<Json>)
    modifies view
    ensures Parsed(value, view.text) == ParseValue(old(view.text))
    decreases |view.text|, 3
  {
    SkipWhitespace(view);
    if view.text == "" {
      return None;
    }
    match view.text[0] {
      case '"' =>
        var s := StringFromString(view);
        value := if s.None? then None else Some(Text(s.value));
      case '[' =>
        value := ArrayFromString(view);
      case '{' =>
        value := ObjectFromString(view);
      case 'n' =>
        var r := ParseLiteral(view.text, "null", Null);
        value, view.text := r.value, r.rest;
      case 't' =>
        var r := ParseBoolean(view.text);
        value, view.text := r.value, r.rest;
      case 'f' =>
        var r := ParseBoolean(view.text);
        value, view.text := r.value, r.rest;
      case _ =>
        var r := ParseNumber(view.text);
        value, view.text := r.value, r.rest;
    }
  }

  method ArrayFromString(view: StringView) returns (value: Option<Json>)
    modifies view
    ensures old(view.text) == "" || old(view.text)[0] != '[' ==> value.None? && view.text == old(view.text)
    ensures old(view.text) != "" && old(view.text)[0] == '[' ==>
      Parsed(value, view.text) == ParseItems(old(view.text)[1..], [])
    decreases |view.text|, 2
  {
    if view.text == "" || view.text[0] != '[' {
      return None;
    }
    ghost var goal := ParseItems(view.text[1..], []);
    var items := [];
    view.text := view.text[1..];
    while true
      invariant |view.text| < |old(view.text)|
      invariant ParseItems(view.text, items) == goal
      decreases |view.text|
    {
      SkipWhitespace(view);
      if view.text == "" {
        return None;
      }
      if view.text[0] == ']' {
        view.text := view.text[1..];
        return Some(Array(items));
      }
      var item := ValueFromString(view);
      if item.None? {
        return None;
      }
      items := items + [item.value];
      SkipWhitespace(view);
      if view.text != "" && view.text[0] == ',' {
        view.text := view.text[1..];
      }
    }
  }

  method ObjectFromString(view: StringView) returns (value: Option<Json>)
    modifies view
    ensures old(view.text) == "" || old(view.text)[0] != '{' ==> value.None? && view.text == old(view.text)
    ensures old(view.text) != "" && old(view.text)[0] == '{' ==>
      Parsed(value, view.text) == ParseMembers(old(view.text)[1..], map[])
    decreases |view.text|, 2
  {
    if view.text == "" || view.text[0] != '{' {
      return None;
    }
    ghost var goal := ParseMembers(view.text[1..], map[]);
    var items: map<string, Json> := map[];
    view.text := view.text[1..];
    while true
      invariant |view.text| < |old(view.text)|
      invariant ParseMembers(view.text, items) == goal
      decreases |view.text|
    {
      SkipWhitespace(view);
      if view.text == "" {
        return None;
      }
      if view.text[0] == '}' {
        view.text := view.text[1..];
        return Some(Object(items));
      }
      var key := StringFromString(view);
      if key.None? {
        return None;
      }
      SkipWhitespace(view);
      if view.text == "" || view.text[0] != ':' {
        return None;
      }
      view.text := view.text[1..];
      var member := ValueFromString(view);
      if member.None? {
        return None;
      }
      items := items[key.value := member.value];
      SkipWhitespace(view);
      if view.text != "" && view.text[0] == ',' {
        view.text := view.text[1..];
      }
    }
  }

  // ---------------------------------------------------------------- what parsing leaves

  ghost predicate IsSuffix(rest: string, text: string) {
    |rest| <= |text| && rest == text[|text| - |rest|..]
  }

  lemma SuffixOfSuffix(a: string, b: string, c: string)
    requires IsSuffix(a, b) && IsSuffix(b, c)
    ensures IsSuffix(a, c)
  {
  }

  lemma DropIsSuffix(text: string, count: nat, from: string)
    requires count <= |text| && IsSuffix(text, from)
    ensures IsSuffix(text[count..], from)
  {
    SuffixOfSuffix(text[count..], text, from);
  }

  lemma AfterGapIsSuffix(text: string)
    requires StartsWithGap(text)
    ensures if IsBlank(text[0]) then IsSuffix(text[1..], text)
            else IsSuffix(AfterComment(text, if text[1] == '/' then "\n" else "*/"), text)
  {
    hide Find;
  }

  lemma {:induction false} SkipGapLeavesSuffix(text: string)
    ensures IsSuffix(SkipGap(text), text)
    decreases |text|
  {
    hide IsBlank, IsSuffix;
    if StartsWithGap(text) {
      var next :=
        if IsBlank(text[0]) then text[1..] else AfterComment(text, if text[1] == '/' then "\n" else "*/");
      assert IsSuffix(next, text) by {
        AfterGapIsSuffix(text);
      }
      SkipGapLeavesSuffix(next);
      SuffixOfSuffix(SkipGap(text), next, text);
    } else {
      SuffixOfItself(text);
    }
  }

  lemma SuffixOfItself(text: string)
    ensures IsSuffix(text, text)
  {
  }

  lemma SkipGapSuffix(text: string, from: string)
    requires IsSuffix(text, from)
    ensures IsSuffix(SkipGap(text), from)
  {
    SkipGapLeavesSuffix(text);
    SuffixOfSuffix(SkipGap(text), text, from);
  }

  lemma SkipCommaSuffix(text: string, from: string)
    requires IsSuffix(text, from)
    ensures IsSuffix(SkipComma(text), from)
  {
    SkipGapSuffix(text, from);
    if SkipGap(text) != "" {
      DropIsSuffix(SkipGap(text), 1, from);
    }
  }

  lemma ParseStringSuffix(text: string, from: string)
    requires IsSuffix(text, from)
    ensures IsSuffix(ParseString(text).rest, from)
  {
    if text != "" {
      DropIsSuffix(text, 1, from);
      var at := QuoteAt(text[1..]);
      if at.Some? {
        DropIsSuffix(text[1..], at.value + 1, from);
      }
    }
  }

  lemma ParseNumberSuffix(text: string, from: string)
    requires IsSuffix(text, from)
    ensures IsSuffix(ParseNumber(text).rest, from)
  {
    var sign := if text != "" && text[0] == '-' then 1 else 0;
    DropIsSuffix(text, sign, from);
    DropIsSuffix(text[sign..], |DigitRun(text[sign..])|, from);
  }

  lemma ParseLiteralSuffix(text: string, literal: string, value: Json, from: string)
    requires literal != "" && IsSuffix(text, from)
    ensures IsSuffix(ParseLiteral(text, literal, value).rest, from)
  {
    if literal <= text {
      DropIsSuffix(text, |literal|, from);
    }
  }

  lemma ParseBooleanSuffix(text: string, from: string)
    requires IsSuffix(text, from)
    ensures IsSuffix(ParseBoolean(text).rest, from)
  {
    ParseLiteralSuffix(text, "true", Boolean(true), from);
    ParseLiteralSuffix(text, "false", Boolean(false), from);
  }

  /** The parser only moves forward: whatever it read, it leaves a suffix of its input, and a strictly
      shorter one when it read a value. */
  lemma {:induction false} ParseLeavesSuffix(text: string)
    ensures IsSuffix(ParseValue(text).rest, text)
    ensures ParseValue(text).value.Some? ==> |ParseValue(text).rest| < |text|
  {
    ParseValueSuffix(text, text);
  }

  lemma {:induction false} ParseValueSuffix(text: string, from: string)
    requires IsSuffix(text, from)
    ensures IsSuffix(ParseValue(text).rest, from)
    decreases |text|, 1
  {
    hide SkipGap, ParseItems, ParseMembers, ParseNumber, ParseLiteral, ParseBoolean, ParseString, IsSuffix;
    SkipGapSuffix(text, from);
    var text := SkipGap(text);
    if text != "" {
      var c := text[0];
      if c == '[' {
        DropIsSuffix(text, 1, from);
        ParseItemsSuffix(text[1..], [], from);
      } else if c == '{' {
        DropIsSuffix(text, 1, from);
        ParseMembersSuffix(text[1..], map[], from);
      } else if c == '"' {
        ParseStringSuffix(text, from);
      } else if c in "ntf" {
        ParseLiteralSuffix(text, "null", Null, from);
        ParseBooleanSuffix(text, from);
      } else {
        ParseNumberSuffix(text, from);
      }
    }
  }

  lemma {:induction false} ParseItemsSuffix(text: string, items: seq<Json>, from: string)
    requires IsSuffix(text, from)
    ensures IsSuffix(ParseItems(text, items).rest, from)
    decreases |text|, 2
  {
    SkipGapSuffix(text, from);
    var text := SkipGap(text);
    if text != "" {
      DropIsSuffix(text, 1, from);
      if text[0] != ']' {
        var item := ParseValue(text);
        ParseValueSuffix(text, from);
        SkipCommaSuffix(item.rest, from);
        if item.value.Some? {
          ParseItemsSuffix(SkipComma(item.rest), items + [item.value.value], from);
        }
      }
    }
  }

  lemma {:induction false} ParseMembersSuffix(text: string, members: map<string, Json>, from: string)
    requires IsSuffix(text, from)
    ensures IsSuffix(ParseMembers(text, members).rest, from)
    decreases |text|, 2
  {
    SkipGapSuffix(text, from);
    var text := SkipGap(text);
    if text != "" {
      DropIsSuffix(text, 1, from);
      if text[0] != '}' {
        ParseNameSuffix(text, from);
        var name := ParseName(text);
        if name.value.Some? {
          var value := ParseValue(name.rest);
          ParseValueSuffix(name.rest, from);
          SkipCommaSuffix(value.rest, from);
          if value.value.Some? {
            ParseMembersSuffix(SkipComma(value.rest), members[name.value.value := value.value.value], from);
          }
        }
      }
    }
  }

  lemma ParseNameSuffix(text: string, from: string)
    requires IsSuffix(text, from)
    ensures IsSuffix(ParseName(text).rest, from)
  {
    ParseStringSuffix(text, from);
    var key := ParseString(text);
    SkipGapSuffix(key.rest, from);
    if SkipGap(key.rest) != "" {
      DropIsSuffix(SkipGap(key.rest), 1, from);
    }
  }
}

/** The items of an enumeration, read from its declaration as it was written in the program. */
module EnumDefinitions {
  import opened Wrappers
  import opened Strings
  import opened Sequences
  import opened NamedEnums

  const WIDE_LIMIT: nat := 0x1_0000_0000_0000_0000

  /** The values that declarations are evaluated in, of 64 bits. */
  type Wide = n: nat | n < WIDE_LIMIT

  /** Only the low 32 bits are kept. */
  function Narrow(value: Wide): Bits {
    (value % 0x1_0000_0000) as Bits
  }

  /** A 32-bit value with its sign extended. */
  function Widen(bits: Bits): Wide {
    if (bits as nat) < INT_LIMIT then bits as nat else bits as nat + (WIDE_LIMIT - 0x1_0000_0000)
  }

  function Negated(value: Wide): Wide {
    (WIDE_LIMIT - value) % WIDE_LIMIT
  }

  function Complement(value: Wide): Wide {
    WIDE_LIMIT - 1 - value
  }

  /** The bits of either value. */
  function Either(a: Wide, b: Wide): Wide {
    assert Pow2(64) == WIDE_LIMIT by { Pow2Is(); }
    EitherBits(a, b, 64)
  }

  function Pow2(width: nat): nat {
    if width == 0 then 1 else 2 * Pow2(width - 1)
  }

  lemma Pow2Is()
    ensures Pow2(64) == WIDE_LIMIT
  {
    assert Pow2(8) == 0x100;
    Pow2Adds(8, 8);
    Pow2Adds(16, 16);
    Pow2Adds(32, 32);
  }

  lemma {:induction false} Pow2Adds(a: nat, b: nat)
    ensures Pow2(a + b) == Pow2(a) * Pow2(b)
  {
    if b > 0 {
      Pow2Adds(a, b - 1);
      Twice(Pow2(a), Pow2(b - 1));
    }
  }

  lemma Twice(a: nat, b: nat)
    ensures a * (2 * b) == 2 * (a * b)
  {
  }

  function EitherBits(a: nat, b: nat, width: nat): (r: nat)
    requires a < Pow2(width) && b < Pow2(width)
    ensures r < Pow2(width)
  {
    if width == 0 then 0
    else 2 * EitherBits(a / 2, b / 2, width - 1) + (if a % 2 == 1 || b % 2 == 1 then 1 else 0)
  }

  function After(value: Wide): Wide {
    (value + 1) % WIDE_LIMIT
  }

  /** A number, unless it does not fit. */
  function InRange(n: nat): Option<Wide> {
    if n < WIDE_LIMIT then Some(n) else None
  }

  // ---------------------------------------------------------------- reading

  predicate IsHex(c: char) {
    HexValue(c).Some?
  }

  predicate AllHex(text: string) {
    forall i | 0 <= i < |text| :: IsHex(text[i])
  }

  /** The digits at the start of the text, as std::from_chars consumes them in base 16. */
  function HexRun(text: string): (run: string)
    ensures run <= text && AllHex(run)
  {
    if text == "" || !IsHex(text[0]) then "" else [text[0]] + HexRun(text[1..])
  }

  function HexNumber(digits: string): nat
    requires AllHex(digits)
  {
    if digits == "" then 0 else HexNumber(digits[..|digits| - 1]) * 16 + HexValue(digits[|digits| - 1]).value
  }

  predicate IsSuffixChar(c: char) {
    c in "uUlL"
  }

  predicate AllSuffix(text: string) {
    forall i | 0 <= i < |text| :: IsSuffixChar(text[i])
  }

  /** A number: digits that fit 64 bits, and then only letters of an integer suffix. */
  function NumberIn(text: string): Option<Wide> {
    if |text| > 2 && text[0] == '0' && (text[1] == 'x' || text[1] == 'X') then
      var digits := HexRun(text[2..]);
      if digits == "" || !AllSuffix(text[2..][|digits|..]) then None else InRange(HexNumber(digits))
    else
      var digits := DigitRun(text);
      if digits == "" || !AllSuffix(text[|digits|..]) then None else InRange(NatOfDigits(digits))
  }

  /** The value of the first item of this name. */
  function Lookup(items: seq<Item>, name: string): Option<Wide> {
    if items == [] then None
    else if items[0].name == name then Some(Widen(items[0].value))
    else Lookup(items[1..], name)
  }

  /** The value of an operand that has no blanks around it; none where the library throws. */
  function Operand(items: seq<Item>, text: string): Option<Wide>
    decreases |text|
  {
    if text != "" && text[0] == '~' then
      var value :- Operand(items, Trim(text[1..]));
      Some(Complement(value))
    else if text != "" && text[0] == '-' then
      var value :- Operand(items, Trim(text[1..]));
      Some(Negated(value))
    else if text != "" && IsDigit(text[0]) then NumberIn(text)
    else Lookup(items, text)
  }

  /** The union of a value with the operands in these parts. */
  function Operands(items: seq<Item>, parts: seq<string>, result: Wide): Option<Wide>
    decreases |parts|
  {
    if parts == [] then Some(result)
    else
      var value :- Operand(items, Trim(parts[0]));
      Operands(items, parts[1..], Either(result, value))
  }

  function Evaluate(items: seq<Item>, expression: string): Option<Wide> {
    Operands(items, Split(expression, '|'), 0)
  }

  /** The items of a declaration, of which some are read already, with the value that comes next. */
  function Entries(entries: seq<string>, items: seq<Item>, next: Wide): Option<seq<Item>>
    decreases |entries|
  {
    if entries == [] then Some(items)
    else
      var separator := UpTo(entries[0], '=');
      var name := Trim(entries[0][..separator]);
      if name == "" then Entries(entries[1..], items, next)
      else
        var value :- if separator == |entries[0]| then Some(next) else Evaluate(items, entries[0][separator + 1..]);
        Entries(entries[1..], items + [Item(name, Narrow(value))], After(value))
  }

  function DeclaredItems(text: string): Option<seq<Item>> {
    Entries(Split(text, ','), [], 0)
  }

  method EvaluateValue(items: seq<Item>, expression: string) returns (value: Option<Wide>)
    ensures value == Evaluate(items, expression)
  {
    hide Split, Operand, Either, Trim;
    var result: Wide := 0;
    var parts := SplitText(expression, '|');
    assert parts[0..] == parts;
    for i := 0 to |parts|
      invariant Operands(items, parts[i..], result) == Evaluate(items, expression)
    {
      assert parts[i..][1..] == parts[i + 1..];
      var operand := Operand(items, Trim(parts[i]));
      if operand.None? {
        return None;
      }
      result := Either(result, operand.value);
    }
    value := Some(result);
  }

  method ParseDefinition(text: string) returns (definition: Option<seq<Item>>)
    ensures definition == DeclaredItems(text)
  {
    hide Split, Trim, Evaluate, Narrow, After;
    var items := [];
    var next: Wide := 0;
    var entries := SplitText(text, ',');
    assert entries[0..] == entries;
    for i := 0 to |entries|
      invariant Entries(entries[i..], items, next) == DeclaredItems(text)
    {
      assert entries[i..][1..] == entries[i + 1..];
      var separator := UpTo(entries[i], '=');
      var name := Trim(entries[i][..separator]);
      if name == "" {
        continue;
      }
      var value := Some(next);
      if separator < |entries[i]| {
        value := EvaluateValue(items, entries[i][separator + 1..]);
      }
      if value.None? {
        return None;
      }
      items := items + [Item(name, Narrow(value.value))];
      next := After(value.value);
    }
    definition := Some(items);
  }

  // ---------------------------------------------------------------- declarations as the language has them

  /** An operand, with the blanks inside it. */
  datatype Term =
    | NotTerm(gap: string, of: Term)
    | MinusTerm(gap: string, of: Term)
    | DigitsTerm(digits: string, suffix: string)
    | HexTerm(x: char, digits: string, suffix: string)
    | NameTerm(name: string)

  /** An operand and the blanks around it. */
  datatype Part = Part(before: string, term: Term, after: string)

  predicate AllOctal(digits: string) {
    forall i | 0 <= i < |digits| :: '0' <= digits[i] <= '7'
  }

  /** The number that octal digits stand for. */
  function OctalOf(digits: string): nat
    requires AllOctal(digits)
  {
    if digits == "" then 0 else OctalOf(digits[..|digits| - 1]) * 8 + (digits[|digits| - 1] - '0') as nat
  }

  /** An enumerator: its name with the blanks around it, and its value if it has one. */
  datatype Enumerator = Enumerator(before: string, name: string, after: string, value: seq<Part>)

  /** The forms of operands that the library reads. */
  predicate Readable(t: Term) {
    match t
    case NotTerm(gap, of) => AllBlank(gap) && Readable(of)
    case MinusTerm(gap, of) => AllBlank(gap) && Readable(of)
    case DigitsTerm(digits, suffix) => digits != "" && AllDigits(digits) && AllSuffix(suffix)
    case HexTerm(x, digits, suffix) => (x == 'x' || x == 'X') && digits != "" && AllHex(digits) && AllSuffix(suffix)
    case NameTerm(name) => IsIdentifier(name)
  }

  /** Those of them that the language has too: digits after a zero are octal. */
  predicate ValidTerm(t: Term): (r: bool)
    ensures r ==> Readable(t)
  {
    Readable(t) && OctalAfterZero(t)
  }

  predicate OctalAfterZero(t: Term)
    requires Readable(t)
  {
    match t
    case NotTerm(_, of) => OctalAfterZero(of)
    case MinusTerm(_, of) => OctalAfterZero(of)
    case DigitsTerm(digits, _) => digits[0] == '0' ==> AllOctal(digits)
    case _ => true
  }

  predicate ValidParts(parts: seq<Part>) {
    forall i | 0 <= i < |parts| :: AllBlank(parts[i].before) && ValidTerm(parts[i].term) && AllBlank(parts[i].after)
  }

  predicate ValidEnumerator(e: Enumerator) {
    AllBlank(e.before) && IsIdentifier(e.name) && AllBlank(e.after) && ValidParts(e.value)
  }

  function TermText(t: Term): string {
    match t
    case NotTerm(gap, of) => "~" + (gap + TermText(of))
    case MinusTerm(gap, of) => "-" + (gap + TermText(of))
    case DigitsTerm(digits, suffix) => digits + suffix
    case HexTerm(x, digits, suffix) => "0" + [x] + (digits + suffix)
    case NameTerm(name) => name
  }

  function PartText(part: Part): string {
    part.before + TermText(part.term) + part.after
  }

  function PartTexts(parts: seq<Part>): (texts: seq<string>)
    ensures |texts| == |parts|
  {
    seq(|parts|, i requires 0 <= i < |parts| => PartText(parts[i]))
  }

  function JoinWith(texts: seq<string>, delimiter: char): string {
    if texts == [] then ""
    else if |texts| == 1 then texts[0]
    else texts[0] + ([delimiter] + JoinWith(texts[1..], delimiter))
  }

  function EnumeratorText(e: Enumerator): string {
    var name := e.before + e.name + e.after;
    if e.value == [] then name else name + ("=" + JoinWith(PartTexts(e.value), '|'))
  }

  function EnumeratorTexts(es: seq<Enumerator>): (texts: seq<string>)
    ensures |texts| == |es|
  {
    seq(|es|, i requires 0 <= i < |es| => EnumeratorText(es[i]))
  }

  // ---------------------------------------------------------------- their meaning

  /** The number that digits stand for; in the language a leading zero makes them octal. */
  function DigitsValue(digits: string, octal: bool): Option<Wide>
    requires digits != "" && AllDigits(digits) && (octal && digits[0] == '0' ==> AllOctal(digits))
  {
    if octal && digits[0] == '0' then InRange(OctalOf(digits)) else InRange(NatOfDigits(digits))
  }

  /** The value of an operand, where the enumerators before it are known; none for an unknown name or a number that
      does not fit. */
  function TermValue(items: seq<Item>, t: Term, octal: bool): Option<Wide>
    requires Readable(t) && (octal ==> ValidTerm(t))
  {
    match t
    case NotTerm(_, of) =>
      var value :- TermValue(items, of, octal);
      Some(Complement(value))
    case MinusTerm(_, of) =>
      var value :- TermValue(items, of, octal);
      Some(Negated(value))
    case DigitsTerm(digits, _) => DigitsValue(digits, octal)
    case HexTerm(_, digits, _) => InRange(HexNumber(digits))
    case NameTerm(name) => Lookup(items, name)
  }

  function PartsValue(items: seq<Item>, parts: seq<Part>, result: Wide, octal: bool): Option<Wide>
    requires ValidParts(parts)
    decreases |parts|
  {
    if parts == [] then Some(result)
    else
      var value :- TermValue(items, parts[0].term, octal);
      PartsValue(items, parts[1..], Either(result, value), octal)
  }

  /** The items that enumerators declare: each one has its own value, or the one after the value before it. */
  function ItemsOf(es: seq<Enumerator>, items: seq<Item>, next: Wide, octal: bool): Option<seq<Item>>
    requires AllValid(es)
    decreases |es|
  {
    if es == [] then Some(items)
    else
      assert ValidEnumerator(es[0]);
      var value :- if es[0].value == [] then Some(next) else PartsValue(items, es[0].value, 0, octal);
      ItemsOf(es[1..], items + [Item(es[0].name, Narrow(value))], After(value), octal)
  }

  predicate AllValid(es: seq<Enumerator>) {
    forall i | 0 <= i < |es| :: ValidEnumerator(es[i])
  }

  // ---------------------------------------------------------------- octal numbers

  /** No octal number in it is eight or more as a decimal number. */
  predicate SmallOctals(t: Term)
    requires ValidTerm(t)
  {
    match t
    case NotTerm(_, of) => SmallOctals(of)
    case MinusTerm(_, of) => SmallOctals(of)
    case DigitsTerm(digits, _) => digits[0] == '0' ==> NatOfDigits(digits) < 8
    case _ => true
  }

  predicate AllSmall(parts: seq<Part>)
    requires ValidParts(parts)
  {
    forall i | 0 <= i < |parts| :: SmallOctals(parts[i].term)
  }

  lemma {:induction false} OctalOrDecimal(digits: string)
    requires AllOctal(digits)
    ensures AllDigits(digits) && OctalOf(digits) <= NatOfDigits(digits)
    ensures OctalOf(digits) == NatOfDigits(digits) <==> NatOfDigits(digits) < 8
    ensures OctalOf(digits) < 8 ==> NatOfDigits(digits) < 18
  {
    if digits != "" {
      OctalOrDecimal(digits[..|digits| - 1]);
    }
  }

  /** An octal number is read right if and only if it is less than eight as a decimal number. */
  lemma OctalIsRead(items: seq<Item>, digits: string, suffix: string)
    requires ValidTerm(DigitsTerm(digits, suffix)) && digits[0] == '0' && OctalOf(digits) < WIDE_LIMIT
    ensures Operand(items, digits + suffix) == Some(OctalOf(digits)) <==> NatOfDigits(digits) < 8
  {
    hide NatOfDigits, OctalOf, AllOctal, AllSuffix;
    OperandReads(items, DigitsTerm(digits, suffix));
    OctalOrDecimal(digits);
  }

  /** One that is read wrong. */
  lemma OctalTenIsReadAsTen(items: seq<Item>)
    ensures Operand(items, "010") == Some(10)
    ensures ValidTerm(DigitsTerm("010", "")) && TermValue(items, DigitsTerm("010", ""), true) == Some(8)
  {
    assert "010"[..2] == "01" && "01"[..1] == "0" && "0"[..0] == "";
    assert NatOfDigits("0") == 0 && NatOfDigits("01") == 1 && NatOfDigits("010") == 10;
    assert OctalOf("0") == 0 && OctalOf("01") == 1 && OctalOf("010") == 8;
    hide NatOfDigits, OctalOf;
    OperandReads(items, DigitsTerm("010", ""));
    assert "010" + "" == "010";
  }

  lemma {:induction false} TermIsTheSame(items: seq<Item>, t: Term)
    requires ValidTerm(t) && SmallOctals(t)
    ensures TermValue(items, t, true) == TermValue(items, t, false)
  {
    hide NatOfDigits, OctalOf, Lookup, HexNumber, AllOctal;
    match t
    case NotTerm(_, of) => TermIsTheSame(items, of);
    case MinusTerm(_, of) => TermIsTheSame(items, of);
    case DigitsTerm(digits, _) =>
      if digits[0] == '0' {
        OctalOrDecimal(digits);
      }
    case _ =>
  }

  lemma {:induction false} PartsAreTheSame(items: seq<Item>, parts: seq<Part>, result: Wide)
    requires ValidParts(parts) && AllSmall(parts)
    ensures PartsValue(items, parts, result, true) == PartsValue(items, parts, result, false)
    decreases |parts|
  {
    hide TermValue, SmallOctals, ValidTerm, AllBlank, Either;
    if parts != [] {
      TermIsTheSame(items, parts[0].term);
      var value := TermValue(items, parts[0].term, false);
      if value.Some? {
        PartsAreTheSame(items, parts[1..], Either(result, value.value));
      }
    }
  }

  /** Without such numbers, what is read is what the language declares. */
  lemma {:induction false} ItemsAreTheSame(es: seq<Enumerator>, items: seq<Item>, next: Wide)
    requires AllValid(es) && forall i | 0 <= i < |es| :: ValidParts(es[i].value) && AllSmall(es[i].value)
    ensures ItemsOf(es, items, next, true) == ItemsOf(es, items, next, false)
    decreases |es|
  {
    hide PartsValue, AllSmall, ValidParts, ValidEnumerator, Narrow, After;
    if es != [] {
      var e := es[0];
      assert ValidEnumerator(e);
      PartsAreTheSame(items, e.value, 0);
      var value := if e.value == [] then Some(next) else PartsValue(items, e.value, 0, false);
      if value.Some? {
        ItemsAreTheSame(es[1..], items + [Item(e.name, Narrow(value.value))], After(value.value));
      }
    }
  }

  // ---------------------------------------------------------------- operands

  /** No character that separates enumerators, operands, or a name and its value. */
  predicate Plain(text: string) {
    ',' !in text && '|' !in text && '=' !in text
  }

  lemma BlanksArePlain(text: string)
    requires AllBlank(text)
    ensures Plain(text)
  {
  }

  lemma DigitsArePlain(digits: string, suffix: string)
    requires digits != "" && AllDigits(digits) && AllSuffix(suffix)
    ensures Plain(digits + suffix) && Tight(digits + suffix) && IsDigit((digits + suffix)[0])
  {
    assert forall i | 0 <= i < |digits| :: IsDigit(digits[i]);
    assert forall i | 0 <= i < |suffix| :: IsSuffixChar(suffix[i]);
  }

  lemma HexIsPlain(x: char, digits: string, suffix: string)
    requires (x == 'x' || x == 'X') && AllHex(digits) && AllSuffix(suffix) && digits != ""
    ensures var text := "0" + [x] + (digits + suffix); Plain(text) && Tight(text)
  {
    assert forall i | 0 <= i < |digits| :: IsHex(digits[i]);
    assert forall i | 0 <= i < |suffix| :: IsSuffixChar(suffix[i]);
  }

  lemma NameIsPlain(name: string)
    requires IsIdentifier(name)
    ensures Plain(name) && Tight(name)
  {
    assert forall i | 0 <= i < |name| :: IsIdentifierChar(name[i]);
  }

  lemma {:induction false} TermIsPlain(t: Term)
    requires Readable(t)
    ensures Plain(TermText(t)) && Tight(TermText(t))
  {
    hide IsIdentifier, AllDigits, AllHex, AllSuffix, AllBlank, IsBlank;
    match t
    case NotTerm(gap, of) =>
      BlanksArePlain(gap);
      TermIsPlain(of);
      SignIsTight('~', gap, TermText(of));
    case MinusTerm(gap, of) =>
      BlanksArePlain(gap);
      TermIsPlain(of);
      SignIsTight('-', gap, TermText(of));
    case DigitsTerm(digits, suffix) => DigitsArePlain(digits, suffix);
    case HexTerm(x, digits, suffix) => HexIsPlain(x, digits, suffix);
    case NameTerm(name) => NameIsPlain(name);
  }

  lemma SignIsTight(sign: char, gap: string, text: string)
    requires sign in "~-" && Tight(text)
    ensures Tight([sign] + (gap + text))
  {
  }

  lemma {:induction false} HexRunStops(digits: string, rest: string)
    requires AllHex(digits) && (rest == "" || !IsHex(rest[0]))
    ensures HexRun(digits + rest) == digits
  {
    if digits == "" {
      assert digits + rest == rest;
    } else {
      assert (digits + rest)[1..] == digits[1..] + rest;
      HexRunStops(digits[1..], rest);
    }
  }

  lemma DecimalReads(digits: string, suffix: string)
    requires Readable(DigitsTerm(digits, suffix))
    ensures NumberIn(digits + suffix) == InRange(NatOfDigits(digits))
  {
    hide NatOfDigits, HexNumber, AllOctal;
    var text := digits + suffix;
    assert suffix != "" ==> IsSuffixChar(suffix[0]);
    DigitRunStops(digits, suffix);
    assert text[|digits|..] == suffix;
    if |text| > 2 && text[0] == '0' {
      assert text[1] == if |digits| > 1 then digits[1] else suffix[0];
      assert |digits| > 1 ==> IsDigit(digits[1]);
    }
  }

  lemma HexReads(x: char, digits: string, suffix: string)
    requires Readable(HexTerm(x, digits, suffix))
    ensures NumberIn("0" + [x] + (digits + suffix)) == InRange(HexNumber(digits))
  {
    hide NatOfDigits, HexNumber, AllOctal;
    var text := "0" + [x] + (digits + suffix);
    assert suffix != "" ==> IsSuffixChar(suffix[0]);
    HexRunStops(digits, suffix);
    assert text[2..] == digits + suffix && (digits + suffix)[|digits|..] == suffix;
  }

  lemma NameReads(items: seq<Item>, name: string)
    requires IsIdentifier(name)
    ensures Operand(items, name) == Lookup(items, name)
  {
    assert IsIdentifierChar(name[0]);
  }

  /** An operand without blanks around it is read as its value. */
  lemma {:induction false} OperandReads(items: seq<Item>, t: Term)
    requires Readable(t)
    ensures Operand(items, TermText(t)) == TermValue(items, t, false)
  {
    hide NumberIn, Trim, Lookup, IsIdentifier, AllBlank, Tight;
    match t
    case NotTerm(gap, of) =>
      SignedReads('~', gap, of);
      OperandReads(items, of);
    case MinusTerm(gap, of) =>
      SignedReads('-', gap, of);
      OperandReads(items, of);
    case DigitsTerm(digits, suffix) =>
      DecimalReads(digits, suffix);
      DigitsArePlain(digits, suffix);
    case HexTerm(x, digits, suffix) =>
      HexReads(x, digits, suffix);
    case NameTerm(name) =>
      NameReads(items, name);
  }

  lemma SignedReads(sign: char, gap: string, of: Term)
    requires AllBlank(gap) && Readable(of)
    ensures var text := [sign] + (gap + TermText(of)); text[0] == sign && Trim(text[1..]) == TermText(of)
  {
    hide TermText, Trim;
    TermIsPlain(of);
    TrimBlanks(gap, TermText(of), "");
    assert gap + TermText(of) + "" == gap + TermText(of);
    assert ([sign] + (gap + TermText(of)))[1..] == gap + TermText(of);
  }

  /** An operand that is read leads back to the blanks and the operand after its sign. */
  lemma {:induction false} GapOf(text: string) returns (gap: string)
    ensures AllBlank(gap) && text == gap + TrimStart(text)
  {
    if text != "" && IsBlank(text[0]) {
      var more := GapOf(text[1..]);
      gap := [text[0]] + more;
      Regroup([text[0]], more, TrimStart(text[1..]));
    } else {
      gap := "";
    }
  }

  /** The rest of an operand after its sign. */
  lemma AfterSign(text: string) returns (gap: string)
    requires text != "" && !IsBlank(text[|text| - 1]) && (text[0] == '~' || text[0] == '-')
    ensures AllBlank(gap) && text == [text[0]] + (gap + Trim(text[1..]))
    ensures Trim(text[1..]) == "" || Tight(Trim(text[1..]))
  {
    hide IsBlank, AllBlank;
    gap := GapOf(text[1..]);
    var rest := TrimStart(text[1..]);
    if rest != "" {
      assert text[|text| - 1] == rest[|rest| - 1];
    }
    assert TrimEnd(rest) == rest;
  }

  lemma {:induction false} FoundIsName(items: seq<Item>, name: string)
    requires (forall i | 0 <= i < |items| :: IsIdentifier(items[i].name)) && Lookup(items, name).Some?
    ensures IsIdentifier(name)
  {
    hide IsIdentifier;
    if items[0].name != name {
      FoundIsName(items[1..], name);
    }
  }

  lemma NumberIsTerm(text: string) returns (t: Term)
    requires NumberIn(text).Some?
    ensures Readable(t) && TermText(t) == text
  {
    hide NatOfDigits, HexNumber, HexRun, DigitRun, AllHex, AllDigits;
    if |text| > 2 && text[0] == '0' && (text[1] == 'x' || text[1] == 'X') {
      var digits := HexRun(text[2..]);
      t := HexTerm(text[1], digits, text[2..][|digits|..]);
      assert text == "0" + [text[1]] + text[2..];
    } else {
      var digits := DigitRun(text);
      t := DigitsTerm(digits, text[|digits|..]);
    }
  }

  /** The converse: what is read as an operand is one of these forms. */
  lemma {:induction false} ReadIsTerm(items: seq<Item>, text: string) returns (t: Term)
    requires forall i | 0 <= i < |items| :: IsIdentifier(items[i].name)
    requires Tight(text) && Operand(items, text).Some?
    ensures Readable(t) && TermText(t) == text
    decreases |text|
  {
    hide NumberIn, Trim, AllBlank, IsIdentifier, Lookup;
    if text[0] == '~' || text[0] == '-' {
      var gap := AfterSign(text);
      var rest := Trim(text[1..]);
      if rest == "" {
        NoOperand(items);
      }
      var of := ReadIsTerm(items, rest);
      t := if text[0] == '~' then NotTerm(gap, of) else MinusTerm(gap, of);
    } else if IsDigit(text[0]) {
      t := NumberIsTerm(text);
    } else {
      FoundIsName(items, text);
      t := NameTerm(text);
    }
  }

  lemma NoOperand(items: seq<Item>)
    requires forall i | 0 <= i < |items| :: IsIdentifier(items[i].name)
    ensures Operand(items, "") == None
  {
    if Lookup(items, "").Some? {
      FoundIsName(items, "");
    }
  }

  /** An operand is read exactly when it is one of these forms and has a value. */
  lemma OperandsReadExactly(items: seq<Item>, text: string)
    requires (forall i | 0 <= i < |items| :: IsIdentifier(items[i].name)) && Tight(text)
    ensures Operand(items, text).Some? <==>
      exists t :: Readable(t) && TermText(t) == text && TermValue(items, t, false).Some?
  {
    hide Operand, Readable, TermText, TermValue, IsIdentifier, Tight;
    if Operand(items, text).Some? {
      var t := ReadIsTerm(items, text);
      OperandReads(items, t);
    }
    if t :| Readable(t) && TermText(t) == text && TermValue(items, t, false).Some? {
      OperandReads(items, t);
    }
  }

  predicate IsOperandChar(c: char) {
    IsIdentifierChar(c) || IsBlank(c) || c == '~' || c == '-'
  }

  lemma {:induction false} TermHasOperandChars(t: Term)
    requires Readable(t)
    ensures forall c | c in TermText(t) :: IsOperandChar(c)
  {
    hide IsBlank;
    match t
    case NotTerm(_, of) => TermHasOperandChars(of);
    case MinusTerm(_, of) => TermHasOperandChars(of);
    case DigitsTerm(digits, suffix) =>
      assert forall c | c in digits :: IsDigit(c);
      assert forall c | c in suffix :: IsSuffixChar(c);
    case HexTerm(_, digits, suffix) =>
      assert forall c | c in digits :: IsHex(c);
      assert forall c | c in suffix :: IsSuffixChar(c);
    case NameTerm(name) =>
  }

  /** So parentheses, shifts, sums, characters and separated numbers, which the language has as well, are refused. */
  lemma OtherOperandsAreRefused(items: seq<Item>, text: string, c: char)
    requires (forall i | 0 <= i < |items| :: IsIdentifier(items[i].name)) && Tight(text)
    requires c in text && !IsOperandChar(c)
    ensures Operand(items, text) == None
  {
    hide Operand, Readable, TermText, IsIdentifier, Tight, IsOperandChar;
    if Operand(items, text).Some? {
      var t := ReadIsTerm(items, text);
      TermHasOperandChars(t);
    }
  }

  // ---------------------------------------------------------------- lists

  lemma CutAfter(first: string, delimiter: char, rest: string)
    ensures var text := first + ([delimiter] + rest);
      text[..|first|] == first && text[|first|] == delimiter && text[|first| + 1..] == rest
    ensures first + ([delimiter] + "") == first + [delimiter]
  {
  }

  lemma JoinedOneMore(texts: seq<string>, delimiter: char, end: string)
    requires |texts| > 1
    ensures JoinWith(texts, delimiter) + end == texts[0] + ([delimiter] + (JoinWith(texts[1..], delimiter) + end))
  {
    var rest := JoinWith(texts[1..], delimiter);
    Regroup([delimiter], rest, end);
    Regroup(texts[0], [delimiter] + rest, end);
  }

  /** Joined texts are split again at each delimiter, with or without a delimiter after the last one. */
  lemma {:induction false} SplitJoined(texts: seq<string>, delimiter: char, isClosed: bool)
    requires texts != [] && texts[|texts| - 1] != "" && forall i | 0 <= i < |texts| :: delimiter !in texts[i]
    ensures Split(JoinWith(texts, delimiter) + if isClosed then [delimiter] else "", delimiter) == texts
  {
    hide Split;
    var end := if isClosed then [delimiter] else "";
    var text := JoinWith(texts, delimiter) + end;
    if |texts| == 1 {
      if isClosed {
        CutAfter(texts[0], delimiter, "");
        PartEnds(text, |texts[0]|, delimiter);
        NoParts(delimiter);
      } else {
        assert text == texts[0];
        LastPart(text, delimiter);
      }
    } else {
      var rest := JoinWith(texts[1..], delimiter) + end;
      JoinedOneMore(texts, delimiter, end);
      hide JoinWith;
      CutAfter(texts[0], delimiter, rest);
      PartEnds(text, |texts[0]|, delimiter);
      SplitJoined(texts[1..], delimiter, isClosed);
    }
  }

  lemma {:induction false} JoinedIsPlain(texts: seq<string>)
    requires forall i | 0 <= i < |texts| :: Plain(texts[i])
    ensures ',' !in JoinWith(texts, '|')
  {
    if |texts| > 1 {
      JoinedIsPlain(texts[1..]);
    }
  }

  lemma PartIsPlain(part: Part)
    requires AllBlank(part.before) && ValidTerm(part.term) && AllBlank(part.after)
    ensures Plain(PartText(part)) && PartText(part) != "" && Trim(PartText(part)) == TermText(part.term)
  {
    hide TermText, ValidTerm, AllBlank, Trim;
    TermIsPlain(part.term);
    BlanksArePlain(part.before);
    BlanksArePlain(part.after);
    TrimBlanks(part.before, TermText(part.term), part.after);
  }

  lemma {:induction false} PartsRead(items: seq<Item>, parts: seq<Part>, result: Wide)
    requires ValidParts(parts)
    ensures Operands(items, PartTexts(parts), result) == PartsValue(items, parts, result, false)
    decreases |parts|
  {
    hide Operand, TermValue, Trim, TermText, ValidTerm, AllBlank, Either, PartText;
    if parts != [] {
      PartIsPlain(parts[0]);
      OperandReads(items, parts[0].term);
      assert PartTexts(parts)[1..] == PartTexts(parts[1..]);
      var value := TermValue(items, parts[0].term, false);
      if value.Some? {
        PartsRead(items, parts[1..], Either(result, value.value));
      }
    }
  }

  /** Operands joined with | are read as the union of their values. */
  lemma ExpressionReads(items: seq<Item>, parts: seq<Part>)
    requires ValidParts(parts) && parts != []
    ensures Evaluate(items, JoinWith(PartTexts(parts), '|')) == PartsValue(items, parts, 0, false)
    ensures ',' !in JoinWith(PartTexts(parts), '|')
  {
    hide Operands, PartsValue, Split, JoinWith, ValidTerm, AllBlank, PartText;
    var texts := PartTexts(parts);
    forall i | 0 <= i < |parts|
      ensures Plain(texts[i]) && texts[i] != ""
    {
      PartIsPlain(parts[i]);
    }
    SplitJoined(texts, '|', false);
    assert JoinWith(texts, '|') + "" == JoinWith(texts, '|');
    JoinedIsPlain(texts);
    PartsRead(items, parts, 0);
  }

  // ---------------------------------------------------------------- what the operators mean

  /** A bit of a number, from the least significant one on. */
  function Bit(n: nat, k: nat): nat {
    if k == 0 then n % 2 else Bit(n / 2, k - 1)
  }

  lemma {:induction false} EitherBitsHave(a: nat, b: nat, width: nat, k: nat)
    requires a < Pow2(width) && b < Pow2(width) && k < width
    ensures Bit(EitherBits(a, b, width), k) == 1 <==> Bit(a, k) == 1 || Bit(b, k) == 1
    decreases width
  {
    EitherStep(a, b, width);
    hide EitherBits;
    if k > 0 {
      EitherBitsHave(a / 2, b / 2, width - 1, k - 1);
    }
  }

  lemma EitherStep(a: nat, b: nat, width: nat)
    requires a < Pow2(width) && b < Pow2(width) && width > 0
    ensures a / 2 < Pow2(width - 1) && b / 2 < Pow2(width - 1)
    ensures EitherBits(a, b, width) / 2 == EitherBits(a / 2, b / 2, width - 1)
    ensures EitherBits(a, b, width) % 2 == 1 <==> a % 2 == 1 || b % 2 == 1
  {
    var high := EitherBits(a / 2, b / 2, width - 1);
    Halves(high, 0);
    Halves(high, 1);
  }

  lemma Halves(high: nat, low: nat)
    requires low < 2
    ensures (2 * high + low) / 2 == high && (2 * high + low) % 2 == low
  {
  }

  /** The union has the bits that either operand has. */
  lemma EitherHasBits(a: Wide, b: Wide, k: nat)
    requires k < 64
    ensures Bit(Either(a, b), k) == 1 <==> Bit(a, k) == 1 || Bit(b, k) == 1
  {
    Pow2Is();
    hide Pow2, EitherBits, Bit;
    EitherBitsHave(a, b, 64, k);
  }

  lemma {:induction false} FlippedBits(n: nat, width: nat, k: nat)
    requires n < Pow2(width) && k < width
    ensures Bit(Pow2(width) - 1 - n, k) == 1 - Bit(n, k)
    decreases width
  {
    var p := Pow2(width - 1);
    assert (2 * p - 1 - n) / 2 == p - 1 - n / 2 && (2 * p - 1 - n) % 2 == 1 - n % 2;
    if k > 0 {
      FlippedBits(n / 2, width - 1, k - 1);
    }
  }

  /** The complement has the bits that the operand does not have. */
  lemma ComplementHasBits(value: Wide, k: nat)
    requires k < 64
    ensures Bit(Complement(value), k) == 1 - Bit(value, k)
  {
    Pow2Is();
    hide Pow2, Bit;
    FlippedBits(value, 64, k);
  }

  /** A value and its negation cancel out in 64 bits. */
  lemma NegationCancels(value: Wide)
    ensures (value + Negated(value)) % 0x1_0000_0000_0000_0000 == 0
  {
    if value == 0 {
      assert Negated(value) == 0;
    } else {
      assert Negated(value) == WIDE_LIMIT - value;
    }
  }

  /** The value of an item is its number, in two's complement of 64 bits. */
  lemma WidenIsSigned(bits: Bits)
    ensures Widen(bits) == Signed(bits) || Widen(bits) == Signed(bits) + 0x1_0000_0000_0000_0000
  {
  }

  lemma FourMore(width: nat)
    ensures Pow2(width + 4) == 16 * Pow2(width)
  {
    assert Pow2(width + 2) == 4 * Pow2(width);
  }

  lemma Sixteenth(n: nat, width: nat)
    requires width > 0 && n < Pow2(4 * width)
    ensures n / 16 < Pow2(4 * (width - 1))
  {
    FourMore(4 * (width - 1));
  }

  lemma OneMoreHexDigit(front: string, c: char)
    requires AllHex(front) && HexValue(c).Some?
    ensures AllHex(front + [c]) && HexNumber(front + [c]) == HexNumber(front) * 16 + HexValue(c).value
  {
    hide HexValue;
    assert (front + [c])[..|front|] == front;
  }

  lemma {:induction false} HexNumberOf(n: nat, capitals: seq<bool>)
    requires n < Pow2(4 * |capitals|)
    ensures AllHex(HexText(n, capitals)) && HexNumber(HexText(n, capitals)) == n
    decreases |capitals|
  {
    hide HexChar, HexValue, AllHex, HexNumber, Pow2;
    if capitals == [] {
      NoHexDigits();
    } else {
      var last := |capitals| - 1;
      Sixteenth(n, |capitals|);
      HexNumberOf(n / 16, capitals[..last]);
      HexCharHasValue(n % 16, capitals[last]);
      OneMoreHexDigit(HexText(n / 16, capitals[..last]), HexChar(n % 16, capitals[last]));
    }
  }

  lemma NoHexDigits()
    ensures AllHex("") && HexNumber("") == 0 && Pow2(0) == 1
  {
  }

  /** The letters of an integer suffix. */
  predicate IsSuffix(suffix: string) {
    forall i | 0 <= i < |suffix| :: suffix[i] == 'u' || suffix[i] == 'U' || suffix[i] == 'l' || suffix[i] == 'L'
  }

  /** A number in hex digits of any letter cases is read as that number if it fits 64 bits and nothing but an integer
      suffix follows. */
  lemma HexNumbersRead(items: seq<Item>, n: nat, capitals: seq<bool>, x: char, suffix: string)
    requires capitals != [] && n < Pow2(4 * |capitals|) && (x == 'x' || x == 'X') && (suffix == "" || !IsHex(suffix[0]))
    ensures Operand(items, "0" + [x] + (HexText(n, capitals) + suffix)) ==
            if IsSuffix(suffix) && n < 0x1_0000_0000_0000_0000 then Some(n) else None
  {
    hide HexText, HexNumber, HexRun, IsHex, DigitRun;
    HexNumberOf(n, capitals);
    var digits := HexText(n, capitals);
    HexRunStops(digits, suffix);
    var text := "0" + [x] + (digits + suffix);
    assert text[2..] == digits + suffix && (digits + suffix)[|digits|..] == suffix;
    SuffixIs(suffix);
  }

  /** The same for decimal digits. */
  lemma DecimalNumbersRead(items: seq<Item>, n: nat, suffix: string)
    requires suffix == "" || !IsDigit(suffix[0])
    requires n > 0 || suffix == "" || (suffix[0] != 'x' && suffix[0] != 'X')
    ensures Operand(items, DigitsOfNat(n) + suffix) ==
            if IsSuffix(suffix) && n < 0x1_0000_0000_0000_0000 then Some(n) else None
  {
    hide DigitsOfNat, NatOfDigits, HexNumber, HexRun, DigitRun;
    var digits := DigitsOfNat(n);
    NoLeadingZero(n);
    ZeroDigit(n);
    DigitRunStops(digits, suffix);
    var text := digits + suffix;
    assert text[|digits|..] == suffix && IsDigit(digits[0]) && text[0] == digits[0];
    assert |digits| == 1 && suffix != "" ==> text[1] == suffix[0];
    SuffixIs(suffix);
  }

  lemma ZeroDigit(n: nat)
    ensures |DigitsOfNat(n)| == 1 && DigitsOfNat(n)[0] == '0' ==> n == 0
  {
  }

  lemma SuffixIs(suffix: string)
    ensures IsSuffix(suffix) <==> AllSuffix(suffix)
  {
    forall i | 0 <= i < |suffix|
      ensures IsSuffixChar(suffix[i]) <==> suffix[i] == 'u' || suffix[i] == 'U' || suffix[i] == 'l' || suffix[i] == 'L'
    {
    }
  }

  // ---------------------------------------------------------------- enumerators

  /** An enumerator ends where its text ends, its name before its equals sign, and its value after that. */
  lemma NameHasNone(e: Enumerator, delimiter: char)
    requires ValidEnumerator(e) && (delimiter == ',' || delimiter == '=')
    ensures delimiter !in e.before + e.name + e.after && e.name != ""
  {
    hide AllBlank, ValidParts, IsIdentifier;
    NameIsPlain(e.name);
    BlanksArePlain(e.before);
    BlanksArePlain(e.after);
  }

  lemma EnumeratorSplits(e: Enumerator)
    requires ValidEnumerator(e)
    ensures var text := EnumeratorText(e); var separator := UpTo(text, '=');
      && text != "" && ',' !in text
      && Trim(text[..separator]) == e.name && e.name != ""
      && (separator == |text| <==> e.value == [])
      && (e.value != [] ==> text[separator + 1..] == JoinWith(PartTexts(e.value), '|'))
  {
    hide Trim, AllBlank, ValidParts, PartTexts, IsIdentifier, JoinWith, UpTo;
    var name := e.before + e.name + e.after;
    NameIsPlain(e.name);
    TrimBlanks(e.before, e.name, e.after);
    NameHasNone(e, ',');
    NameHasNone(e, '=');
    hide Plain, Tight;
    var text := EnumeratorText(e);
    if e.value == [] {
      assert name[..|name|] == name;
    } else {
      ExpressionReads([], e.value);
      CutAfter(name, '=', JoinWith(PartTexts(e.value), '|'));
    }
    UpToIs(text, |name|, '=');
  }

  lemma {:induction false} EnumeratorsRead(es: seq<Enumerator>, items: seq<Item>, next: Wide)
    requires AllValid(es)
    ensures Entries(EnumeratorTexts(es), items, next) == ItemsOf(es, items, next, false)
    decreases |es|
  {
    hide Evaluate, PartsValue, Trim, ValidEnumerator, EnumeratorText, JoinWith, PartTexts, Narrow, After;
    if es != [] {
      var e := es[0];
      assert ValidEnumerator(e);
      EnumeratorSplits(e);
      assert EnumeratorTexts(es)[1..] == EnumeratorTexts(es[1..]);
      if e.value == [] {
        EnumeratorsRead(es[1..], items + [Item(e.name, Narrow(next))], After(next));
      } else {
        PartsAreValid(e);
        ExpressionReads(items, e.value);
        var value := PartsValue(items, e.value, 0, false);
        if value.Some? {
          EnumeratorsRead(es[1..], items + [Item(e.name, Narrow(value.value))], After(value.value));
        }
      }
    }
  }

  lemma PartsAreValid(e: Enumerator)
    requires ValidEnumerator(e)
    ensures ValidParts(e.value)
  {
  }

  /** A declaration, with any blanks in it and with or without a comma at its end, is read as items: numbers, names
      of earlier items, complements, negations and unions of these, and one more than the item before. It is refused
      exactly when it uses a name that is not declared before, or a number that does not fit. The items are those that
      the language declares unless an octal number in it is eight or more as a decimal number. */
  lemma DeclarationReads(es: seq<Enumerator>, isClosed: bool)
    requires es != [] && AllValid(es)
    ensures DeclaredItems(JoinWith(EnumeratorTexts(es), ',') + if isClosed then "," else "") == ItemsOf(es, [], 0, false)
    ensures (forall i | 0 <= i < |es| :: ValidParts(es[i].value) && AllSmall(es[i].value)) ==>
      ItemsOf(es, [], 0, false) == ItemsOf(es, [], 0, true)
  {
    hide Entries, ItemsOf, Split, JoinWith, EnumeratorText, ValidEnumerator, Trim, ValidParts, AllSmall;
    var texts := EnumeratorTexts(es);
    forall i | 0 <= i < |es|
      ensures ',' !in texts[i] && texts[i] != ""
    {
      EnumeratorSplits(es[i]);
    }
    SplitJoined(texts, ',', isClosed);
    EnumeratorsRead(es, [], 0);
    if forall i | 0 <= i < |es| :: ValidParts(es[i].value) && AllSmall(es[i].value) {
      ItemsAreTheSame(es, [], 0);
    }
  }

  // ---------------------------------------------------------------- the values that are declared

  /** The value of an enumerator, among the items before it: its own one, or one more than the one before it in 64
      bits, or zero for the first. */
  ghost predicate IsDeclared(e: Enumerator, before: seq<Item>, last: Option<Wide>, value: Wide)
    requires ValidEnumerator(e)
  {
    if e.value != [] then PartsValue(before, e.value, 0, false) == Some(value)
    else value == if last.None? then 0 else (last.value + 1) % WIDE_LIMIT
  }

  /** The items after the first ones are these enumerators with the low 32 bits of these values. */
  ghost predicate AreDeclared(es: seq<Enumerator>, items: seq<Item>, start: nat, last: Option<Wide>, values: seq<Wide>)
    requires AllValid(es)
  {
    && |values| == |es| && |items| == start + |es|
    && forall i | 0 <= i < |es| :: ItemIsDeclared(es[i], items, start + i, ValueBefore(values, i, last), values[i])
  }

  function ValueBefore(values: seq<Wide>, i: nat, first: Option<Wide>): Option<Wide>
    requires i <= |values|
  {
    if i == 0 then first else Some(values[i - 1])
  }

  ghost predicate ItemIsDeclared(e: Enumerator, items: seq<Item>, at: nat, last: Option<Wide>, value: Wide)
    requires ValidEnumerator(e) && at < |items|
  {
    items[at] == Item(e.name, (value % 0x1_0000_0000) as Bits) && IsDeclared(e, items[..at], last, value)
  }

  lemma {:induction false} ValuesAre(es: seq<Enumerator>, items: seq<Item>, last: Option<Wide>, next: Wide)
    returns (values: seq<Wide>)
    requires AllValid(es) && next == if last.None? then 0 else (last.value + 1) % WIDE_LIMIT
    ensures match ItemsOf(es, items, next, false)
      case None => true
      case Some(all) =>
        AreDeclared(es, all, |items|, last, values) && |all| == |items| + |es| && all[..|items|] == items
    decreases |es|
  {
    hide PartsValue, ValidEnumerator, AreDeclared, ItemIsDeclared, Narrow;
    values := [];
    if es == [] {
      NothingDeclared(items, last);
    } else {
      var e := es[0];
      PartsAreValid(e);
      var value := if e.value == [] then Some(next) else PartsValue(items, e.value, 0, false);
      if value.Some? {
        var more := items + [Item(e.name, Narrow(value.value))];
        values := ValuesAre(es[1..], more, value, After(value.value));
        var all := ItemsOf(es[1..], more, After(value.value), false);
        if all.Some? {
          FirstIsDeclared(e, items, last, next, value.value, all.value);
          OneMoreDeclared(es, all.value, |items|, last, value.value, values);
          values := [value.value] + values;
        }
      }
    }
  }

  lemma NothingDeclared(items: seq<Item>, last: Option<Wide>)
    ensures AreDeclared([], items, |items|, last, [])
  {
  }

  lemma FirstIsDeclared(e: Enumerator, items: seq<Item>, last: Option<Wide>, next: Wide, value: Wide, all: seq<Item>)
    requires ValidEnumerator(e) && next == if last.None? then 0 else (last.value + 1) % WIDE_LIMIT
    requires Some(value) == if e.value == [] then Some(next) else PartsValue(items, e.value, 0, false)
    requires |items| < |all| && all[..|items| + 1] == items + [Item(e.name, Narrow(value))]
    ensures ItemIsDeclared(e, all, |items|, last, value) && all[..|items|] == items
  {
    hide PartsValue, ValidEnumerator;
    var front := all[..|items| + 1];
    assert all[..|items|] == front[..|items|] && all[|items|] == front[|items|];
  }

  lemma OneMoreDeclared(es: seq<Enumerator>, all: seq<Item>, start: nat, last: Option<Wide>, value: Wide, values: seq<Wide>)
    requires es != [] && AllValid(es) && start < |all| && ItemIsDeclared(es[0], all, start, last, value)
    requires AreDeclared(es[1..], all, start + 1, Some(value), values)
    ensures AreDeclared(es, all, start, last, [value] + values)
  {
    hide ValidEnumerator, ItemIsDeclared;
    var longer := [value] + values;
    forall i | 0 < i < |es|
      ensures ItemIsDeclared(es[i], all, start + i, ValueBefore(longer, i, last), longer[i])
    {
      assert es[i] == es[1..][i - 1] && ValueBefore(longer, i, last) == ValueBefore(values, i - 1, Some(value));
      assert ItemIsDeclared(es[1..][i - 1], all, start + 1 + (i - 1), ValueBefore(values, i - 1, Some(value)), values[i - 1]);
      assert start + 1 + (i - 1) == start + i;
    }
  }

  /** Every enumerator of a declaration that is read gets its value as the language gives it. */
  lemma DeclaredValues(es: seq<Enumerator>, isClosed: bool) returns (values: seq<Wide>)
    requires es != [] && AllValid(es)
    ensures match DeclaredItems(JoinWith(EnumeratorTexts(es), ',') + if isClosed then "," else "")
      case None => true
      case Some(items) => AreDeclared(es, items, 0, None, values)
  {
    hide ItemsOf, ValidEnumerator, AreDeclared, DeclaredItems, JoinWith;
    DeclarationReads(es, isClosed);
    values := ValuesAre(es, [], None, 0);
  }

  lemma CountsOn(e: Enumerator, items: seq<Item>, at: nat, last: Option<Wide>, value: Wide)
    requires ValidEnumerator(e) && at < |items| && ItemIsDeclared(e, items, at, last, value) && e.value == []
    requires last.Some? ==> last.value + 1 < WIDE_LIMIT
    ensures value == if last.None? then 0 else last.value + 1
  {
    hide ValidEnumerator, PartsValue;
  }

  lemma {:induction false} ValuesCount(es: seq<Enumerator>, items: seq<Item>, values: seq<Wide>, i: nat)
    requires AllValid(es) && i < |es| < 0x1_0000_0000
    requires AreDeclared(es, items, 0, None, values) && forall k | 0 <= k < |es| :: es[k].value == []
    ensures values[i] == i
  {
    hide ValidEnumerator, ItemIsDeclared;
    if i > 0 {
      ValuesCount(es, items, values, i - 1);
    }
    assert ItemIsDeclared(es[i], items, 0 + i, ValueBefore(values, i, None), values[i]);
    CountsOn(es[i], items, i, ValueBefore(values, i, None), values[i]);
  }

  /** Names alone count from zero. */
  lemma NamesCount(es: seq<Enumerator>, isClosed: bool)
    requires es != [] && AllValid(es) && |es| < 0x1_0000_0000 && forall i | 0 <= i < |es| :: es[i].value == []
    ensures var items := DeclaredItems(JoinWith(EnumeratorTexts(es), ',') + if isClosed then "," else "");
      && items.Some? && |items.value| == |es|
      && forall i | 0 <= i < |es| :: items.value[i] == Item(es[i].name, i as Bits)
  {
    hide ItemsOf, ValidEnumerator, DeclaredItems, JoinWith, IsDeclared, EnumeratorTexts;
    DeclarationReads(es, isClosed);
    NamesAreRead(es, [], 0);
    var values := DeclaredValues(es, isClosed);
    var items := DeclaredItems(JoinWith(EnumeratorTexts(es), ',') + if isClosed then "," else "").value;
    forall i | 0 <= i < |es|
      ensures items[i] == Item(es[i].name, i as Bits)
    {
      ValuesCount(es, items, values, i);
      Small(i);
      assert ItemIsDeclared(es[i], items, 0 + i, ValueBefore(values, i, None), values[i]);
    }
  }

  lemma Small(n: nat)
    requires n < 0x1_0000_0000
    ensures n % 0x1_0000_0000 == n
  {
  }

  lemma {:induction false} NamesAreRead(es: seq<Enumerator>, items: seq<Item>, next: Wide)
    requires AllValid(es) && forall i | 0 <= i < |es| :: es[i].value == []
    ensures ItemsOf(es, items, next, false).Some?
    decreases |es|
  {
    hide ValidEnumerator, Narrow, After;
    if es != [] {
      NamesAreRead(es[1..], items + [Item(es[0].name, Narrow(next))], After(next));
    }
  }

  lemma {:induction false} NamesAre(es: seq<Enumerator>, items: seq<Item>, next: Wide)
    requires AllValid(es)
    ensures match ItemsOf(es, items, next, false)
      case None => true
      case Some(all) =>
        && |all| == |items| + |es| && all[..|items|] == items
        && forall i | 0 <= i < |es| :: all[|items| + i].name == es[i].name
    decreases |es|
  {
    hide PartsValue, ValidEnumerator, Narrow, After;
    if es != [] {
      var e := es[0];
      PartsAreValid(e);
      var value := if e.value == [] then Some(next) else PartsValue(items, e.value, 0, false);
      if value.Some? {
        var more := items + [Item(e.name, Narrow(value.value))];
        NamesAre(es[1..], more, After(value.value));
        var all := ItemsOf(es[1..], more, After(value.value), false);
        if all.Some? {
          var front := all.value[..|more|];
          assert all.value[..|items|] == front[..|items|] && all.value[|items|] == front[|items|];
          forall i | 0 <= i < |es|
            ensures all.value[|items| + i].name == es[i].name
          {
            if i > 0 {
              assert all.value[|more| + (i - 1)].name == es[1..][i - 1].name && |more| + (i - 1) == |items| + i;
            }
          }
        }
      }
    }
  }

  /** The items of a declaration can be told apart by name whenever its enumerators can, so that values of the
      enumeration can be written and read. */
  lemma DeclaredNames(es: seq<Enumerator>, isClosed: bool)
    requires es != [] && AllValid(es)
    requires forall i, j | 0 <= i < j < |es| :: ToLower(es[i].name) != ToLower(es[j].name)
    ensures match DeclaredItems(JoinWith(EnumeratorTexts(es), ',') + if isClosed then "," else "")
      case None => true
      case Some(items) => Named(items)
  {
    hide ItemsOf, DeclaredItems, JoinWith, ToLower, IsIdentifier, ValidParts, AllBlank, EnumeratorTexts;
    DeclarationReads(es, isClosed);
    NamesAre(es, [], 0);
    var items := ItemsOf(es, [], 0, false);
    if items.Some? {
      forall i | 0 <= i < |items.value|
        ensures IsIdentifier(items.value[i].name) && items.value[i].name == es[i].name
      {
        assert ValidEnumerator(es[i]);
        assert items.value[0 + i].name == es[i].name;
      }
    }
  }
}

/** Every way to write a JSON value down, as concrete syntax, and the proof that the parser reads it. */
module JsonGrammar {
  import opened Wrappers
  import opened Sequences
  import opened Strings
  import opened JsonGaps
  import opened JsonStrings
  import opened JsonParser

  /** A document with its gaps, the escapes it uses and its commas, which the parser takes as optional. */
  datatype Doc =
    | NullDoc
    | BooleanDoc(b: bool)
    | NumberDoc(negative: bool, digits: string)
    | TextDoc(raw: string)
    | ArrayDoc(items: seq<ItemDoc>, close: Gap)
    | ObjectDoc(members: seq<MemberDoc>, close: Gap)

  datatype ItemDoc = ItemDoc(before: Gap, doc: Doc, after: Gap, comma: bool)

  datatype MemberDoc =
    MemberDoc(before: Gap, name: string, beforeColon: Gap, afterColon: Gap, doc: Doc, after: Gap, comma: bool)

  function Quoted(raw: string): string {
    "\"" + raw + "\""
  }

  /** The text of a document, followed by the rest. */
  function Render(doc: Doc, rest: string): string {
    match doc
    case NullDoc => "null" + rest
    case BooleanDoc(b) => (if b then "true" else "false") + rest
    case NumberDoc(negative, digits) => (if negative then "-" else "") + (digits + rest)
    case TextDoc(raw) => Quoted(raw) + rest
    case ArrayDoc(items, close) => "[" + RenderItems(items, GapText(close) + ("]" + rest))
    case ObjectDoc(members, close) => "{" + RenderMembers(members, GapText(close) + ("}" + rest))
  }

  function Separate(after: Gap, comma: bool, rest: string): string {
    GapText(after) + (if comma then "," + rest else rest)
  }

  function RenderItems(items: seq<ItemDoc>, rest: string): string {
    if items == [] then rest
    else
      var item := items[0];
      GapText(item.before) + Render(item.doc, Separate(item.after, item.comma, RenderItems(items[1..], rest)))
  }

  function RenderName(member: MemberDoc, rest: string): string {
    Quoted(member.name) + (GapText(member.beforeColon) + (":" + (GapText(member.afterColon) + rest)))
  }

  function RenderMembers(members: seq<MemberDoc>, rest: string): string {
    if members == [] then rest
    else
      var member := members[0];
      GapText(member.before) +
      RenderName(member, Render(member.doc, Separate(member.after, member.comma, RenderMembers(members[1..], rest))))
  }

  ghost predicate ValidLiteral(raw: string) {
    ClosedLiteral(raw) && Unescape(raw).Some?
  }

  /** The parser takes commas as optional, and values may even follow each other directly; only two numbers
      would run into one, unless the second one has a sign. */
  ghost predicate ValidSeparator(item: ItemDoc, rest: seq<ItemDoc>) {
    && Closed(item.after)
    && (item.comma || rest == [] || item.after != [] || rest[0].before != []
        || !(item.doc.NumberDoc? && rest[0].doc.NumberDoc? && !rest[0].doc.negative))
  }

  ghost predicate Valid(doc: Doc) {
    match doc
    case NullDoc => true
    case BooleanDoc(_) => true
    case NumberDoc(_, digits) => digits != "" && AllDigits(digits) && NatOfDigits(digits) < NUMBER_LIMIT
    case TextDoc(raw) => ValidLiteral(raw)
    case ArrayDoc(items, close) => Closed(close) && ValidItems(items)
    case ObjectDoc(members, close) => Closed(close) && ValidMembers(members)
  }

  ghost predicate ValidItems(items: seq<ItemDoc>) {
    items == [] ||
    (var item := items[0];
     Closed(item.before) && Valid(item.doc) && ValidSeparator(item, items[1..])
     && ValidItems(items[1..]))
  }

  ghost predicate ValidMembers(members: seq<MemberDoc>) {
    members == [] ||
    (var member := members[0];
     Closed(member.before) && ValidLiteral(member.name)
     && Closed(member.beforeColon) && Closed(member.afterColon)
     && Valid(member.doc) && Closed(member.after)
     && ValidMembers(members[1..]))
  }

  /** The value a document stands for: of members with the same name, the last one counts. */
  ghost function DocValue(doc: Doc): Json
    requires Valid(doc)
  {
    match doc
    case NullDoc => Null
    case BooleanDoc(b) => Boolean(b)
    case NumberDoc(negative, digits) => Number(if negative then 0 - NatOfDigits(digits) else NatOfDigits(digits))
    case TextDoc(raw) => Text(Unescape(raw).value)
    case ArrayDoc(items, _) => Array(ItemValues(items))
    case ObjectDoc(members, _) => Object(MemberValues(members, map[]))
  }

  ghost function ItemValues(items: seq<ItemDoc>): seq<Json>
    requires ValidItems(items)
  {
    if items == [] then [] else [DocValue(items[0].doc)] + ItemValues(items[1..])
  }

  ghost function MemberValues(members: seq<MemberDoc>, earlier: map<string, Json>): map<string, Json>
    requires ValidMembers(members)
  {
    if members == [] then earlier
    else MemberValues(members[1..], earlier[Unescape(members[0].name).value := DocValue(members[0].doc)])
  }

  // ---------------------------------------------------------------- how documents start

  /** The first character of a value: never a blank, a slash, a comma, a colon or a closing bracket. */
  predicate StartsValue(text: string) {
    text != "" && (text[0] in "ntf\"[{-" || IsDigit(text[0]))
  }

  lemma DocStarts(doc: Doc, rest: string)
    requires Valid(doc)
    ensures StartsValue(Render(doc, rest))
  {
    match doc
    case NumberDoc(negative, digits) =>
      assert Render(doc, rest)[0] == if negative then '-' else digits[0];
    case _ =>
  }

  lemma NotSkipped(text: string)
    requires !StartsWithGap(text)
    ensures SkipGap(text) == text
  {
  }

  lemma StartsAfterGap(gap: Gap, text: string)
    requires Closed(gap) && text != "" && !StartsWithGap(text) && text[0] != ','
    ensures var left := SkipGap(GapText(gap) + text); left != "" && left[0] != ','
  {
    SkipsClosedGap(gap, text);
    NotSkipped(text);
  }

  lemma SkipsToDoc(gap: Gap, text: string)
    requires Closed(gap) && !StartsWithGap(text)
    ensures SkipGap(GapText(gap) + text) == text
  {
    SkipsClosedGap(gap, text);
    NotSkipped(text);
  }

  // ---------------------------------------------------------------- the scalars

  lemma LiteralDocParses(literal: string, rest: string)
    requires literal in ["null", "true", "false"]
    ensures ParseValue(literal + rest) ==
            Parsed(Some(if literal == "null" then Null else Boolean(literal == "true")), rest)
  {
    var text := literal + rest;
    NotSkipped(text);
    assert text[|literal|..] == rest;
    assert literal <= text;
    if literal == "false" {
      assert !("true" <= text);
    }
  }

  lemma DispatchNumber(text: string)
    requires text != "" && (IsDigit(text[0]) || text[0] == '-')
    ensures ParseValue(text) == ParseNumber(text)
  {
    hide SkipGap, ParseItems, ParseMembers, ParseText, ParseNumber, ParseLiteral, ParseBoolean;
    NotSkipped(text);
  }

  lemma DispatchList(bracket: char, tail: string)
    requires bracket in "[{"
    ensures ParseValue([bracket] + tail) == if bracket == '[' then ParseItems(tail, []) else ParseMembers(tail, map[])
  {
    NotSkipped([bracket] + tail);
    assert ([bracket] + tail)[1..] == tail;
  }

  lemma NumberTextParses(sign: string, digits: string, rest: string)
    requires sign in ["", "-"] && digits != "" && AllDigits(digits) && NatOfDigits(digits) < NUMBER_LIMIT
    requires !ExtendsNumber(rest)
    ensures ParseNumber(sign + (digits + rest)) ==
            Parsed(Some(Number(if sign == "-" then 0 - NatOfDigits(digits) else NatOfDigits(digits))), rest)
  {
    hide DigitRun, NatOfDigits;
    DigitRunStops(digits, rest);
    var text := sign + (digits + rest);
    assert text[|sign|..] == digits + rest;
    assert (digits + rest)[|digits|..] == rest;
    if sign == "" {
      assert text[0] == digits[0] && IsDigit(digits[0]);
    }
  }

  lemma NumberDocParses(negative: bool, digits: string, rest: string)
    requires Valid(NumberDoc(negative, digits)) && !ExtendsNumber(rest)
    ensures ParseValue(Render(NumberDoc(negative, digits), rest)) ==
            Parsed(Some(DocValue(NumberDoc(negative, digits))), rest)
  {
    hide ParseValue, ParseNumber, NatOfDigits, ExtendsNumber;
    var sign := if negative then "-" else "";
    if !negative {
      assert IsDigit(digits[0]);
    }
    DispatchNumber(sign + (digits + rest));
    NumberTextParses(sign, digits, rest);
  }

  lemma TextDocParses(raw: string, rest: string)
    requires ValidLiteral(raw)
    ensures ParseValue(Quoted(raw) + rest) == Parsed(Some(Text(Unescape(raw).value)), rest)
  {
    LiteralParses(raw, rest);
    NotSkipped(Quoted(raw) + rest);
    assert Quoted(raw) + rest == "\"" + raw + "\"" + rest;
  }

  // ---------------------------------------------------------------- separators

  lemma GapStarts(gap: Gap, text: string)
    requires Closed(gap) && gap != []
    ensures StartsWithGap(GapText(gap) + text)
  {
    hide StartsWithGap, PieceText, ClosedPiece;
    assert ClosedPiece(gap[0]);
    PieceStarts(gap[0], GapText(gap[1..]) + text);
    assert GapText(gap) + text == PieceText(gap[0]) + (GapText(gap[1..]) + text);
  }

  lemma PieceStarts(p: Piece, tail: string)
    requires ClosedPiece(p)
    ensures StartsWithGap(PieceText(p) + tail)
  {
    hide Unclosed, IsBlank;
  }

  lemma GapEndsNumber(gap: Gap, text: string)
    requires Closed(gap) && (gap != [] || !ExtendsNumber(text))
    ensures !ExtendsNumber(GapText(gap) + text)
  {
    hide GapText;
    if gap != [] {
      GapStarts(gap, text);
    } else {
      NoGap(text);
    }
  }

  lemma DocEndsNumber(doc: Doc, rest: string)
    requires Valid(doc) && !(doc.NumberDoc? && !doc.negative)
    ensures !ExtendsNumber(Render(doc, rest))
  {
    DocStarts(doc, rest);
    if doc.NumberDoc? {
      assert Render(doc, rest)[0] == '-';
    }
  }

  /** A number ends before its separator, before the next item, and before the bracket that closes its list. */
  lemma ItemEndsNumber(items: seq<ItemDoc>, close: Gap, rest: string)
    requires items != [] && ValidItems(items) && Closed(close)
    ensures items[0].doc.NumberDoc? ==>
      !ExtendsNumber(Separate(items[0].after, items[0].comma, RenderItems(items[1..], GapText(close) + ("]" + rest))))
  {
    hide GapText, Render;
    var item, tail := items[0], GapText(close) + ("]" + rest);
    var more := RenderItems(items[1..], tail);
    if item.doc.NumberDoc? && !item.comma && item.after == [] {
      if items[1..] == [] {
        GapEndsNumber(close, "]" + rest);
      } else {
        var next := items[1..][0];
        var text := Render(next.doc, Separate(next.after, next.comma, RenderItems(items[1..][1..], tail)));
        if next.before == [] {
          DocEndsNumber(next.doc, Separate(next.after, next.comma, RenderItems(items[1..][1..], tail)));
        }
        GapEndsNumber(next.before, text);
      }
    }
    if item.doc.NumberDoc? {
      GapEndsNumber(item.after, if item.comma then "," + more else more);
    }
  }

  lemma MemberEndsNumber(members: seq<MemberDoc>, close: Gap, rest: string)
    requires members != [] && ValidMembers(members) && Closed(close)
    ensures !ExtendsNumber(Separate(members[0].after, members[0].comma, RenderMembers(members[1..], GapText(close) + ("}" + rest))))
  {
    hide GapText, Render, RenderName;
    var member, tail := members[0], GapText(close) + ("}" + rest);
    var more := RenderMembers(members[1..], tail);
    if !member.comma {
      if members[1..] == [] {
        GapEndsNumber(close, "}" + rest);
      } else {
        var next := members[1..][0];
        var text := Render(next.doc, Separate(next.after, next.comma, RenderMembers(members[1..][1..], tail)));
        NameStarts(next, text);
        GapEndsNumber(next.before, RenderName(next, text));
      }
    }
    GapEndsNumber(member.after, if member.comma then "," + more else more);
  }

  lemma SkipsSeparator(after: Gap, comma: bool, more: string)
    requires Closed(after)
    requires SkipGap(more) != "" && SkipGap(more)[0] != ','
    ensures SkipComma(Separate(after, comma, more)) == if comma then more else SkipGap(more)
  {
    if comma {
      SkipsToDoc(after, "," + more);
      assert ("," + more)[1..] == more;
    } else {
      SkipsClosedGap(after, more);
    }
  }

  // ---------------------------------------------------------------- arrays

  lemma ItemStarts(item: ItemDoc, after: string)
    requires Closed(item.before) && Valid(item.doc)
    ensures var left := SkipGap(GapText(item.before) + Render(item.doc, after)); left != "" && left[0] != ','
  {
    DocStarts(item.doc, after);
    StartsAfterGap(item.before, Render(item.doc, after));
  }

  lemma ArrayTailStarts(items: seq<ItemDoc>, close: Gap, rest: string)
    requires ValidItems(items) && Closed(close)
    ensures var left := SkipGap(RenderItems(items, GapText(close) + ("]" + rest))); left != "" && left[0] != ','
  {
    var tail := GapText(close) + ("]" + rest);
    if items == [] {
      StartsAfterGap(close, "]" + rest);
    } else {
      ItemStarts(items[0], Separate(items[0].after, items[0].comma, RenderItems(items[1..], tail)));
    }
  }

  /** One round of the array loop reads one item. */
  lemma ParseItemsStep(item: ItemDoc, more: string, read: seq<Json>, value: Json)
    requires Closed(item.before) && Valid(item.doc) && Closed(item.after)
    requires SkipGap(more) != "" && SkipGap(more)[0] != ','
    requires var after := Separate(item.after, item.comma, more);
             ParseValue(Render(item.doc, after)) == Parsed(Some(value), after)
    ensures ParseItems(GapText(item.before) + Render(item.doc, Separate(item.after, item.comma, more)), read) ==
            ParseItems(more, read + [value])
  {
    hide Render, Separate, ParseValue, SkipGap, SkipComma, GapText, Closed, Valid;
    var after := Separate(item.after, item.comma, more);
    DocStarts(item.doc, after);
    SkipsToDoc(item.before, Render(item.doc, after));
    SkipsSeparator(item.after, item.comma, more);
    SkipGapTwice(more);
  }

  lemma {:induction false} ItemsParse(items: seq<ItemDoc>, close: Gap, rest: string, read: seq<Json>)
    requires ValidItems(items) && Closed(close)
    ensures ParseItems(RenderItems(items, GapText(close) + ("]" + rest)), read) ==
            Parsed(Some(Array(read + ItemValues(items))), rest)
    decreases items, 0
  {
    var tail := GapText(close) + ("]" + rest);
    if items == [] {
      SkipsToDoc(close, "]" + rest);
      assert ("]" + rest)[1..] == rest;
      assert read + ItemValues(items) == read;
    } else {
      var item, more := items[0], RenderItems(items[1..], tail);
      ItemEndsNumber(items, close, rest);
      DocParses(item.doc, Separate(item.after, item.comma, more));
      ArrayTailStarts(items[1..], close, rest);
      ParseItemsStep(item, more, read, DocValue(item.doc));
      ItemsParse(items[1..], close, rest, read + [DocValue(item.doc)]);
      assert read + [DocValue(item.doc)] + ItemValues(items[1..]) == read + ItemValues(items);
    }
  }

  // ---------------------------------------------------------------- objects

  lemma ObjectTailStarts(members: seq<MemberDoc>, close: Gap, rest: string)
    requires ValidMembers(members) && Closed(close)
    ensures var left := SkipGap(RenderMembers(members, GapText(close) + ("}" + rest))); left != "" && left[0] != ','
  {
    if members == [] {
      StartsAfterGap(close, "}" + rest);
    } else {
      var member := members[0];
      var more := Separate(member.after, member.comma, RenderMembers(members[1..], GapText(close) + ("}" + rest)));
      hide RenderName, SkipGap, Render, Separate, StartsWithGap;
      NameStarts(member, Render(member.doc, more));
      StartsAfterGap(member.before, RenderName(member, Render(member.doc, more)));
    }
  }

  lemma NameStarts(member: MemberDoc, text: string)
    ensures var all := RenderName(member, text); all != "" && all[0] == '"' && !StartsWithGap(all)
  {
    hide GapText;
  }

  lemma NameParses(member: MemberDoc, text: string)
    requires ValidLiteral(member.name) && Closed(member.beforeColon) && Closed(member.afterColon)
    ensures ParseName(RenderName(member, text)) ==
            Parsed(Some(Unescape(member.name).value), GapText(member.afterColon) + text)
  {
    var afterColon := GapText(member.afterColon) + text;
    LiteralParses(member.name, GapText(member.beforeColon) + (":" + afterColon));
    SkipsToDoc(member.beforeColon, ":" + afterColon);
    assert (":" + afterColon)[1..] == afterColon;
  }

  lemma ParseValueAfterGap(gap: Gap, text: string)
    requires Closed(gap)
    ensures ParseValue(GapText(gap) + text) == ParseValue(text)
  {
    SkipsClosedGap(gap, text);
  }

  /** One round of the object loop reads one member. */
  lemma ParseMembersStep(member: MemberDoc, more: string, read: map<string, Json>, value: Json)
    requires Closed(member.before) && ValidLiteral(member.name) && Closed(member.beforeColon)
    requires Closed(member.afterColon) && Valid(member.doc) && Closed(member.after)
    requires SkipGap(more) != "" && SkipGap(more)[0] != ','
    requires var after := Separate(member.after, member.comma, more);
             ParseValue(Render(member.doc, after)) == Parsed(Some(value), after)
    ensures ParseMembers(GapText(member.before) +
                         RenderName(member, Render(member.doc, Separate(member.after, member.comma, more))), read) ==
            ParseMembers(more, read[Unescape(member.name).value := value])
  {
    hide Render, Separate, ParseValue, ParseName, SkipGap, SkipComma, Unescape, GapText, Closed, Valid, ValidLiteral,
      RenderName, StartsWithGap;
    var after := Separate(member.after, member.comma, more);
    var text := RenderName(member, Render(member.doc, after));
    NameStarts(member, Render(member.doc, after));
    SkipsToDoc(member.before, text);
    NameParses(member, Render(member.doc, after));
    ParseValueAfterGap(member.afterColon, Render(member.doc, after));
    SkipsSeparator(member.after, member.comma, more);
    SkipGapTwice(more);
  }

  lemma {:induction false} MembersParse(members: seq<MemberDoc>, close: Gap, rest: string, read: map<string, Json>)
    requires ValidMembers(members) && Closed(close)
    ensures ParseMembers(RenderMembers(members, GapText(close) + ("}" + rest)), read) ==
            Parsed(Some(Object(MemberValues(members, read))), rest)
    decreases members, 0
  {
    var tail := GapText(close) + ("}" + rest);
    if members == [] {
      SkipsToDoc(close, "}" + rest);
      assert ("}" + rest)[1..] == rest;
    } else {
      var member, more := members[0], RenderMembers(members[1..], tail);
      MemberEndsNumber(members, close, rest);
      DocParses(member.doc, Separate(member.after, member.comma, more));
      ObjectTailStarts(members[1..], close, rest);
      ParseMembersStep(member, more, read, DocValue(member.doc));
      MembersParse(members[1..], close, rest, read[Unescape(member.name).value := DocValue(member.doc)]);
    }
  }

  // ---------------------------------------------------------------- every document

  lemma ArrayDocParses(items: seq<ItemDoc>, close: Gap, rest: string)
    requires Valid(ArrayDoc(items, close))
    ensures ParseValue(Render(ArrayDoc(items, close), rest)) == Parsed(Some(Array(ItemValues(items))), rest)
    decreases items, 1
  {
    var tail := RenderItems(items, GapText(close) + ("]" + rest));
    DispatchList('[', tail);
    ItemsParse(items, close, rest, []);
    assert [] + ItemValues(items) == ItemValues(items);
  }

  lemma ObjectDocParses(members: seq<MemberDoc>, close: Gap, rest: string)
    requires Valid(ObjectDoc(members, close))
    ensures ParseValue(Render(ObjectDoc(members, close), rest)) ==
            Parsed(Some(Object(MemberValues(members, map[]))), rest)
    decreases members, 1
  {
    var tail := RenderMembers(members, GapText(close) + ("}" + rest));
    DispatchList('{', tail);
    MembersParse(members, close, rest, map[]);
  }

  /** Every document is read as the value it stands for, and what follows it is left alone. */
  lemma {:induction false} DocParses(doc: Doc, rest: string)
    requires Valid(doc)
    requires doc.NumberDoc? ==> !ExtendsNumber(rest)
    ensures ParseValue(Render(doc, rest)) == Parsed(Some(DocValue(doc)), rest)
    decreases doc, 2
  {
    match doc
    case NullDoc => LiteralDocParses("null", rest);
    case BooleanDoc(b) => LiteralDocParses(if b then "true" else "false", rest);
    case NumberDoc(negative, digits) => NumberDocParses(negative, digits, rest);
    case TextDoc(raw) => TextDocParses(raw, rest);
    case ArrayDoc(items, close) => ArrayDocParses(items, close, rest);
    case ObjectDoc(members, close) => ObjectDocParses(members, close, rest);
  }

  /** The same with a gap in front of the document. */
  lemma DocParsesAfterGap(gap: Gap, doc: Doc, rest: string)
    requires Closed(gap) && Valid(doc)
    requires doc.NumberDoc? ==> !ExtendsNumber(rest)
    ensures ParseValue(GapText(gap) + Render(doc, rest)) == Parsed(Some(DocValue(doc)), rest)
  {
    DocParses(doc, rest);
    ParseValueAfterGap(gap, Render(doc, rest));
  }

  // ---------------------------------------------------------------- the rest is only appended

  lemma {:induction false} RenderAppends(doc: Doc, text: string, rest: string)
    ensures Render(doc, text + rest) == Render(doc, text) + rest
    decreases doc, 1
  {
    hide RenderItems, RenderMembers, GapText, Quoted;
    match doc
    case NullDoc => Regroup("null", text, rest);
    case BooleanDoc(b) => Regroup(if b then "true" else "false", text, rest);
    case NumberDoc(negative, digits) =>
      Regroup(digits, text, rest);
      Regroup(if negative then "-" else "", digits + text, rest);
    case TextDoc(raw) => Regroup(Quoted(raw), text, rest);
    case ArrayDoc(items, close) =>
      Regroup("]", text, rest);
      Regroup(GapText(close), "]" + text, rest);
      RenderItemsAppends(items, GapText(close) + ("]" + text), rest);
      Regroup("[", RenderItems(items, GapText(close) + ("]" + text)), rest);
    case ObjectDoc(members, close) =>
      Regroup("}", text, rest);
      Regroup(GapText(close), "}" + text, rest);
      RenderMembersAppends(members, GapText(close) + ("}" + text), rest);
      Regroup("{", RenderMembers(members, GapText(close) + ("}" + text)), rest);
  }

  lemma SeparateAppends(after: Gap, comma: bool, text: string, rest: string)
    ensures Separate(after, comma, text + rest) == Separate(after, comma, text) + rest
  {
    Regroup(",", text, rest);
    Regroup(GapText(after), if comma then "," + text else text, rest);
  }

  lemma {:induction false} RenderItemsAppends(items: seq<ItemDoc>, text: string, rest: string)
    ensures RenderItems(items, text + rest) == RenderItems(items, text) + rest
    decreases items, 0
  {
    if items != [] {
      var item, more := items[0], RenderItems(items[1..], text);
      RenderItemsAppends(items[1..], text, rest);
      SeparateAppends(item.after, item.comma, more, rest);
      RenderAppends(item.doc, Separate(item.after, item.comma, more), rest);
      Regroup(GapText(item.before), Render(item.doc, Separate(item.after, item.comma, more)), rest);
    }
  }

  lemma RenderNameAppends(member: MemberDoc, text: string, rest: string)
    ensures RenderName(member, text + rest) == RenderName(member, text) + rest
  {
    var inner := ":" + (GapText(member.afterColon) + text);
    Regroup(GapText(member.afterColon), text, rest);
    Regroup(":", GapText(member.afterColon) + text, rest);
    Regroup(GapText(member.beforeColon), inner, rest);
    Regroup(Quoted(member.name), GapText(member.beforeColon) + inner, rest);
  }

  lemma {:induction false} RenderMembersAppends(members: seq<MemberDoc>, text: string, rest: string)
    ensures RenderMembers(members, text + rest) == RenderMembers(members, text) + rest
    decreases members, 0
  {
    if members != [] {
      var member, more := members[0], RenderMembers(members[1..], text);
      RenderMembersAppends(members[1..], text, rest);
      SeparateAppends(member.after, member.comma, more, rest);
      var separated := Separate(member.after, member.comma, more);
      RenderAppends(member.doc, separated, rest);
      RenderNameAppends(member, Render(member.doc, separated), rest);
      Regroup(GapText(member.before), RenderName(member, Render(member.doc, separated)), rest);
    }
  }
}

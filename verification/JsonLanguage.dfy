/** The converse of the grammar: whatever the parser accepts is a document, read as the value it stands for. */
module JsonLanguage {
  import opened Wrappers
  import opened Sequences
  import opened Strings
  import opened JsonGaps
  import opened JsonStrings
  import opened JsonParser
  import opened JsonGrammar

  /** The text is a document after a gap, with this value and this rest. */
  ghost predicate IsDocument(text: string, gap: Gap, doc: Doc, value: Json, rest: string) {
    && Closed(gap) && Valid(doc) && value == DocValue(doc)
    && (doc.NumberDoc? ==> !ExtendsNumber(rest))
    && text == GapText(gap) + Render(doc, rest)
  }

  lemma LiteralIsDoc(text: string, literal: string, value: Json)
    requires literal != "" && ParseLiteral(text, literal, value).value.Some?
    ensures text == literal + ParseLiteral(text, literal, value).rest && ParseLiteral(text, literal, value).value == Some(value)
  {
  }

  lemma BooleanIsDoc(text: string) returns (doc: Doc)
    requires ParseBoolean(text).value.Some?
    ensures doc.BooleanDoc? && text == Render(doc, ParseBoolean(text).rest) && ParseBoolean(text).value == Some(DocValue(doc))
  {
    if "true" <= text {
      LiteralIsDoc(text, "true", Boolean(true));
      doc := BooleanDoc(true);
    } else {
      LiteralIsDoc(text, "false", Boolean(false));
      doc := BooleanDoc(false);
    }
  }

  lemma NumberIsDoc(text: string) returns (doc: Doc)
    requires ParseNumber(text).value.Some?
    ensures var r := ParseNumber(text);
      doc.NumberDoc? && Valid(doc) && text == Render(doc, r.rest) && r.value == Some(DocValue(doc)) && !ExtendsNumber(r.rest)
  {
    hide NatOfDigits, ExtendsNumber;
    var negative := text != "" && text[0] == '-';
    var sign := if negative then 1 else 0;
    var digits := DigitRun(text[sign..]);
    var rest := text[sign..][|digits|..];
    assert text[sign..] == digits + rest;
    assert text == (if negative then "-" else "") + (digits + rest);
    doc := NumberDoc(negative, digits);
  }

  lemma StringIsLiteral(text: string) returns (raw: string)
    requires ParseString(text).value.Some?
    ensures ValidLiteral(raw) && text == Quoted(raw) + ParseString(text).rest && ParseString(text).value == Unescape(raw)
  {
    hide QuoteAt, Unescape;
    var body := text[1..];
    LiteralBeforeQuote(body);
    var at := QuoteAt(body).value;
    raw := body[..at];
    var quote, rest := text[..1], body[at + 1..];
    assert body == raw + (quote + rest);
    assert text == quote + body;
    assert quote == "\"";
    Regroup(quote + raw, quote, rest);
    Regroup(quote, raw, quote + rest);
  }

  lemma GapsConcat(a: Gap, b: Gap, text: string)
    requires Closed(a) && Closed(b)
    ensures Closed(a + b) && GapText(a) + (GapText(b) + text) == GapText(a + b) + text
  {
    hide GapText, ClosedPiece;
    GapTextConcat(a, b);
    Regroup(GapText(a), GapText(b), text);
  }

  /** What the parser accepts is a document. */
  lemma {:induction false} ValueIsDoc(text: string) returns (gap: Gap, doc: Doc)
    requires ParseValue(text).value.Some?
    ensures IsDocument(text, gap, doc, ParseValue(text).value.value, ParseValue(text).rest)
    decreases |text|, 1
  {
    hide SkipGap, ParseItems, ParseMembers, ParseNumber, ParseLiteral, ParseBoolean, ParseString, ExtendsNumber, Closed, GapText,
      StartsWithGap;
    gap := SkippedIsGap(text);
    var left := SkipGap(text);
    match left[0]
    case 'n' =>
      LiteralIsDoc(left, "null", Null);
      doc := NullDoc;
    case 't' => doc := BooleanIsDoc(left);
    case 'f' => doc := BooleanIsDoc(left);
    case '"' =>
      var raw := StringIsLiteral(left);
      doc := TextDoc(raw);
    case '[' =>
      var items, close := ItemsAreDocs(left[1..], []);
      doc := ArrayDoc(items, close);
      assert left == "[" + left[1..];
      assert [] + ItemValues(items) == ItemValues(items);
    case '{' =>
      var members, close := MembersAreDocs(left[1..], map[]);
      doc := ObjectDoc(members, close);
      assert left == "{" + left[1..];
    case _ => doc := NumberIsDoc(left);
  }

  // ---------------------------------------------------------------- arrays

  ghost predicate AreItems(text: string, read: seq<Json>, items: seq<ItemDoc>, close: Gap, r: Parsed<Json>) {
    && ValidItems(items) && Closed(close)
    && text == RenderItems(items, GapText(close) + ("]" + r.rest))
    && r.value == Some(Array(read + ItemValues(items)))
  }

  lemma {:induction false} ItemsAreDocs(text: string, read: seq<Json>) returns (items: seq<ItemDoc>, close: Gap)
    requires ParseItems(text, read).value.Some?
    ensures AreItems(text, read, items, close, ParseItems(text, read))
    decreases |text|, 2
  {
    hide SkipGap, ParseValue, SkipComma, AreItems, IsDocument, Closed, GapText, StartsWithGap;
    var left := SkipGap(text);
    var gap := SkippedIsGap(text);
    if left[0] == ']' {
      items, close := [], gap;
      assert left == "]" + left[1..];
      NoItems(text, read, gap, left[1..]);
    } else {
      var r := ParseValue(left);
      var before, doc := ValueIsDoc(left);
      var after, comma := SeparatorIsDoc(r.rest);
      var more := SkipComma(r.rest);
      items, close := ItemsAreDocs(more, read + [r.value.value]);
      items := OneMoreItem(text, read, gap, before, doc, r, after, comma, more, items, close, ParseItems(text, read));
    }
  }

  lemma NoItems(text: string, read: seq<Json>, close: Gap, rest: string)
    requires Closed(close) && text == GapText(close) + ("]" + rest)
    ensures AreItems(text, read, [], close, Parsed(Some(Array(read)), rest))
  {
    assert read + ItemValues([]) == read;
  }

  /** The gap and the comma that the parser skips after an item, unless the text ends there. */
  lemma SeparatorIsDoc(text: string) returns (after: Gap, comma: bool)
    ensures Closed(after) && (SkipComma(text) != "" ==> text == Separate(after, comma, SkipComma(text)))
  {
    hide SkipGap, StartsWithGap;
    after := SkippedIsGap(text);
    var left := SkipGap(text);
    comma := left != "" && left[0] == ',';
    if comma {
      assert left == "," + left[1..];
    }
  }

  lemma OneMoreItem(
    text: string, read: seq<Json>, gap: Gap, before: Gap, doc: Doc, first: Parsed<Json>, after: Gap, comma: bool,
    more: string, rest: seq<ItemDoc>, close: Gap, r: Parsed<Json>) returns (items: seq<ItemDoc>)
    requires Closed(gap) && first.value.Some? && IsDocument(SkipGap(text), before, doc, first.value.value, first.rest)
    requires text == GapText(gap) + SkipGap(text)
    requires Closed(after) && first.rest == Separate(after, comma, more)
    requires AreItems(more, read + [first.value.value], rest, close, r)
    ensures AreItems(text, read, items, close, r)
  {
    hide Closed, GapText, Render, SkipGap, Valid, DocValue, ExtendsNumber;
    GapsConcat(gap, before, Render(doc, first.rest));
    var item := ItemDoc(gap + before, doc, after, comma);
    items := [item] + rest;
    assert items[0] == item && items[1..] == rest;
    SeparatorIsValid(item, rest, more, GapText(close) + ("]" + r.rest));
    assert read + [first.value.value] + ItemValues(rest) == read + ItemValues(items);
  }

  /** Numbers that the parser told apart are separated. */
  lemma SeparatorIsValid(item: ItemDoc, rest: seq<ItemDoc>, more: string, tail: string)
    requires Closed(item.after) && ValidItems(rest) && more == RenderItems(rest, tail)
    requires item.doc.NumberDoc? ==> !ExtendsNumber(Separate(item.after, item.comma, more))
    ensures ValidSeparator(item, rest)
  {
    if !ValidSeparator(item, rest) {
      var next := rest[0];
      var text := Render(next.doc, Separate(next.after, next.comma, RenderItems(rest[1..], tail)));
      NoGap(text);
      NoGap(more);
      NumberStarts(next.doc, Separate(next.after, next.comma, RenderItems(rest[1..], tail)));
    }
  }

  lemma NumberStarts(doc: Doc, rest: string)
    requires Valid(doc) && doc.NumberDoc? && !doc.negative
    ensures ExtendsNumber(Render(doc, rest))
  {
    assert IsDigit(doc.digits[0]);
    assert Render(doc, rest) == doc.digits + rest by {
      assert "" + (doc.digits + rest) == doc.digits + rest;
    }
  }

  // ---------------------------------------------------------------- objects

  ghost predicate AreMembers(text: string, read: map<string, Json>, members: seq<MemberDoc>, close: Gap, r: Parsed<Json>) {
    && ValidMembers(members) && Closed(close)
    && text == RenderMembers(members, GapText(close) + ("}" + r.rest))
    && r.value == Some(Object(MemberValues(members, read)))
  }

  lemma {:induction false} MembersAreDocs(text: string, read: map<string, Json>) returns (members: seq<MemberDoc>, close: Gap)
    requires ParseMembers(text, read).value.Some?
    ensures AreMembers(text, read, members, close, ParseMembers(text, read))
    decreases |text|, 2
  {
    hide SkipGap, ParseName, ParseValue, SkipComma, AreMembers, IsDocument, Closed, GapText, StartsWithGap, Unescape;
    var left := SkipGap(text);
    var gap := SkippedIsGap(text);
    if left[0] == '}' {
      members, close := [], gap;
      assert left == "}" + left[1..];
      NoMembers(text, read, gap, left[1..]);
    } else {
      var name := ParseName(left);
      var raw, beforeColon := NameIsDoc(left);
      var r := ParseValue(name.rest);
      var afterColon, doc := ValueIsDoc(name.rest);
      var after, comma := SeparatorIsDoc(r.rest);
      var more := SkipComma(r.rest);
      members, close := MembersAreDocs(more, read[name.value.value := r.value.value]);
      members := OneMoreMember(MemberDoc(gap, raw, beforeColon, afterColon, doc, after, comma), text, read, name, r, more,
                               members, close, ParseMembers(text, read));
    }
  }

  lemma NoMembers(text: string, read: map<string, Json>, close: Gap, rest: string)
    requires Closed(close) && text == GapText(close) + ("}" + rest)
    ensures AreMembers(text, read, [], close, Parsed(Some(Object(read)), rest))
  {
  }

  lemma NameIsDoc(text: string) returns (raw: string, beforeColon: Gap)
    requires ParseName(text).value.Some?
    ensures ValidLiteral(raw) && Closed(beforeColon) && ParseName(text).value == Unescape(raw)
    ensures text == Quoted(raw) + (GapText(beforeColon) + (":" + ParseName(text).rest))
  {
    hide SkipGap, ParseString, Unescape, StartsWithGap, ValidLiteral, Closed;
    raw := StringIsLiteral(text);
    var rest := ParseString(text).rest;
    beforeColon := SkippedIsGap(rest);
    var left := SkipGap(rest);
    assert left == ":" + left[1..];
  }

  lemma OneMoreMember(
    member: MemberDoc, text: string, read: map<string, Json>, name: Parsed<string>, first: Parsed<Json>, more: string,
    rest: seq<MemberDoc>, close: Gap, r: Parsed<Json>) returns (members: seq<MemberDoc>)
    requires Closed(member.before) && text == GapText(member.before) + SkipGap(text)
    requires ValidLiteral(member.name) && Closed(member.beforeColon) && name.value == Unescape(member.name)
    requires SkipGap(text) == Quoted(member.name) + (GapText(member.beforeColon) + (":" + name.rest))
    requires first.value.Some? && IsDocument(name.rest, member.afterColon, member.doc, first.value.value, first.rest)
    requires Closed(member.after) && first.rest == Separate(member.after, member.comma, more)
    requires AreMembers(more, read[name.value.value := first.value.value], rest, close, r)
    ensures AreMembers(text, read, members, close, r)
  {
    hide Closed, GapText, Render, SkipGap, Valid, DocValue, ExtendsNumber, ValidLiteral, Unescape, Quoted;
    members := [member] + rest;
    assert members[0] == member && members[1..] == rest;
    ValidLiteralUnescapes(member.name);
  }

  lemma ValidLiteralUnescapes(raw: string)
    requires ValidLiteral(raw)
    ensures Unescape(raw).Some?
  {
    hide Unescape;
  }

  // ---------------------------------------------------------------- the language

  /** The parser accepts exactly the documents, and reads each as the one value it stands for. */
  lemma AcceptedExactly(text: string, value: Json, rest: string)
    ensures ParseValue(text) == Parsed(Some(value), rest) <==> exists gap, doc :: IsDocument(text, gap, doc, value, rest)
  {
    if ParseValue(text) == Parsed(Some(value), rest) {
      var gap, doc := ValueIsDoc(text);
    }
    if gap, doc :| IsDocument(text, gap, doc, value, rest) {
      hide ParseValue;
      DocParsesAfterGap(gap, doc, rest);
    }
  }

  /** A text is a document in one way only, as far as its value and its rest are concerned. */
  lemma ValueIsUnique(text: string, gap: Gap, doc: Doc, rest: string, gap': Gap, doc': Doc, rest': string)
    requires Valid(doc) && Valid(doc')
    requires IsDocument(text, gap, doc, DocValue(doc), rest) && IsDocument(text, gap', doc', DocValue(doc'), rest')
    ensures DocValue(doc) == DocValue(doc') && rest == rest'
  {
    hide ParseValue, DocValue, Valid, Render;
    AcceptedExactly(text, DocValue(doc), rest);
    AcceptedExactly(text, DocValue(doc'), rest');
  }
}

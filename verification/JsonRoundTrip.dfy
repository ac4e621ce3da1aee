/** Printing a document and parsing the text gives the document back. */
module JsonRoundTrip {
  import opened Wrappers
  import opened Sequences
  import opened Strings
  import opened JsonGaps
  import opened JsonStrings
  import opened JsonParser
  import opened JsonGrammar
  import opened JsonPrinter

  /** The value of a document in memory: the order of an object's members does not show, and a missing
      child is a null. With `cut`, strings and names are taken up to their first NUL. */
  function Value(tree: Tree, cut: bool): Json
    decreases tree
  {
    match tree
    case Missing => Null
    case NullNode => Null
    case BooleanNode(b) => Boolean(b)
    case NumberNode(n) => Number(n)
    case TextNode(s) => Text(Kept(s, cut))
    case ArrayNode(items) => Array(Values(items, cut))
    case ObjectNode(entries) => Object(EntryValues(entries, map[], cut))
  }

  function Kept(s: string, cut: bool): string {
    if cut then UpToNul(s) else s
  }

  function Values(items: seq<Tree>, cut: bool): (values: seq<Json>)
    ensures |values| == |items|
    ensures forall i | 0 <= i < |items| :: values[i] == Value(items[i], cut)
    decreases items
  {
    if items == [] then [] else [Value(items[0], cut)] + Values(items[1..], cut)
  }

  function EntryValues(entries: seq<Entry>, earlier: map<string, Json>, cut: bool): map<string, Json>
    decreases entries
  {
    if entries == [] then earlier
    else EntryValues(entries[1..], earlier[Kept(entries[0].name, cut) := Value(entries[0].value, cut)], cut)
  }

  /** Numbers are within the range that prints exactly. */
  predicate Printable(tree: Tree)
    decreases tree
  {
    match tree
    case NumberNode(n) => 0 - NUMBER_LIMIT < n < NUMBER_LIMIT
    case ArrayNode(items) => forall i | 0 <= i < |items| :: Printable(items[i])
    case ObjectNode(entries) => forall i | 0 <= i < |entries| :: Printable(entries[i].value)
    case _ => true
  }

  // ---------------------------------------------------------------- the document the printer writes

  function Blanks(count: nat): (gap: Gap)
    ensures Closed(gap)
  {
    seq(count, _ => Blank(' '))
  }

  lemma {:induction false} BlanksText(count: nat)
    ensures GapText(Blanks(count)) == Spaces(count)
  {
    if count > 0 {
      assert Blanks(count)[1..] == Blanks(count - 1);
      BlanksText(count - 1);
    }
  }

  /** The gap of a line break: the line ending, then the indentation. */
  function LineGap(o: Options, ending: Gap, depth: nat): Gap {
    if o.isIndented then ending + Blanks(depth * o.indentationDepth) else []
  }

  function DocOf(tree: Tree, o: Options, ending: Gap, depth: nat): Doc
    decreases tree
  {
    match tree
    case Missing => NullDoc
    case NullNode => NullDoc
    case BooleanNode(b) => BooleanDoc(b)
    case NumberNode(n) => NumberDoc(n < 0, DigitsOfNat(if n < 0 then -n else n))
    case TextNode(s) => TextDoc(Escape(s))
    case ArrayNode(items) =>
      if items == [] then ArrayDoc([], [])
      else ArrayDoc(ItemDocs(items, o, ending, depth + 1), LineGap(o, ending, depth))
    case ObjectNode(entries) =>
      if entries == [] then ObjectDoc([], [])
      else ObjectDoc(EntryDocs(entries, o, ending, depth + 1), LineGap(o, ending, depth))
  }

  function ItemDocs(items: seq<Tree>, o: Options, ending: Gap, depth: nat): (docs: seq<ItemDoc>)
    ensures |docs| == |items|
    decreases items
  {
    if items == [] then []
    else
      [ItemDoc(LineGap(o, ending, depth), DocOf(items[0], o, ending, depth), [], |items| > 1)]
      + ItemDocs(items[1..], o, ending, depth)
  }

  function EntryDocs(entries: seq<Entry>, o: Options, ending: Gap, depth: nat): (docs: seq<MemberDoc>)
    ensures |docs| == |entries|
    decreases entries
  {
    if entries == [] then []
    else
      [MemberDoc(LineGap(o, ending, depth), Escape(entries[0].name), [], if o.isIndented then Blanks(1) else [],
                 DocOf(entries[0].value, o, ending, depth), [], |entries| > 1)]
      + EntryDocs(entries[1..], o, ending, depth)
  }

  /** Where lines are ended at all, their ending is a gap. */
  ghost predicate IsEnding(o: Options, ending: Gap) {
    o.isIndented ==> Closed(ending) && GapText(ending) == o.lineEnding
  }

  // ---------------------------------------------------------------- that document is valid and has the value

  lemma LineGapCloses(o: Options, ending: Gap, depth: nat)
    requires IsEnding(o, ending)
    ensures Closed(LineGap(o, ending, depth))
  {
  }

  lemma {:induction false} DocOfValid(tree: Tree, o: Options, ending: Gap, depth: nat)
    requires Printable(tree) && IsEnding(o, ending)
    ensures Valid(DocOf(tree, o, ending, depth))
    ensures DocValue(DocOf(tree, o, ending, depth)) == Value(tree, true)
    decreases tree
  {
    match tree
    case TextNode(s) =>
      EscapeIsClosed(s);
      UnescapeEscaped(s);
    case ArrayNode(items) =>
      LineGapCloses(o, ending, depth);
      ItemDocsValid(items, o, ending, depth + 1);
    case ObjectNode(entries) =>
      LineGapCloses(o, ending, depth);
      EntryDocsValid(entries, o, ending, depth + 1, map[]);
    case _ =>
  }

  lemma {:induction false} ItemDocsValid(items: seq<Tree>, o: Options, ending: Gap, depth: nat)
    requires (forall i | 0 <= i < |items| :: Printable(items[i])) && IsEnding(o, ending)
    ensures ValidItems(ItemDocs(items, o, ending, depth))
    ensures ItemValues(ItemDocs(items, o, ending, depth)) == Values(items, true)
    decreases items
  {
    if items != [] {
      LineGapCloses(o, ending, depth);
      DocOfValid(items[0], o, ending, depth);
      ItemDocsValid(items[1..], o, ending, depth);
      assert ItemDocs(items, o, ending, depth)[1..] == ItemDocs(items[1..], o, ending, depth);
    }
  }

  lemma {:induction false} EntryDocsValid(
    entries: seq<Entry>, o: Options, ending: Gap, depth: nat, earlier: map<string, Json>)
    requires (forall i | 0 <= i < |entries| :: Printable(entries[i].value)) && IsEnding(o, ending)
    ensures ValidMembers(EntryDocs(entries, o, ending, depth))
    ensures MemberValues(EntryDocs(entries, o, ending, depth), earlier) == EntryValues(entries, earlier, true)
    decreases entries
  {
    if entries != [] {
      var entry := entries[0];
      LineGapCloses(o, ending, depth);
      EscapeIsClosed(entry.name);
      UnescapeEscaped(entry.name);
      DocOfValid(entry.value, o, ending, depth);
      EntryDocsValid(entries[1..], o, ending, depth, earlier[UpToNul(entry.name) := Value(entry.value, true)]);
      assert EntryDocs(entries, o, ending, depth)[1..] == EntryDocs(entries[1..], o, ending, depth);
    }
  }

  // ---------------------------------------------------------------- the printer's text is that document's text

  lemma EndingText(o: Options, ending: Gap)
    requires IsEnding(o, ending) && o.isIndented
    ensures GapText(ending) == o.lineEnding
  {
  }

  lemma EmitLineRenders(buffer: string, o: Options, ending: Gap, depth: nat, rest: string)
    requires IsEnding(o, ending)
    ensures EmitLine(buffer, o, depth) + rest == buffer + (GapText(LineGap(o, ending, depth)) + rest)
  {
    if o.isIndented {
      var count := depth * o.indentationDepth;
      BlanksText(count);
      GapTextConcat(ending, Blanks(count));
      hide Blanks, Spaces, GapText, Closed, IsEnding;
      assert GapText(ending) == o.lineEnding by {
        EndingText(o, ending);
      }
      Regroup(buffer, o.lineEnding, Spaces(count));
      Regroup(buffer, o.lineEnding + Spaces(count), rest);
    } else {
      assert "" + rest == rest;
    }
  }

  /** What the stream holds after printing a document is what it held before, then the document's text. */
  lemma {:induction false} EmitRenders(
    buffer: string, tree: Tree, o: Options, ending: Gap, depth: nat, rest: string)
    requires IsEnding(o, ending)
    ensures Emit(buffer, tree, o, depth) + rest == buffer + Render(DocOf(tree, o, ending, depth), rest)
    decreases tree, 1
  {
    hide EmitItems, EmitEntries, ItemDocs, EntryDocs, RenderItems, RenderMembers, Escape, DigitsOfNat, IsEnding, LineGap;
    match tree
    case ArrayNode(items) => EmitArrayRenders(buffer, items, o, ending, depth, rest);
    case ObjectNode(entries) => EmitObjectRenders(buffer, entries, o, ending, depth, rest);
    case NumberNode(n) =>
      Regroup(buffer, NumberText(n), rest);
      Regroup(if n < 0 then "-" else "", DigitsOfNat(if n < 0 then -n else n), rest);
    case BooleanNode(b) => Regroup(buffer, if b then "true" else "false", rest);
    case TextNode(s) => Regroup(buffer, Quoted(Escape(s)), rest);
    case _ => Regroup(buffer, "null", rest);
  }

  lemma NothingRendered(rest: string)
    ensures RenderItems([], rest) == RenderMembers([], rest) == rest && GapText([]) + rest == rest
  {
  }

  lemma EmitArrayRenders(
    buffer: string, items: seq<Tree>, o: Options, ending: Gap, depth: nat, rest: string)
    requires IsEnding(o, ending)
    ensures Emit(buffer, ArrayNode(items), o, depth) + rest ==
            buffer + Render(DocOf(ArrayNode(items), o, ending, depth), rest)
    decreases items, 1
  {
    hide EmitItems, ItemDocs, RenderItems, EmitLine, LineGap, GapText, IsEnding;
    if items == [] {
      NothingRendered("]" + rest);
      assert buffer + "[]" + rest == buffer + ("[" + ("]" + rest));
    } else {
      var inner, close := EmitItems(buffer + "[", items, o, depth + 1, true), LineGap(o, ending, depth);
      Regroup(EmitLine(inner, o, depth), "]", rest);
      EmitLineRenders(inner, o, ending, depth, "]" + rest);
      EmitItemsRender(buffer + "[", items, o, ending, depth + 1, GapText(close) + ("]" + rest));
      Regroup(buffer, "[", RenderItems(ItemDocs(items, o, ending, depth + 1), GapText(close) + ("]" + rest)));
    }
  }

  lemma EmitObjectRenders(
    buffer: string, entries: seq<Entry>, o: Options, ending: Gap, depth: nat, rest: string)
    requires IsEnding(o, ending)
    ensures Emit(buffer, ObjectNode(entries), o, depth) + rest ==
            buffer + Render(DocOf(ObjectNode(entries), o, ending, depth), rest)
    decreases entries, 1
  {
    hide EmitEntries, EntryDocs, RenderMembers, EmitLine, LineGap, GapText, IsEnding;
    if entries == [] {
      NothingRendered("}" + rest);
      assert buffer + "{}" + rest == buffer + ("{" + ("}" + rest));
    } else {
      var inner, close := EmitEntries(buffer + "{", entries, o, depth + 1, true), LineGap(o, ending, depth);
      Regroup(EmitLine(inner, o, depth), "}", rest);
      EmitLineRenders(inner, o, ending, depth, "}" + rest);
      EmitEntriesRender(buffer + "{", entries, o, ending, depth + 1, GapText(close) + ("}" + rest));
      Regroup(buffer, "{", RenderMembers(EntryDocs(entries, o, ending, depth + 1), GapText(close) + ("}" + rest)));
    }
  }

  lemma {:induction false} EmitItemsRender(
    buffer: string, items: seq<Tree>, o: Options, ending: Gap, depth: nat, rest: string)
    requires IsEnding(o, ending) && items != []
    ensures EmitItems(buffer, items, o, depth, true) + rest ==
            buffer + RenderItems(ItemDocs(items, o, ending, depth), rest)
    decreases items, 0
  {
    var docs := ItemDocs(items, o, ending, depth);
    var line := EmitLine(buffer, o, depth);
    var item := Emit(line, items[0], o, depth);
    assert docs[1..] == ItemDocs(items[1..], o, ending, depth);
    var more := Separate([], |items| > 1, RenderItems(docs[1..], rest));
    if |items| == 1 {
      assert EmitItems(item, items[1..], o, depth, false) == item;
      assert more == "" + rest == rest;
    } else {
      assert EmitItems(item, items[1..], o, depth, false) == EmitItems(item + ",", items[1..], o, depth, true);
      EmitItemsRender(item + ",", items[1..], o, ending, depth, rest);
      Regroup(item, ",", RenderItems(docs[1..], rest));
      assert more == "" + ("," + RenderItems(docs[1..], rest)) == "," + RenderItems(docs[1..], rest);
    }
    EmitRenders(line, items[0], o, ending, depth, more);
    EmitLineRenders(buffer, o, ending, depth, Render(DocOf(items[0], o, ending, depth), more));
  }

  lemma EmitNameRenders(buffer: string, entry: Entry, o: Options, member: MemberDoc, rest: string)
    requires member.name == Escape(entry.name) && member.beforeColon == []
    requires member.afterColon == if o.isIndented then Blanks(1) else []
    ensures EmitName(buffer, entry.name, o) + rest == buffer + RenderName(member, rest)
  {
    var quoted := Quoted(member.name);
    BlanksText(1);
    var colon := if o.isIndented then ": " else ":";
    assert colon + rest == ":" + (GapText(member.afterColon) + rest);
    assert "" + (":" + (GapText(member.afterColon) + rest)) == ":" + (GapText(member.afterColon) + rest);
    assert buffer + quoted + colon + rest == buffer + (quoted + (colon + rest));
  }

  lemma {:induction false} EmitEntriesRender(
    buffer: string, entries: seq<Entry>, o: Options, ending: Gap, depth: nat, rest: string)
    requires IsEnding(o, ending) && entries != []
    ensures EmitEntries(buffer, entries, o, depth, true) + rest ==
            buffer + RenderMembers(EntryDocs(entries, o, ending, depth), rest)
    decreases entries, 0
  {
    var docs := EntryDocs(entries, o, ending, depth);
    var line := EmitLine(buffer, o, depth);
    var named := EmitName(line, entries[0].name, o);
    var value := Emit(named, entries[0].value, o, depth);
    assert docs[1..] == EntryDocs(entries[1..], o, ending, depth);
    var more := Separate([], |entries| > 1, RenderMembers(docs[1..], rest));
    if |entries| == 1 {
      assert EmitEntries(value, entries[1..], o, depth, false) == value;
      assert more == "" + rest == rest;
    } else {
      assert EmitEntries(value, entries[1..], o, depth, false) == EmitEntries(value + ",", entries[1..], o, depth, true);
      EmitEntriesRender(value + ",", entries[1..], o, ending, depth, rest);
      Regroup(value, ",", RenderMembers(docs[1..], rest));
      assert more == "" + ("," + RenderMembers(docs[1..], rest)) == "," + RenderMembers(docs[1..], rest);
    }
    EmitRenders(named, entries[0].value, o, ending, depth, more);
    var text := Render(DocOf(entries[0].value, o, ending, depth), more);
    EmitNameRenders(line, entries[0], o, docs[0], text);
    EmitLineRenders(buffer, o, ending, depth, RenderName(docs[0], text));
  }

  // ---------------------------------------------------------------- the round trip

  /** Printed text is read as the document's value, whatever the indentation, the line ending (where it is written, any closed
      gap, so any whitespace), the member order and the text that follows. */
  lemma PrintedTextParses(tree: Tree, o: Options, ending: Gap, depth: nat, rest: string)
    requires Printable(tree) && IsEnding(o, ending)
    requires tree.NumberNode? ==> !ExtendsNumber(rest)
    ensures ParseValue(Emit("", tree, o, depth) + rest) == Parsed(Some(Value(tree, true)), rest)
  {
    var doc := DocOf(tree, o, ending, depth);
    DocOfValid(tree, o, ending, depth);
    EmitRenders("", tree, o, ending, depth, rest);
    assert "" + Render(doc, rest) == Render(doc, rest);
    DocParses(doc, rest);
  }

  // ---------------------------------------------------------------- when the round trip is exact

  ghost predicate DistinctNames(tree: Tree)
    decreases tree
  {
    match tree
    case ArrayNode(items) => forall i | 0 <= i < |items| :: DistinctNames(items[i])
    case ObjectNode(entries) => Distinct(entries) && forall i | 0 <= i < |entries| :: DistinctNames(entries[i].value)
    case _ => true
  }

  ghost predicate Distinct(entries: seq<Entry>) {
    forall i, j | 0 <= i < j < |entries| :: entries[i].name != entries[j].name
  }

  predicate NulFree(tree: Tree)
    decreases tree
  {
    match tree
    case TextNode(s) => '\0' !in s
    case ArrayNode(items) => forall i | 0 <= i < |items| :: NulFree(items[i])
    case ObjectNode(entries) =>
      forall i | 0 <= i < |entries| :: '\0' !in entries[i].name && NulFree(entries[i].value)
    case _ => true
  }

  predicate NulFreeValue(value: Json)
    decreases value
  {
    match value
    case Text(s) => '\0' !in s
    case Array(items) => forall i | 0 <= i < |items| :: NulFreeValue(items[i])
    case Object(members) => forall name | name in members :: '\0' !in name && NulFreeValue(members[name])
    case _ => true
  }

  /** The members of an object are its entries, whatever their order. */
  lemma {:induction false} EntryValuesAre(entries: seq<Entry>, earlier: map<string, Json>)
    requires Distinct(entries)
    ensures var all := EntryValues(entries, earlier, false);
            && (forall i | 0 <= i < |entries| ::
                  entries[i].name in all && all[entries[i].name] == Value(entries[i].value, false))
            && (forall name | name in all ::
                  (exists i | 0 <= i < |entries| :: entries[i].name == name) || (name in earlier && all[name] == earlier[name]))
            && (forall name | name in earlier :: name in all)
            && (forall name | name in earlier && (forall i | 0 <= i < |entries| :: entries[i].name != name) ::
                  all[name] == earlier[name])
    decreases entries
  {
    if entries != [] {
      var next := earlier[entries[0].name := Value(entries[0].value, false)];
      EntryValuesAre(entries[1..], next);
      var all := EntryValues(entries, earlier, false);
      assert all == EntryValues(entries[1..], next, false);
      forall i | 0 <= i < |entries|
        ensures entries[i].name in all && all[entries[i].name] == Value(entries[i].value, false)
      {
        if i > 0 {
          assert entries[1..][i - 1] == entries[i];
        } else {
          assert forall j | 0 <= j < |entries[1..]| :: entries[1..][j].name != entries[0].name;
        }
      }
      forall name | name in all && !(exists i | 0 <= i < |entries| :: entries[i].name == name)
        ensures name in earlier && all[name] == earlier[name]
      {
        assert entries[0].name != name;
        assert forall j | 0 <= j < |entries[1..]| :: entries[1..][j] == entries[j + 1];
      }
    }
  }

  /** Two objects with the same entries have the same value, in whatever order their maps iterate. */
  lemma MemberOrderDoesNotMatter(a: seq<Entry>, b: seq<Entry>)
    requires Distinct(a) && Distinct(b)
    requires forall e :: e in a <==> e in b
    ensures Value(ObjectNode(a), false) == Value(ObjectNode(b), false)
  {
    OrderIsLost(a, b);
    OrderIsLost(b, a);
    assert EntryValues(a, map[], false) == EntryValues(b, map[], false);
  }

  lemma OrderIsLost(a: seq<Entry>, b: seq<Entry>)
    requires Distinct(a) && Distinct(b) && forall e | e in a :: e in b
    ensures var va, vb := EntryValues(a, map[], false), EntryValues(b, map[], false);
      forall name | name in va :: name in vb && va[name] == vb[name]
  {
    hide Value, EntryValues, Distinct;
    EntryValuesAre(a, map[]);
    EntryValuesAre(b, map[]);
    forall name | name in EntryValues(a, map[], false)
      ensures name in EntryValues(b, map[], false) && EntryValues(a, map[], false)[name] == EntryValues(b, map[], false)[name]
    {
      var i :| 0 <= i < |a| && a[i].name == name;
      assert a[i] in b;
    }
  }

  /** What is read back holds no NUL. */
  lemma {:induction false} CutIsNulFree(tree: Tree)
    ensures NulFreeValue(Value(tree, true))
    decreases tree
  {
    match tree
    case TextNode(s) => UpToNulIsWhole(s);
    case ArrayNode(items) =>
      forall i | 0 <= i < |items|
        ensures NulFreeValue(Values(items, true)[i])
      {
        CutIsNulFree(items[i]);
      }
    case ObjectNode(entries) => CutEntriesAreNulFree(entries, map[]);
    case _ =>
  }

  lemma {:induction false} CutEntriesAreNulFree(entries: seq<Entry>, earlier: map<string, Json>)
    requires NulFreeValue(Object(earlier))
    ensures NulFreeValue(Object(EntryValues(entries, earlier, true)))
    decreases entries
  {
    if entries != [] {
      UpToNulIsWhole(entries[0].name);
      CutIsNulFree(entries[0].value);
      CutEntriesAreNulFree(entries[1..], earlier[UpToNul(entries[0].name) := Value(entries[0].value, true)]);
    }
  }

  /** Every name and string of a document shows in its value. */
  lemma {:induction false} NulShows(tree: Tree)
    requires DistinctNames(tree) && NulFreeValue(Value(tree, false))
    ensures NulFree(tree)
    decreases tree
  {
    match tree
    case ArrayNode(items) =>
      forall i | 0 <= i < |items|
        ensures NulFree(items[i])
      {
        assert Values(items, false)[i] == Value(items[i], false);
        NulShows(items[i]);
      }
    case ObjectNode(entries) =>
      EntryValuesAre(entries, map[]);
      forall i | 0 <= i < |entries|
        ensures '\0' !in entries[i].name && NulFree(entries[i].value)
      {
        assert entries[i].name in EntryValues(entries, map[], false);
        NulShows(entries[i].value);
      }
    case _ =>
  }

  lemma {:induction false} NothingCut(tree: Tree)
    requires NulFree(tree)
    ensures Value(tree, true) == Value(tree, false)
    decreases tree
  {
    match tree
    case TextNode(s) => UpToNulIsWhole(s);
    case ArrayNode(items) =>
      forall i | 0 <= i < |items|
        ensures Values(items, true)[i] == Values(items, false)[i]
      {
        NothingCut(items[i]);
      }
      assert Values(items, true) == Values(items, false);
    case ObjectNode(entries) => NothingCutEntries(entries, map[]);
    case _ =>
  }

  lemma {:induction false} NothingCutEntries(entries: seq<Entry>, earlier: map<string, Json>)
    requires NulFree(ObjectNode(entries))
    ensures EntryValues(entries, earlier, true) == EntryValues(entries, earlier, false)
    decreases entries
  {
    if entries != [] {
      UpToNulIsWhole(entries[0].name);
      NothingCut(entries[0].value);
      assert NulFree(ObjectNode(entries[1..])) by {
        forall i | 0 <= i < |entries[1..]|
          ensures '\0' !in entries[1..][i].name && NulFree(entries[1..][i].value)
        {
          assert entries[1..][i] == entries[i + 1];
        }
      }
      NothingCutEntries(entries[1..], earlier[entries[0].name := Value(entries[0].value, false)]);
    }
  }

  /** Printing and parsing is the identity on a document exactly when no string and no name in it has a NUL. */
  lemma RoundTripIsExact(tree: Tree, o: Options, ending: Gap, depth: nat)
    requires Printable(tree) && DistinctNames(tree) && IsEnding(o, ending)
    ensures ParseValue(Emit("", tree, o, depth)) == Parsed(Some(Value(tree, false)), "") <==> NulFree(tree)
  {
    PrintedTextParses(tree, o, ending, depth, "");
    assert Emit("", tree, o, depth) + "" == Emit("", tree, o, depth);
    CutIsNulFree(tree);
    if NulFree(tree) {
      NothingCut(tree);
    } else if NulFreeValue(Value(tree, false)) {
      NulShows(tree);
    }
  }
}

/** The printer: a stream that defers its indentation, and the document written to it. */
module JsonPrinter {
  import opened Strings
  import opened JsonStrings

  /** A document in memory. An object lists its members in the order its hash map happens to iterate,
      and a child pointer may be missing. */
  datatype Tree =
    | Missing
    | NullNode
    | BooleanNode(b: bool)
    | NumberNode(n: int)
    | TextNode(s: string)
    | ArrayNode(items: seq<Tree>)
    | ObjectNode(entries: seq<Entry>)

  datatype Entry = Entry(name: string, value: Tree)

  datatype Options = Options(isIndented: bool, indentationDepth: nat, lineEnding: string)

  function Spaces(count: nat): (s: string)
    ensures |s| == count
  {
    seq(count, _ => ' ')
  }

  /** The text of an integer of magnitude below 10^15, at the 15 digits of precision the stream is set to. */
  function NumberText(n: int): string {
    if n < 0 then "-" + DigitsOfNat(-n) else DigitsOfNat(n)
  }

  class JsonStream {
    const options: Options
    var buffer: string
    var indentation: nat
    var isLineStart: bool

    constructor (options: Options)
      ensures this.options == options && buffer == "" && indentation == 0 && !isLineStart
    {
      this.options, buffer, indentation, isLineStart := options, "", 0, false;
    }

    /** What the next write puts in front of its text. */
    function Pending(): string
      reads this
    {
      if isLineStart then Spaces(indentation * options.indentationDepth) else ""
    }

    method WriteIndentation()
      modifies this`buffer, this`isLineStart
      ensures buffer == old(buffer + Pending()) && !isLineStart
    {
      if isLineStart {
        isLineStart := false;
        buffer := buffer + Spaces(indentation * options.indentationDepth);
      } else {
        assert buffer + "" == buffer;
      }
    }

    method Write(text: string)
      modifies this`buffer, this`isLineStart
      ensures buffer == old(buffer + Pending()) + text && !isLineStart
    {
      WriteIndentation();
      buffer := buffer + text;
    }

    method WriteLine(text: string)
      modifies this`buffer, this`isLineStart
      ensures buffer == old(buffer + Pending()) + text + (if options.isIndented then options.lineEnding else "")
      ensures isLineStart == options.isIndented
    {
      Write(text);
      if options.isIndented {
        buffer := buffer + options.lineEnding;
        isLineStart := true;
      } else {
        assert buffer + "" == buffer;
      }
    }

    method PushIndentation()
      modifies this`indentation
      ensures indentation == old(indentation) + 1
    {
      indentation := indentation + 1;
    }

    method PopIndentation()
      modifies this`indentation
      ensures indentation == if old(indentation) > 0 then old(indentation) - 1 else 0
    {
      if indentation > 0 {
        indentation := indentation - 1;
      }
    }
  }

  // ---------------------------------------------------------------- the text of a document

  /** The buffer with a line break and the indentation of the next line. */
  function EmitLine(buffer: string, o: Options, depth: nat): string {
    if o.isIndented then buffer + o.lineEnding + Spaces(depth * o.indentationDepth) else buffer
  }

  /** The buffer with a document written to it. */
  function Emit(buffer: string, tree: Tree, o: Options, depth: nat): string
    decreases tree
  {
    match tree
    case Missing => buffer + "null"
    case NullNode => buffer + "null"
    case BooleanNode(b) => buffer + (if b then "true" else "false")
    case NumberNode(n) => buffer + NumberText(n)
    case TextNode(s) => buffer + ("\"" + Escape(s) + "\"")
    case ArrayNode(items) =>
      if items == [] then buffer + "[]"
      else EmitLine(EmitItems(buffer + "[", items, o, depth + 1, true), o, depth) + "]"
    case ObjectNode(entries) =>
      if entries == [] then buffer + "{}"
      else EmitLine(EmitEntries(buffer + "{", entries, o, depth + 1, true), o, depth) + "}"
  }

  /** The comma of every item but the first, and the line break of every item. */
  function EmitBreak(buffer: string, o: Options, depth: nat, first: bool): string {
    EmitLine(if first then buffer else buffer + ",", o, depth)
  }

  function EmitItems(buffer: string, items: seq<Tree>, o: Options, depth: nat, first: bool): string
    decreases items
  {
    if items == [] then buffer
    else EmitItems(Emit(EmitBreak(buffer, o, depth, first), items[0], o, depth), items[1..], o, depth, false)
  }

  function EmitName(buffer: string, name: string, o: Options): string {
    buffer + ("\"" + Escape(name) + "\"") + (if o.isIndented then ": " else ":")
  }

  function EmitEntries(buffer: string, entries: seq<Entry>, o: Options, depth: nat, first: bool): string
    decreases entries
  {
    if entries == [] then buffer
    else
      var named := EmitName(EmitBreak(buffer, o, depth, first), entries[0].name, o);
      EmitEntries(Emit(named, entries[0].value, o, depth), entries[1..], o, depth, false)
  }

  // ---------------------------------------------------------------- the loops

  /** Prints a document after what the stream holds, and leaves the indentation as it was. */
  method Print(tree: Tree, stream: JsonStream)
    modifies stream
    ensures stream.buffer == Emit(old(stream.buffer + stream.Pending()), tree, stream.options, old(stream.indentation))
    ensures stream.indentation == old(stream.indentation) && !stream.isLineStart
    decreases tree, 1
  {
    match tree {
      case Missing => stream.Write("null");
      case NullNode => stream.Write("null");
      case BooleanNode(b) => stream.Write(if b then "true" else "false");
      case NumberNode(n) => stream.Write(NumberText(n));
      case TextNode(s) =>
        var escaped := EscapeString(s);
        stream.Write("\"" + escaped + "\"");
      case ArrayNode(items) => PrintArray(items, stream);
      case ObjectNode(entries) => PrintObject(entries, stream);
    }
  }

  method PrintArray(items: seq<Tree>, stream: JsonStream)
    modifies stream
    ensures stream.buffer ==
      Emit(old(stream.buffer + stream.Pending()), ArrayNode(items), stream.options, old(stream.indentation))
    ensures stream.indentation == old(stream.indentation) && !stream.isLineStart
    decreases items, 0
  {
    if items == [] {
      stream.Write("[]");
      return;
    }
    var isFirst := true;
    ghost var o, depth := stream.options, stream.indentation + 1;
    ghost var start := stream.buffer + stream.Pending() + "[";
    ghost var goal := EmitItems(start, items, o, depth, true);
    stream.WriteLine("[");
    stream.PushIndentation();
    for i := 0 to |items|
      invariant stream.indentation == depth && isFirst == (i == 0)
      invariant isFirst ==> stream.isLineStart == o.isIndented
      invariant isFirst ==> stream.buffer == start + (if o.isIndented then o.lineEnding else "")
      invariant !isFirst ==> !stream.isLineStart
      invariant EmitItems(if isFirst then start else stream.buffer, items[i..], o, depth, isFirst) == goal
    {
      assert items[i..][0] == items[i] && items[i..][1..] == items[i + 1..];
      ghost var before := if isFirst then start else stream.buffer;
      if isFirst {
        isFirst := false;
        BreakWritten(before, o, depth, true);
      } else {
        BreakWritten(before, o, depth, false);
        stream.WriteLine(",");
      }
      assert stream.buffer + stream.Pending() == EmitBreak(before, o, depth, i == 0);
      Print(items[i], stream);
    }
    stream.PopIndentation();
    ghost var written := stream.buffer;
    stream.WriteLine("");
    LineWritten(written, o, depth - 1);
    stream.Write("]");
  }

  /** A line break and the indentation that is pending after it. */
  lemma LineWritten(buffer: string, o: Options, depth: nat)
    ensures buffer + "" + "" == buffer
    ensures buffer + "" + "" + (if o.isIndented then o.lineEnding else "") +
            (if o.isIndented then Spaces(depth * o.indentationDepth) else "") == EmitLine(buffer, o, depth)
  {
    assert buffer + "" == buffer;
  }

  lemma BreakWritten(buffer: string, o: Options, depth: nat, first: bool)
    ensures (if first then buffer else buffer + "" + ",") + (if o.isIndented then o.lineEnding else "") +
            (if o.isIndented then Spaces(depth * o.indentationDepth) else "") == EmitBreak(buffer, o, depth, first)
  {
    assert buffer + "" == buffer;
    var b := if first then buffer else buffer + ",";
    assert b + "" == b;
  }

  method PrintObject(entries: seq<Entry>, stream: JsonStream)
    modifies stream
    ensures stream.buffer ==
      Emit(old(stream.buffer + stream.Pending()), ObjectNode(entries), stream.options, old(stream.indentation))
    ensures stream.indentation == old(stream.indentation) && !stream.isLineStart
    decreases entries, 0
  {
    hide Emit, EmitEntries, EmitBreak, EmitLine, EmitName, Escape;
    ObjectText(stream.buffer + stream.Pending(), entries, stream.options, stream.indentation);
    if entries == [] {
      stream.Write("{}");
      return;
    }
    var isFirst := true;
    ghost var o, depth := stream.options, stream.indentation + 1;
    ghost var start := stream.buffer + stream.Pending() + "{";
    ghost var goal := EmitEntries(start, entries, o, depth, true);
    stream.WriteLine("{");
    stream.PushIndentation();
    assert entries[0..] == entries;
    for i := 0 to |entries|
      invariant stream.indentation == depth && isFirst == (i == 0)
      invariant isFirst ==> stream.isLineStart == o.isIndented
      invariant isFirst ==> stream.buffer == start + (if o.isIndented then o.lineEnding else "")
      invariant !isFirst ==> !stream.isLineStart
      invariant EmitEntries(if isFirst then start else stream.buffer, entries[i..], o, depth, isFirst) == goal
    {
      ghost var before := if isFirst then start else stream.buffer;
      NextEntry(before, entries, i, o, depth);
      BreakWritten(before, o, depth, isFirst);
      if isFirst {
        isFirst := false;
      } else {
        stream.WriteLine(",");
      }
      assert stream.buffer + stream.Pending() == EmitBreak(before, o, depth, i == 0);
      PrintName(entries[i].name, stream);
      assert stream.buffer + "" == stream.buffer;
      Print(entries[i].value, stream);
    }
    stream.PopIndentation();
    ghost var written := stream.buffer;
    assert entries[|entries|..] == [];
    NoMoreEntries(written, o, depth);
    stream.WriteLine("");
    LineWritten(written, o, depth - 1);
    stream.Write("}");
  }

  method PrintName(name: string, stream: JsonStream)
    modifies stream
    ensures stream.buffer == EmitName(old(stream.buffer + stream.Pending()), name, stream.options)
    ensures stream.indentation == old(stream.indentation) && !stream.isLineStart
  {
    hide Escape;
    var escaped := EscapeString(name);
    stream.Write("\"" + escaped + "\"");
    assert stream.buffer + "" == stream.buffer;
    stream.Write(if stream.options.isIndented then ": " else ":");
  }

  lemma ObjectText(buffer: string, entries: seq<Entry>, o: Options, depth: nat)
    ensures Emit(buffer, ObjectNode(entries), o, depth) ==
            if entries == [] then buffer + "{}"
            else EmitLine(EmitEntries(buffer + "{", entries, o, depth + 1, true), o, depth) + "}"
  {
  }

  lemma NextEntry(buffer: string, entries: seq<Entry>, i: nat, o: Options, depth: nat)
    requires i < |entries|
    ensures EmitEntries(buffer, entries[i..], o, depth, i == 0) ==
            EmitEntries(Emit(EmitName(EmitBreak(buffer, o, depth, i == 0), entries[i].name, o), entries[i].value, o, depth),
                        entries[i + 1..], o, depth, false)
  {
    hide Emit, EmitName, EmitBreak;
    assert entries[i..][0] == entries[i] && entries[i..][1..] == entries[i + 1..];
  }

  lemma NoMoreEntries(buffer: string, o: Options, depth: nat)
    ensures EmitEntries(buffer, [], o, depth, false) == buffer
  {
  }

  method ToString(tree: Tree, options: Options) returns (text: string)
    ensures text == Emit("", tree, options, 0)
  {
    var stream := new JsonStream(options);
    assert stream.buffer + stream.Pending() == "";
    Print(tree, stream);
    text := stream.buffer;
  }
}

/** What may stand between two tokens of a JSON text, and how the parser skips it. */
module JsonGaps {
  import opened Sequences
  import opened Wrappers
  import opened Strings

  /** A std::string_view passed by reference: the parser shrinks it from the front. */
  class StringView {
    var text: string

    constructor (text: string)
      ensures this.text == text
    {
      this.text := text;
    }
  }

  predicate IsBlank(c: char) {
    c == ' ' || c == '\r' || c == '\n' || c == '\t'
  }

  /** Whether a comment opens the text: line comments have a second slash, block comments an asterisk. */
  predicate Opens(text: string, kind: char) {
    |text| >= 2 && text[0] == '/' && text[1] == kind
  }

  /** The text after the comment that starts here: all of it when the comment is never closed. */
  function AfterComment(text: string, close: string): (rest: string)
    requires 2 <= |text| && close != ""
    ensures |rest| < |text|
  {
    match Find(text, close, 2)
    case None => ""
    case Some(end) => text[end + |close|..]
  }

  /** The text left after all leading whitespace and comments. */
  function SkipGap(text: string): (rest: string)
    ensures |rest| <= |text|
    decreases |text|
  {
    if text == "" then text
    else if IsBlank(text[0]) then SkipGap(text[1..])
    else if Opens(text, '/') then SkipGap(AfterComment(text, "\n"))
    else if Opens(text, '*') then SkipGap(AfterComment(text, "*/"))
    else text
  }

  /** Where the loop below continues after a comment found at `position`. */
  function CommentEnd(text: string, close: string, position: nat): (next: nat)
    requires position + 2 <= |text| && close != ""
    ensures position < next <= |text|
  {
    var end := Find(text, close, position + 2);
    if end.None? then |text| else end.value + |close|
  }

  lemma CommentEndInSuffix(text: string, close: string, position: nat)
    requires position + 2 <= |text| && close != ""
    ensures AfterComment(text[position..], close) == text[CommentEnd(text, close, position)..]
  {
    FindInSuffix(text, close, position, 2);
  }

  method SkipWhitespace(view: StringView)
    modifies view
    ensures view.text == SkipGap(old(view.text))
  {
    var text, position := view.text, 0;
    ghost var left := SkipGap(text);
    while position < |text|
      invariant position <= |text|
      invariant SkipGap(text[position..]) == left
    {
      ghost var ahead := text[position..];
      if IsBlank(text[position]) {
        position := position + 1;
        assert ahead[1..] == text[position..];
      } else if position + 1 < |text| && text[position] == '/' && text[position + 1] == '/' {
        CommentEndInSuffix(text, "\n", position);
        position := CommentEnd(text, "\n", position);
        assert Opens(ahead, '/');
      } else if position + 1 < |text| && text[position] == '/' && text[position + 1] == '*' {
        CommentEndInSuffix(text, "*/", position);
        position := CommentEnd(text, "*/", position);
        assert Opens(ahead, '*');
      } else {
        assert SkipGap(ahead) == ahead;
        break;
      }
    }
    view.text := text[position..];
  }

  /** One closed piece of a gap: a blank, a line comment with its line feed, or a block comment with its end. */
  datatype Piece = Blank(c: char) | Line(body: string) | Block(body: string)

  type Gap = seq<Piece>

  /** The end mark of a comment does not show up before the body is over. */
  ghost predicate Unclosed(body: string, close: string) {
    forall k: nat | k < |body| :: !OccursAt(body + close, close, k)
  }

  ghost predicate ClosedPiece(p: Piece) {
    match p
    case Blank(c) => IsBlank(c)
    case Line(body) => Unclosed(body, "\n")
    case Block(body) => Unclosed(body, "*/")
  }

  ghost predicate Closed(gap: Gap) {
    forall i | 0 <= i < |gap| :: ClosedPiece(gap[i])
  }

  function PieceText(p: Piece): string {
    match p
    case Blank(c) => [c]
    case Line(body) => "//" + body + "\n"
    case Block(body) => "/*" + body + "*/"
  }

  function GapText(gap: Gap): string {
    if gap == [] then "" else PieceText(gap[0]) + GapText(gap[1..])
  }

  lemma {:induction false} GapTextConcat(a: Gap, b: Gap)
    ensures GapText(a + b) == GapText(a) + GapText(b)
  {
    if a == [] {
      assert a + b == b;
    } else {
      assert (a + b)[1..] == a[1..] + b;
      GapTextConcat(a[1..], b);
    }
  }

  /** A closed comment ends where it says it does, whatever follows. */
  lemma AfterClosedComment(open: string, body: string, close: string, rest: string)
    requires |open| == 2 && close != "" && Unclosed(body, close)
    ensures AfterComment(open + body + close + rest, close) == rest
  {
    var text := open + body + close + rest;
    assert text[|body| + 2..|body| + 2 + |close|] == close;
    assert OccursAt(text, close, |body| + 2);
    var end := Find(text, close, 2).value;
    if end < |body| + 2 {
      assert (body + close)[end - 2..end - 2 + |close|] == text[end..end + |close|];
      assert OccursAt(body + close, close, end - 2);
    }
  }

  /** What a comment skipped is its opening, an unclosed body, and its end. */
  lemma CommentBody(text: string, close: string) returns (body: string)
    requires 2 <= |text| && close != "" && Find(text, close, 2).Some?
    ensures Unclosed(body, close)
    ensures text == text[..2] + body + close + AfterComment(text, close)
  {
    hide Find;
    var end := Find(text, close, 2).value;
    body := text[2..end];
    CutAt(text, end, close);
    var part := text[2..end + |close|];
    forall k: nat | k < |body|
      ensures !OccursAt(part, close, k)
    {
      assert !OccursAt(text, close, k + 2);
      if k + |close| <= |part| {
        SliceOfSlice(text, 2, end + |close|, k, k + |close|);
      }
    }
  }

  lemma CutAt(text: string, end: nat, close: string)
    requires 2 <= end && OccursAt(text, close, end)
    ensures text[2..end] + close == text[2..end + |close|]
    ensures text == text[..2] + text[2..end] + close + text[end + |close|..]
  {
    var after := text[end..];
    assert after[..|close|] == close;
    assert after == close + text[end + |close|..];
  }

  lemma SkipsPiece(p: Piece, rest: string)
    requires ClosedPiece(p)
    ensures SkipGap(PieceText(p) + rest) == SkipGap(rest)
  {
    var text := PieceText(p) + rest;
    match p
    case Blank(c) =>
      assert text[1..] == rest;
    case Line(body) =>
      AfterClosedComment("//", body, "\n", rest);
      assert Opens(text, '/');
    case Block(body) =>
      AfterClosedComment("/*", body, "*/", rest);
      assert Opens(text, '*');
  }

  /** The parser skips every closed gap in full, whatever follows it. */
  lemma {:induction false} SkipsClosedGap(gap: Gap, rest: string)
    requires Closed(gap)
    ensures SkipGap(GapText(gap) + rest) == SkipGap(rest)
  {
    if gap == [] {
      assert GapText(gap) + rest == rest;
    } else {
      assert GapText(gap) + rest == PieceText(gap[0]) + (GapText(gap[1..]) + rest);
      SkipsPiece(gap[0], GapText(gap[1..]) + rest);
      SkipsClosedGap(gap[1..], rest);
    }
  }

  /** Space, tab, line feed and carriage return (section 2 of RFC 8259) are skipped, and nothing else is but comments. */
  lemma WhitespaceIsSkipped(c: char, rest: string)
    requires c != '/'
    ensures SkipGap([c] + rest) ==
            if c as int == 0x20 || c as int == 0x09 || c as int == 0x0A || c as int == 0x0D then SkipGap(rest) else [c] + rest
  {
    assert ([c] + rest)[1..] == rest;
  }

  /** Whether a text starts with something the parser skips. */
  predicate StartsWithGap(text: string) {
    text != "" && (IsBlank(text[0]) || Opens(text, '/') || Opens(text, '*'))
  }

  /** The converse: what was skipped is a closed gap, unless a comment ran to the end of the text;
      and what is left does not start with a blank or a comment. */
  lemma {:induction false} SkippedIsGap(text: string) returns (gap: Gap)
    ensures Closed(gap)
    ensures SkipGap(text) != "" ==> GapText(gap) + SkipGap(text) == text
    ensures !StartsWithGap(SkipGap(text))
    decreases |text|
  {
    hide GapText, Closed, OccursAt, Find;
    if !StartsWithGap(text) {
      gap := [];
      NoGap(text);
    } else if IsBlank(text[0]) {
      gap := SkippedIsGap(text[1..]);
      gap := Extend(Blank(text[0]), gap, SkipGap(text), text[1..], text);
    } else {
      var close := if text[1] == '/' then "\n" else "*/";
      var next := AfterComment(text, close);
      gap := SkippedIsGap(next);
      if Find(text, close, 2).Some? {
        var body := CommentBody(text, close);
        var piece := if text[1] == '/' then Line(body) else Block(body);
        assert text[..2] == ['/', text[1]];
        gap := Extend(piece, gap, SkipGap(text), next, text);
      }
    }
  }

  lemma NoGap(text: string)
    ensures Closed([]) && GapText([]) + text == text
  {
  }

  lemma Extend(piece: Piece, gap: Gap, left: string, next: string, text: string) returns (longer: Gap)
    requires ClosedPiece(piece) && Closed(gap)
    requires text == PieceText(piece) + next
    requires left != "" ==> GapText(gap) + left == next
    ensures Closed(longer) && (left != "" ==> GapText(longer) + left == text)
  {
    longer := [piece] + gap;
    assert longer[1..] == gap;
  }

  lemma SkipGapTwice(text: string)
    ensures SkipGap(SkipGap(text)) == SkipGap(text)
  {
    var _ := SkippedIsGap(text);
  }
}

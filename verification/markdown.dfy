/** The Markdown and plain text loader: lines grouped into blocks, nothing dropped or counted twice. */
module MarkdownLines {
  import opened Text
  import opened Normalization

  function HashCount(line: string): (n: nat)
    ensures n <= |line|
  {
    if line == [] || line[0] != '#' then 0 else 1 + HashCount(line[1..])
  }

  // One to six hashes, white space, and a text.
  predicate IsHeadingLine(line: string) {
    var n := HashCount(line);
    1 <= n <= 6 && n < |line| && IsSpace(line[n]) && !Blank(line[n..])
  }

  function HeadingText(line: string): string {
    Strip(line[HashCount(line)..])
  }

  // Three backquotes or three tildes, indented or not.
  datatype Fence = NoFence | Backquotes | Tildes

  function FenceOf(line: string): Fence {
    var t := TrimLeft(line, IsSpace);
    if "```" <= t then Backquotes else if "~~~" <= t then Tildes else NoFence
  }

  predicate Closes(line: string, fence: Fence) {
    match fence
    case NoFence => false
    case Backquotes => "```" <= Strip(line)
    case Tildes => "~~~" <= Strip(line)
  }

  function Digits(s: string): (n: nat)
    ensures n <= |s|
  {
    if s == [] || !IsDigit(s[0]) then 0 else 1 + Digits(s[1..])
  }

  // How long a list marker is at the head of a text, a bullet or a number with a dot or parenthesis; 0 for none.
  function MarkerLength(t: string): (n: nat)
    ensures n <= |t|
  {
    if t == "" then 0
    else if t[0] == '-' || t[0] == '*' || t[0] == '+' then 1
    else
      var d := Digits(t);
      if d > 0 && d < |t| && (t[d] == '.' || t[d] == ')') then d + 1 else 0
  }

  // A marker, white space, and a text, indented or not.
  predicate IsListItem(line: string) {
    var t := TrimLeft(line, IsSpace);
    var n := MarkerLength(t);
    0 < n < |t| && IsSpace(t[n]) && !Blank(t[n..])
  }

  // A pipe at both ends.
  predicate IsTableRow(line: string) {
    var t := Strip(line);
    |t| >= 2 && t[0] == '|' && t[|t| - 1] == '|'
  }

  // A table row of colons, pipes, dashes and white space only.
  predicate IsDelimiter(line: string) {
    var t := Strip(line);
    && |t| >= 3 && t[0] == '|' && t[|t| - 1] == '|'
    && forall k | 1 <= k < |t| - 1 :: IsSpace(t[k]) || t[k] == ':' || t[k] == '|' || t[k] == '-'
  }

  // A greater-than sign first, indented or not.
  predicate IsQuote(line: string) {
    var t := TrimLeft(line, IsSpace);
    t != "" && t[0] == '>'
  }

  predicate IsIndented(line: string) {
    line != "" && (line[0] == ' ' || line[0] == '\t')
  }

  lemma {:induction false} SolidHeadStays(line: string)
    requires line != "" && !IsSpace(line[0])
    ensures TrimRight(line, IsSpace) != ""
  {
    hide IsSpace;
    var n := |line| - 1;
    if n > 0 && IsSpace(line[n]) {
      SolidHeadStays(line[..n]);
    }
  }

  lemma SolidHead(line: string)
    requires line != "" && !IsSpace(line[0])
    ensures TrimLeft(line, IsSpace) == line
    ensures Strip(line) != "" && Strip(line)[0] == line[0] && !Blank(line)
  {
    hide IsSpace;
    SolidHeadStays(line);
    var right := TrimRight(line, IsSpace);
    assert right[0] == line[0];
  }

  lemma HashIsNoSpace()
    ensures !IsSpace('#')
  {
  }

  // What the scanner asks about a line.
  datatype Shape = Shape(
    blank: bool, fence: Fence, heading: bool, row: bool, delimiter: bool, quote: bool, item: bool, indented: bool,
    closesBackquotes: bool, closesTildes: bool)

  function ShapeOf(line: string): Shape {
    Shape(
      Blank(line), FenceOf(line), IsHeadingLine(line), IsTableRow(line), IsDelimiter(line), IsQuote(line),
      IsListItem(line),
      IsIndented(line), Closes(line, Backquotes), Closes(line, Tildes))
  }

  function ShapesOf(lines: seq<string>): (shapes: seq<Shape>)
    ensures |shapes| == |lines|
  {
    seq(|lines|, k requires 0 <= k < |lines| => ShapeOf(lines[k]))
  }

  // A heading line is nothing else, and only lines that are not blank are anything.
  predicate Sane(s: Shape) {
    && (s.heading ==> s.fence.NoFence? && !s.quote && !s.row)
    && (s.blank ==> s.fence.NoFence? && !s.heading && !s.quote && !s.row && !s.item && !s.delimiter)
    && (s.blank ==> !s.closesBackquotes && !s.closesTildes)
  }

  lemma HeadingExcludesOthers(line: string)
    requires IsHeadingLine(line)
    ensures !Blank(line) && FenceOf(line).NoFence? && !IsQuote(line) && !IsTableRow(line)
  {
    hide IsSpace, Blank, Strip;
    assert line[0] == '#';
    HashIsNoSpace();
    SolidHead(line);
  }

  lemma BlankIsNothingElse(line: string)
    requires Blank(line)
    ensures FenceOf(line).NoFence? && !IsQuote(line) && !IsTableRow(line) && !IsDelimiter(line) && !IsListItem(line)
    ensures !Closes(line, Backquotes) && !Closes(line, Tildes)
  {
    hide IsSpace, Blank, Strip;
    BlankTrims(line);
  }

  // Every line of a text has a sane shape.
  lemma ShapeIsSane(line: string)
    ensures Sane(ShapeOf(line))
  {
    hide Blank, FenceOf, IsHeadingLine, IsTableRow, IsDelimiter, IsQuote, IsListItem, IsIndented, Closes;
    if IsHeadingLine(line) {
      HeadingExcludesOthers(line);
    }
    if Blank(line) {
      BlankIsNothingElse(line);
    }
  }

  lemma {:induction false} BlankTrimsLeft(line: string)
    requires Blank(line)
    ensures TrimLeft(line, IsSpace) == ""
  {
    hide IsSpace;
    if line != "" {
      assert forall k | 0 <= k < |line[1..]| :: line[1..][k] == line[k + 1];
      BlankTrimsLeft(line[1..]);
    }
  }

  lemma BlankTrims(line: string)
    requires Blank(line)
    ensures TrimLeft(line, IsSpace) == "" && Strip(line) == ""
  {
    hide IsSpace;
    BlankTrimsLeft(line);
    TrimRightIgnoresPadding("", line);
    assert "" + line == line;
  }
}

/** The scanner, over the shapes of the lines. */
module MarkdownScan {
  import opened CanonicalDocuments
  import opened MarkdownLines

  // The kind of block that a line that is not blank begins.
  function KindAt(shapes: seq<Shape>, i: nat): BlockType
    requires i < |shapes|
  {
    if !shapes[i].fence.NoFence? then Code
    else if shapes[i].heading then Heading
    else if shapes[i].row && i + 1 < |shapes| && shapes[i + 1].delimiter then Table
    else if shapes[i].quote then Quote
    else if shapes[i].item then ListItem
    else Paragraph
  }

  // Whether line k ends the block of a kind that began at line first; for code, whether it closes the fence.
  predicate Stops(shapes: seq<Shape>, first: nat, kind: BlockType, k: nat)
    requires first < |shapes| && k < |shapes|
  {
    var line := shapes[k];
    match kind
    case Code => ClosesFence(line, shapes[first].fence)
    case Table => !line.row
    case Quote => !line.quote
    case ListItem => line.blank || line.item || line.heading || !line.indented
    case Paragraph => line.blank || line.heading || line.item || !line.fence.NoFence? || line.quote || line.row
    case _ => true
  }

  predicate ClosesFence(line: Shape, fence: Fence) {
    (fence.Backquotes? && line.closesBackquotes) || (fence.Tildes? && line.closesTildes)
  }

  function FirstStop(shapes: seq<Shape>, first: nat, kind: BlockType, k: nat): (e: nat)
    requires first < |shapes| && k <= |shapes|
    ensures k <= e <= |shapes|
    decreases |shapes| - k
  {
    if k == |shapes| || Stops(shapes, first, kind, k) then k else FirstStop(shapes, first, kind, k + 1)
  }

  lemma {:induction false} FirstStopStops(shapes: seq<Shape>, first: nat, kind: BlockType, k: nat)
    requires first < |shapes| && k <= |shapes|
    ensures var e := FirstStop(shapes, first, kind, k);
      && (forall j | k <= j < e :: !Stops(shapes, first, kind, j))
      && (e < |shapes| ==> Stops(shapes, first, kind, e))
    decreases |shapes| - k
  {
    hide Stops;
    if k < |shapes| && !Stops(shapes, first, kind, k) {
      FirstStopStops(shapes, first, kind, k + 1);
    }
  }

  datatype Span = Span(first: nat, end: nat, kind: BlockType)

  // The block that begins at a line: up to the first line that stops it; code takes its closing fence too.
  function SpanAt(shapes: seq<Shape>, i: nat): (s: Span)
    requires i < |shapes|
    ensures s.first == i < s.end <= |shapes|
  {
    var kind := KindAt(shapes, i);
    var stop := FirstStop(shapes, i, kind, i + 1);
    Span(i, if kind == Code && stop < |shapes| then stop + 1 else stop, kind)
  }

  // All blocks from a line on: a blank line between blocks is passed over.
  function ScanFrom(shapes: seq<Shape>, i: nat): seq<Span>
    requires i <= |shapes|
    decreases |shapes| - i
  {
    if i == |shapes| then []
    else if shapes[i].blank then ScanFrom(shapes, i + 1)
    else [SpanAt(shapes, i)] + ScanFrom(shapes, SpanAt(shapes, i).end)
  }

  // ---- the partition ----

  // Spans in order, disjoint, each beginning at a line that is not blank.
  ghost predicate InOrder(shapes: seq<Shape>, spans: seq<Span>, i: nat) {
    && (forall k | 0 <= k < |spans| ::
      i <= spans[k].first < |shapes| && spans[k] == SpanAt(shapes, spans[k].first) && !shapes[spans[k].first].blank)
    && (forall k, l | 0 <= k < l < |spans| :: spans[k].end <= spans[l].first)
  }

  predicate Holds(s: Span, j: int) {
    s.first <= j < s.end
  }

  ghost predicate Covered(spans: seq<Span>, j: nat) {
    exists k | 0 <= k < |spans| :: Holds(spans[k], j)
  }

  lemma {:induction false} ScanIsInOrder(shapes: seq<Shape>, i: nat)
    requires i <= |shapes|
    ensures InOrder(shapes, ScanFrom(shapes, i), i)
    decreases |shapes| - i
  {
    hide SpanAt;
    if i == |shapes| {
    } else if shapes[i].blank {
      ScanIsInOrder(shapes, i + 1);
    } else {
      var s := SpanAt(shapes, i);
      ScanIsInOrder(shapes, s.end);
      PrependInOrder(shapes, s, ScanFrom(shapes, s.end));
    }
  }

  lemma PrependInOrder(shapes: seq<Shape>, s: Span, rest: seq<Span>)
    requires s.first < |shapes| && s == SpanAt(shapes, s.first) && !shapes[s.first].blank
    requires InOrder(shapes, rest, s.end)
    ensures InOrder(shapes, [s] + rest, s.first)
  {
    hide SpanAt;
    var spans := [s] + rest;
    forall k | 0 <= k < |spans|
      ensures s.first <= spans[k].first < |shapes| && spans[k] == SpanAt(shapes, spans[k].first)
        && !shapes[spans[k].first].blank
    {
      if k > 0 {
        assert spans[k] == rest[k - 1];
      }
    }
    forall k, l | 0 <= k < l < |spans| ensures spans[k].end <= spans[l].first {
      assert spans[l] == rest[l - 1];
      assert k > 0 ==> spans[k] == rest[k - 1];
    }
  }

  lemma {:induction false} ScanCovers(shapes: seq<Shape>, i: nat, j: nat)
    requires i <= j < |shapes| && !shapes[j].blank
    ensures Covered(ScanFrom(shapes, i), j)
    decreases |shapes| - i
  {
    hide SpanAt;
    if shapes[i].blank {
      ScanCovers(shapes, i + 1, j);
    } else {
      var s := SpanAt(shapes, i);
      var spans := ScanFrom(shapes, i);
      if j < s.end {
        assert spans[0] == s && Holds(s, j);
      } else {
        ScanCovers(shapes, s.end, j);
        var rest := ScanFrom(shapes, s.end);
        var k :| 0 <= k < |rest| && Holds(rest[k], j);
        assert spans[k + 1] == rest[k];
      }
    }
  }

  // The blocks' line ranges are increasing and disjoint, and every line that is not blank lies in exactly one.
  lemma LinesArePartitioned(shapes: seq<Shape>)
    ensures var spans := ScanFrom(shapes, 0);
      && (forall k | 0 <= k < |spans| :: spans[k].first < spans[k].end <= |shapes|)
      && (forall k, l | 0 <= k < l < |spans| :: spans[k].end <= spans[l].first)
      && (forall j | 0 <= j < |shapes| && !shapes[j].blank :: Covered(spans, j))
      && (forall j, k, l | 0 <= k < |spans| && 0 <= l < |spans| && Holds(spans[k], j) && Holds(spans[l], j) :: k == l)
  {
    hide SpanAt, ScanFrom, Covered;
    ScanIsInOrder(shapes, 0);
    forall j | 0 <= j < |shapes| && !shapes[j].blank ensures Covered(ScanFrom(shapes, 0), j) {
      ScanCovers(shapes, 0, j);
    }
  }

  // ---- what a span holds ----

  lemma SpanInterior(shapes: seq<Shape>, i: nat, j: nat)
    requires i < |shapes| && i < j < SpanAt(shapes, i).end
    ensures var s := SpanAt(shapes, i);
      && (s.kind == Code && j < s.end - 1 ==> !Stops(shapes, i, s.kind, j))
      && (s.kind != Code ==> !Stops(shapes, i, s.kind, j))
  {
    hide Stops, KindAt;
    FirstStopStops(shapes, i, KindAt(shapes, i), i + 1);
  }

  lemma FenceStartsCode(shapes: seq<Shape>, i: nat)
    requires i < |shapes|
    ensures KindAt(shapes, i) == Code <==> !shapes[i].fence.NoFence?
  {
  }

  // A code block begins at a fence, holds no line that closes it before its last, and ends with the line that
  // closes it or with the document.
  lemma CodeSpanShape(shapes: seq<Shape>, i: nat)
    requires i < |shapes| && SpanAt(shapes, i).kind == Code
    ensures !shapes[i].fence.NoFence?
    ensures var s := SpanAt(shapes, i);
      && (forall j | i < j < s.end - 1 :: !ClosesFence(shapes[j], shapes[i].fence))
      && (s.end < |shapes| ==> i < s.end - 1 && ClosesFence(shapes[s.end - 1], shapes[i].fence))
  {
    hide ClosesFence, KindAt, SpanAt, FirstStop;
    CodeSpanStops(shapes, i);
    var s := SpanAt(shapes, i);
    forall j | i < j < s.end - 1 ensures !ClosesFence(shapes[j], shapes[i].fence) {
      assert !Stops(shapes, i, Code, j);
    }
  }

  lemma CodeSpanStops(shapes: seq<Shape>, i: nat)
    requires i < |shapes| && SpanAt(shapes, i).kind == Code
    ensures !shapes[i].fence.NoFence?
    ensures var s := SpanAt(shapes, i);
      && (forall j | i < j < s.end - 1 :: !Stops(shapes, i, Code, j))
      && (s.end < |shapes| ==> i < s.end - 1 && Stops(shapes, i, Code, s.end - 1))
  {
    hide KindAt, Stops;
    FenceStartsCode(shapes, i);
    FirstStopStops(shapes, i, Code, i + 1);
  }

  ghost predicate AllSane(shapes: seq<Shape>) {
    forall s | s in shapes :: Sane(s)
  }

  // No other block holds a heading line after its first, so a heading line is a heading block of its own or lies
  // inside a code block.
  lemma HeadingLineIsHeadingOrCode(shapes: seq<Shape>, j: nat)
    requires AllSane(shapes) && j < |shapes| && shapes[j].heading
    ensures var spans := ScanFrom(shapes, 0);
      || Span(j, j + 1, Heading) in spans
      || exists k | 0 <= k < |spans| :: spans[k].kind == Code && spans[k].first < j < spans[k].end
  {
    hide SpanAt, ScanFrom;
    assert shapes[j] in shapes;
    ScanIsInOrder(shapes, 0);
    ScanCovers(shapes, 0, j);
    var spans := ScanFrom(shapes, 0);
    var k :| 0 <= k < |spans| && Holds(spans[k], j);
    if spans[k].first == j {
      HeadingSpan(shapes, j);
      assert spans[k] in spans;
    } else {
      HeadingOnlyInCode(shapes, spans[k].first, j);
    }
  }

  lemma HeadingSpan(shapes: seq<Shape>, j: nat)
    requires j < |shapes| && shapes[j].heading && shapes[j].fence.NoFence?
    ensures SpanAt(shapes, j) == Span(j, j + 1, Heading)
  {
  }

  lemma HeadingOnlyInCode(shapes: seq<Shape>, i: nat, j: nat)
    requires AllSane(shapes) && i < |shapes| && i < j < SpanAt(shapes, i).end && shapes[j].heading
    ensures SpanAt(shapes, i).kind == Code
  {
    hide SpanAt;
    assert shapes[j] in shapes;
    SpanInterior(shapes, i, j);
  }

  // Heading blocks come from heading lines only.
  lemma HeadingBlockIsHeadingLine(shapes: seq<Shape>, k: nat)
    requires k < |ScanFrom(shapes, 0)| && ScanFrom(shapes, 0)[k].kind == Heading
    ensures var s := ScanFrom(shapes, 0)[k];
      s.end == s.first + 1 <= |shapes| && shapes[s.first].heading
  {
    hide ScanFrom;
    ScanIsInOrder(shapes, 0);
    HeadingKind(shapes, ScanFrom(shapes, 0)[k].first);
  }

  lemma HeadingKind(shapes: seq<Shape>, i: nat)
    requires i < |shapes| && SpanAt(shapes, i).kind == Heading
    ensures shapes[i].heading && SpanAt(shapes, i).end == i + 1
  {
  }

  // Only code can hold blank lines.
  lemma SpanLinesNotBlank(shapes: seq<Shape>, i: nat, j: nat)
    requires AllSane(shapes) && i < |shapes| && !shapes[i].blank
    requires SpanAt(shapes, i).kind != Code && i <= j < SpanAt(shapes, i).end
    ensures !shapes[j].blank
  {
    hide SpanAt;
    assert shapes[j] in shapes;
    if j > i {
      SpanInterior(shapes, i, j);
      NoHeadingSpanInterior(shapes, i);
    }
  }

  // A code block whose fence nothing closes.
  predicate LeftOpen(shapes: seq<Shape>, i: nat)
    requires i < |shapes|
  {
    var last := SpanAt(shapes, i).end - 1;
    SpanAt(shapes, i).kind == Code && !(i < last && ClosesFence(shapes[last], shapes[i].fence))
  }

  lemma ClosingIsNotBlank(line: Shape, fence: Fence)
    requires Sane(line) && ClosesFence(line, fence)
    ensures !line.blank
  {
  }

  lemma SpanEnds(shapes: seq<Shape>, i: nat)
    requires AllSane(shapes) && i < |shapes| && !shapes[i].blank
    ensures LeftOpen(shapes, i) ==> SpanAt(shapes, i).kind == Code && SpanAt(shapes, i).end == |shapes|
    ensures !LeftOpen(shapes, i) ==> !shapes[SpanAt(shapes, i).end - 1].blank
  {
    hide SpanAt, ClosesFence, Sane;
    var last := SpanAt(shapes, i).end - 1;
    assert shapes[last] in shapes;
    if SpanAt(shapes, i).kind == Code {
      CodeSpanShape(shapes, i);
      if ClosesFence(shapes[last], shapes[i].fence) {
        ClosingIsNotBlank(shapes[last], shapes[i].fence);
      }
    } else {
      SpanLinesNotBlank(shapes, i, last);
    }
  }

  lemma NoHeadingSpanInterior(shapes: seq<Shape>, i: nat)
    requires i < |shapes| && SpanAt(shapes, i).end > i + 1
    ensures SpanAt(shapes, i).kind in {Code, Table, Quote, ListItem, Paragraph}
  {
  }

  // _code, _table, _run, _list_item and _paragraph: the loop that finds where the block ends.
  method BlockEnd(shapes: seq<Shape>, index: nat, kind: BlockType) returns (end: nat)
    requires index < |shapes| && kind == KindAt(shapes, index) && kind != Heading
    ensures end == SpanAt(shapes, index).end
  {
    hide KindAt, Stops, FirstStop;
    end := index + 1;
    while end < |shapes| && !Stops(shapes, index, kind, end)
      invariant index < end <= |shapes|
      invariant forall j | index < j < end :: !Stops(shapes, index, kind, j)
    {
      end := end + 1;
    }
    FirstStopReaches(shapes, index, kind, index + 1, end);
    if kind == Code {
      end := if end + 1 < |shapes| then end + 1 else |shapes|;
    }
  }

  lemma {:induction false} FirstStopReaches(shapes: seq<Shape>, first: nat, kind: BlockType, k: nat, e: nat)
    requires first < |shapes| && k <= e <= |shapes|
    requires forall j | k <= j < e :: !Stops(shapes, first, kind, j)
    requires e < |shapes| ==> Stops(shapes, first, kind, e)
    ensures FirstStop(shapes, first, kind, k) == e
    decreases e - k
  {
    hide Stops;
    if k < e {
      FirstStopReaches(shapes, first, kind, k + 1, e);
    }
  }

  lemma SpanKind(shapes: seq<Shape>, i: nat)
    requires i < |shapes|
    ensures SpanAt(shapes, i).kind == KindAt(shapes, i)
  {
    hide KindAt, FirstStop;
  }

  lemma ScanStep(shapes: seq<Shape>, i: nat)
    requires i < |shapes|
    ensures i < SpanAt(shapes, i).end <= |shapes|
    ensures ScanFrom(shapes, i) == if shapes[i].blank
      then ScanFrom(shapes, i + 1) else [SpanAt(shapes, i)] + ScanFrom(shapes, SpanAt(shapes, i).end)
  {
    hide SpanAt;
  }

  lemma ScanEnds(shapes: seq<Shape>)
    ensures ScanFrom(shapes, |shapes|) == []
  {
  }
}

/** The loader: one block per span. */
module Markdown {
  import opened Wrappers
  import opened Text
  import opened Decimal
  import opened Normalization
  import opened CanonicalDocuments
  import opened MarkdownLines
  import opened MarkdownScan

  // The spans of a text's lines.
  function Spans(lines: seq<string>): (spans: seq<Span>)
    ensures forall s | s in spans :: s.first < s.end <= |lines|
  {
    SpansFit(lines);
    ScanFrom(ShapesOf(lines), 0)
  }

  // ---- the loader ----

  // md:line=N, counted from one.
  function LineLocator(i: nat): SourceLocator {
    SourceLocator("md", [("line", Show(i + 1))])
  }

  // The block a span becomes.
  ghost predicate IsSpanBlock(b: Block, lines: seq<string>, s: Span)
    requires s.first < s.end <= |lines|
  {
    && b.blockType == s.kind && b.locator == LineLocator(s.first)
    && (s.kind == Heading ==> b.text == HeadingText(lines[s.first]) && b.level == Some(HashCount(lines[s.first])))
    && (s.kind != Heading ==> b.text == Normalize(Join(lines[s.first..s.end], "\n")))
  }

  ghost predicate SpansAdded(before: seq<Block>, after: seq<Block>, lines: seq<string>, spans: seq<Span>)
    requires forall s | s in spans :: s.first < s.end <= |lines|
  {
    && |after| == |before| + |spans| && before == after[..|before|]
    && forall k | 0 <= k < |spans| :: IsSpanBlock(after[|before| + k], lines, spans[k])
  }

  lemma JoinIsNotBlank(parts: seq<string>)
    requires parts != [] && !Blank(parts[0])
    ensures !Blank(Join(parts, "\n"))
  {
    hide IsSpace;
    var head := parts[0];
    var k :| 0 <= k < |head| && !IsSpace(head[k]);
    assert Join(parts, "\n")[k] == head[k];
  }

  lemma OneLineIsNormal(t: string)
    requires '\n' !in t && '\r' !in t && (t != "" ==> !IsSpace(t[|t| - 1]))
    ensures Normal(t)
  {
    hide IsSpace;
  }

  // The text of a heading line is what the builder stores, unchanged.
  lemma HeadingTextIsKept(line: string)
    requires CleanLine(line) && IsHeadingLine(line)
    ensures !Blank(HeadingText(line)) && Strip(Normalize(HeadingText(line))) == HeadingText(line)
  {
    hide IsSpace, Normalize, Normal, Strip, Blank, HashCount, Trim;
    var rest := line[HashCount(line)..];
    var t := HeadingText(line);
    StripEndsSolid(rest);
    StripFindsBlank(rest);
    StripFindsBlank(t);
    StripIsInside(rest);
    assert forall c | c in rest :: c in line;
    OneLineIsNormal(t);
    NormalizeFixesExactlyNormal(t);
  }

  lemma StripIsInside(s: string)
    ensures forall c | c in Strip(s) :: c in s
  {
    hide IsSpace, Trim;
    TrimIsInside(s, IsSpace);
  }

  // One turn of the main loop at a line that is not blank.
  method LoadBlock(lines: seq<string>, index: nat, builder: CanonicalDocumentBuilder) returns (next: nat)
    requires index < |lines| && !Blank(lines[index]) && builder.Valid()
    requires forall line | line in lines :: CleanLine(line)
    modifies builder
    ensures builder.Valid() && next == SpanAt(ShapesOf(lines), index).end
    ensures |builder.blocks| == |old(builder.blocks)| + 1
    ensures builder.blocks[..|old(builder.blocks)|] == old(builder.blocks)
    ensures IsSpanBlock(builder.blocks[|old(builder.blocks)|], lines, SpanAt(ShapesOf(lines), index))
  {
    hide *;
    var kind := KindAt(ShapesOf(lines), index);
    SpanKind(ShapesOf(lines), index);
    if kind == Heading {
      HeadingKind(ShapesOf(lines), index);
      ShapeFields(lines, index);
      HeadingTextIsKept(lines[index]);
      HashCountOfHeading(lines[index]);
      var added := builder.AddHeading(HashCount(lines[index]), HeadingText(lines[index]), LineLocator(index));
      HeadingBlock(added.block, lines, SpanAt(ShapesOf(lines), index));
      next := index + 1;
    } else {
      next := BlockEnd(ShapesOf(lines), index, kind);
      var text := Join(lines[index..next], "\n");
      JoinIsNotBlank(lines[index..next]);
      var added := builder.AddBlock(kind, text, LineLocator(index));
      OtherBlock(added.block, lines, SpanAt(ShapesOf(lines), index));
    }
  }

  lemma ShapeFields(lines: seq<string>, i: nat)
    requires i < |lines|
    ensures var s := ShapesOf(lines)[i];
      && s.blank == Blank(lines[i]) && s.heading == IsHeadingLine(lines[i]) && s.fence == FenceOf(lines[i])
  {
    hide Blank, IsHeadingLine, FenceOf, IsTableRow, IsDelimiter, IsQuote, IsListItem, IsIndented, Closes;
  }

  lemma HashCountOfHeading(line: string)
    requires IsHeadingLine(line)
    ensures 1 <= HashCount(line) <= 6
  {
    hide IsSpace, Blank;
  }

  lemma HeadingBlock(b: Block, lines: seq<string>, s: Span)
    requires s.first < s.end <= |lines| && s.kind == Heading
    requires b.blockType == Heading && b.locator == LineLocator(s.first)
    requires b.text == HeadingText(lines[s.first]) && b.level == Some(HashCount(lines[s.first]))
    ensures IsSpanBlock(b, lines, s)
  {
    hide LineLocator, HeadingText, HashCount;
  }

  lemma OtherBlock(b: Block, lines: seq<string>, s: Span)
    requires s.first < s.end <= |lines| && s.kind != Heading
    requires b.blockType == s.kind && b.locator == LineLocator(s.first)
    requires b.text == Normalize(Join(lines[s.first..s.end], "\n"))
    ensures IsSpanBlock(b, lines, s)
  {
    hide LineLocator, HeadingText, HashCount, Normalize, Join;
  }

  // load_text: one block per span, in order. The text comes in only as its lines, so line ends do not matter.
  method LoadText(raw: string, builder: CanonicalDocumentBuilder)
    requires builder.Valid()
    modifies builder
    ensures builder.Valid()
    ensures SpansAdded(old(builder.blocks), builder.blocks, SplitLines(raw), Spans(SplitLines(raw)))
  {
    hide *;
    ghost var before := builder.blocks;
    var lines := SplitLines(raw);
    SplitLinesAreClean(raw);
    SpansMean(lines);
    ghost var done: seq<Span> := [];
    NothingAdded(before, lines);
    var index := 0;
    while index < |lines|
      invariant index <= |lines| && builder.Valid()
      invariant done + ScanFrom(ShapesOf(lines), index) == Spans(lines)
      invariant forall s | s in done :: s.first < s.end <= |lines|
      invariant SpansAdded(before, builder.blocks, lines, done)
    {
      ScanStep(ShapesOf(lines), index);
      ShapeFields(lines, index);
      if Blank(lines[index]) {
        index := index + 1;
      } else {
        ghost var was, s := builder.blocks, SpanAt(ShapesOf(lines), index);
        index := LoadBlock(lines, index, builder);
        AddedOne(before, was, builder.blocks, lines, done, s);
        done := done + [s];
      }
    }
    ScanEnds(ShapesOf(lines));
    assert done + [] == done;
  }

  lemma SpansFit(lines: seq<string>)
    ensures forall s | s in ScanFrom(ShapesOf(lines), 0) :: s.first < s.end <= |lines|
  {
    hide SpanAt, ScanFrom, ShapesOf;
    ScanIsInOrder(ShapesOf(lines), 0);
  }

  lemma SpansMean(lines: seq<string>)
    ensures Spans(lines) == ScanFrom(ShapesOf(lines), 0)
  {
    hide ScanFrom, ShapesOf;
  }

  // Every line has the shape it is scanned by, and all shapes are sane.
  lemma LineShapes(lines: seq<string>)
    ensures AllSane(ShapesOf(lines))
    ensures forall k | 0 <= k < |lines| :: ShapesOf(lines)[k] == ShapeOf(lines[k])
  {
    hide Sane, ShapeOf;
    var shapes := ShapesOf(lines);
    forall s | s in shapes ensures Sane(s) {
      var k :| 0 <= k < |shapes| && shapes[k] == s;
      ShapeIsSane(lines[k]);
    }
  }

  // A line of heading shape becomes a heading block of its own, unless a code block holds it.
  lemma HeadingLineBecomesHeading(lines: seq<string>, j: nat)
    requires j < |lines| && IsHeadingLine(lines[j])
    ensures Span(j, j + 1, Heading) in Spans(lines)
      || exists k | 0 <= k < |Spans(lines)| ::
        Spans(lines)[k].kind == Code && Spans(lines)[k].first < j < Spans(lines)[k].end
  {
    hide *;
    SpansMean(lines);
    LineShapes(lines);
    ShapeFields(lines, j);
    HeadingLineIsHeadingOrCode(ShapesOf(lines), j);
  }

  // Every line of a text that is not blank lies in exactly one block.
  lemma EveryLineOnce(lines: seq<string>, j: nat)
    requires j < |lines| && !Blank(lines[j])
    ensures exists k | 0 <= k < |Spans(lines)| :: Holds(Spans(lines)[k], j)
    ensures forall k, l | 0 <= k < |Spans(lines)| && 0 <= l < |Spans(lines)|
      && Holds(Spans(lines)[k], j) && Holds(Spans(lines)[l], j) :: k == l
  {
    hide ScanFrom, ShapesOf, Blank, SpanAt, Spans;
    SpansMean(lines);
    ShapeFields(lines, j);
    LinesArePartitioned(ShapesOf(lines));
    ScanCovers(ShapesOf(lines), 0, j);
  }

  lemma NothingAdded(before: seq<Block>, lines: seq<string>)
    ensures SpansAdded(before, before, lines, [])
  {
  }

  lemma AddedOne(
    before: seq<Block>, was: seq<Block>, after: seq<Block>, lines: seq<string>, done: seq<Span>, s: Span)
    requires s.first < s.end <= |lines| && forall d | d in done :: d.first < d.end <= |lines|
    requires SpansAdded(before, was, lines, done)
    requires |after| == |was| + 1 && after[..|was|] == was && IsSpanBlock(after[|was|], lines, s)
    ensures SpansAdded(before, after, lines, done + [s])
  {
    hide IsSpanBlock;
    assert after[..|before|] == was[..|before|];
    var spans := done + [s];
    forall k | 0 <= k < |spans| ensures IsSpanBlock(after[|before| + k], lines, spans[k]) {
      if k < |done| {
        assert after[|before| + k] == was[|before| + k];
      }
    }
  }

  lemma {:induction false} JoinEnds(parts: seq<string>)
    requires parts != [] && parts[0] != "" && parts[|parts| - 1] != ""
    ensures var joined := Join(parts, "\n"); var last := parts[|parts| - 1];
      joined != "" && joined[0] == parts[0][0] && joined[|joined| - 1] == last[|last| - 1]
    decreases |parts|
  {
    if |parts| > 1 {
      var last := parts[|parts| - 1];
      JoinEndsLast(parts);
      assert Join(parts, "\n")[0] == parts[0][0];
    }
  }

  lemma {:induction false} JoinEndsLast(parts: seq<string>)
    requires parts != [] && parts[|parts| - 1] != ""
    ensures var joined := Join(parts, "\n"); var last := parts[|parts| - 1];
      joined != "" && joined[|joined| - 1] == last[|last| - 1]
  {
    if |parts| > 1 {
      JoinEndsLast(parts[1..]);
    }
  }

  // A block whose last line is not blank keeps its lines exactly: its text splits back into them.
  lemma BlockKeepsItsLines(lines: seq<string>, first: nat, end: nat)
    requires first < end <= |lines| && !Blank(lines[first]) && !Blank(lines[end - 1])
    requires forall line | line in lines :: CleanLine(line)
    ensures var own := lines[first..end];
      && Normalize(Join(own, "\n")) == Join(own, "\n")
      && Split(Normalize(Join(own, "\n")), '\n') == own
  {
    var own := lines[first..end];
    assert forall line | line in own :: line in lines;
    hide IsSpace, Normalize, LineEndsClean, Join, Split;
    NotBlankNotEmpty(own[0]);
    NotBlankNotEmpty(own[|own| - 1]);
    JoinedLinesAreClean(own);
    JoinEnds(own);
    EndsAreNoNewlines(own);
    NormalizeFixesExactlyNormal(Join(own, "\n"));
    SplitOfJoin(own, '\n');
  }

  lemma EndsAreNoNewlines(own: seq<string>)
    requires own != [] && own[0] != "" && own[|own| - 1] != "" && forall line | line in own :: CleanLine(line)
    ensures own[0][0] != '\n' && own[|own| - 1][|own[|own| - 1]| - 1] != '\n'
  {
    hide IsSpace;
    assert CleanLine(own[0]) && CleanLine(own[|own| - 1]);
  }

  lemma {:induction false} LastLineIsEmpty(own: seq<string>)
    requires |own| > 1 && own[|own| - 1] == ""
    ensures var joined := Join(own, "\n"); joined != "" && joined[|joined| - 1] == '\n'
  {
    if |own| > 2 {
      LastLineIsEmpty(own[1..]);
    } else {
      assert Join(own[1..], "\n") == "";
    }
  }

  // A block whose last line is blank loses it: a stored text does not end with a line break.
  lemma BlankLastLineIsLost(own: seq<string>)
    requires |own| > 1 && own[|own| - 1] == ""
    ensures Split(Normalize(Join(own, "\n")), '\n') != own
  {
    hide *;
    var joined := Join(own, "\n");
    LastLineIsEmpty(own);
    NormalizeIsNormal(joined);
    NormalEnds(Normalize(joined));
    if Split(Normalize(joined), '\n') == own {
      JoinOfSplit(Normalize(joined), '\n');
    }
  }

  lemma NormalEnds(s: string)
    requires Normal(s)
    ensures s != "" ==> s[|s| - 1] != '\n'
  {
  }

  lemma BlankCleanIsEmpty(line: string)
    requires Blank(line) && CleanLine(line)
    ensures line == ""
  {
    hide IsSpace;
  }

  // A block that is no heading keeps its lines exactly if and only if the last one is not blank. Only a code block
  // left open, which runs to the end of the document, can end with a blank line.
  lemma SpanTextIsItsLines(lines: seq<string>, b: Block, i: nat)
    requires i < |lines| && !Blank(lines[i]) && forall line | line in lines :: CleanLine(line)
    requires IsSpanBlock(b, lines, SpanAt(ShapesOf(lines), i)) && SpanAt(ShapesOf(lines), i).kind != Heading
    ensures var s := SpanAt(ShapesOf(lines), i);
      && (Split(b.text, '\n') == lines[i..s.end] <==> !Blank(lines[s.end - 1]))
      && (!LeftOpen(ShapesOf(lines), i) ==> Split(b.text, '\n') == lines[i..s.end])
      && (LeftOpen(ShapesOf(lines), i) ==> s.kind == Code && s.end == |lines|)
  {
    hide *;
    var shapes := ShapesOf(lines);
    var s := SpanAt(shapes, i);
    SpanBlockText(b, lines, s);
    LineShapes(lines);
    ShapeFields(lines, i);
    ShapeFields(lines, s.end - 1);
    SpanEnds(shapes, i);
    if Blank(lines[s.end - 1]) {
      BlankCleanIsEmpty(lines[s.end - 1]);
      BlankLastLineIsLost(lines[i..s.end]);
    } else {
      BlockKeepsItsLines(lines, i, s.end);
    }
  }

  lemma SpanBlockText(b: Block, lines: seq<string>, s: Span)
    requires s.first < s.end <= |lines| && IsSpanBlock(b, lines, s) && s.kind != Heading
    ensures b.text == Normalize(Join(lines[s.first..s.end], "\n"))
  {
    hide LineLocator, HeadingText, HashCount, Normalize, Join;
  }
}

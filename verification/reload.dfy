/** Loading the same text again: nothing a frozen document records depends on how its lines end. */
module Reload {
  import opened Wrappers
  import opened Text
  import opened Normalization
  import opened CanonicalDocuments
  import opened Segmentation
  import opened Contracts
  import opened Ingestion
  import opened MarkdownLines
  import opened MarkdownScan
  import opened Markdown

  // The document load_text builds from lines on a fresh builder.
  ghost predicate LoadedLines(lines: seq<string>, blocks: seq<Block>) {
    WellBuilt(blocks) && SpansAdded([], blocks, lines, Spans(lines))
  }

  ghost predicate LoadedFrom(raw: string, blocks: seq<Block>) {
    LoadedLines(SplitLines(raw), blocks)
  }

  method Load(raw: string) returns (builder: CanonicalDocumentBuilder)
    ensures builder.Valid() && LoadedFrom(raw, builder.blocks)
  {
    hide WellBuilt, SpansAdded, Spans, SplitLines;
    builder := new CanonicalDocumentBuilder();
    LoadText(raw, builder);
  }

  // Blocks with the same type, text, locator and level.
  ghost predicate AlikeAt(blocks: seq<Block>, blocks': seq<Block>, k: nat)
    requires k < |blocks| && k < |blocks'|
  {
    var b, b' := blocks[k], blocks'[k];
    b.blockType == b'.blockType && b.text == b'.text && b.locator == b'.locator && b.level == b'.level
  }

  lemma SpanBlocksAlike(b: Block, b': Block, lines: seq<string>, s: Span)
    requires s.first < s.end <= |lines| && IsSpanBlock(b, lines, s) && IsSpanBlock(b', lines, s)
    requires BlockValid(b) && BlockValid(b')
    ensures b.blockType == b'.blockType && b.text == b'.text && b.locator == b'.locator && b.level == b'.level
  {
    hide Normal, Blank, Strip, Normalize, Join, LineLocator, HeadingText, HashCount;
  }

  lemma {:induction false} SameHeadings(blocks: seq<Block>, blocks': seq<Block>)
    requires |blocks| == |blocks'| && forall k | 0 <= k < |blocks| :: AlikeAt(blocks, blocks', k)
    ensures HeadingsOf(blocks) == HeadingsOf(blocks')
  {
    if blocks != [] {
      var n := |blocks| - 1;
      forall k | 0 <= k < n ensures AlikeAt(blocks[..n], blocks'[..n], k) {
        assert AlikeAt(blocks, blocks', k);
      }
      SameHeadings(blocks[..n], blocks'[..n]);
      assert AlikeAt(blocks, blocks', n);
    }
  }

  lemma AlikeBuiltBlocksAreEqual(blocks: seq<Block>, blocks': seq<Block>, k: nat)
    requires WellBuilt(blocks) && WellBuilt(blocks') && |blocks| == |blocks'| && k < |blocks|
    requires forall j | 0 <= j < |blocks| :: AlikeAt(blocks, blocks', j)
    ensures blocks[k] == blocks'[k]
  {
    hide BlockValid, BlockId, InForce, HeadingsOf, TextsOf;
    var p, p' := blocks[..k + 1], blocks'[..k + 1];
    assert LastFits(p) && LastFits(p');
    forall j | 0 <= j < |p| ensures AlikeAt(p, p', j) {
      assert AlikeAt(blocks, blocks', j);
    }
    SameHeadings(p, p');
    assert AlikeAt(p, p', k);
  }

  // The lines of a text determine its whole document, ids and heading paths included.
  lemma LinesDetermineDocument(lines: seq<string>, blocks: seq<Block>, blocks': seq<Block>)
    requires LoadedLines(lines, blocks) && LoadedLines(lines, blocks')
    ensures blocks == blocks'
  {
    hide WellBuilt, Spans, IsSpanBlock, AlikeAt, BlockValid;
    var spans := Spans(lines);
    assert |blocks| == |spans| == |blocks'|;
    forall k | 0 <= k < |blocks| ensures AlikeAt(blocks, blocks', k) {
      assert IsSpanBlock(blocks[0 + k], lines, spans[k]) && IsSpanBlock(blocks'[0 + k], lines, spans[k]);
      assert spans[k] in spans;
      BuiltBlockIsValid(blocks, k);
      BuiltBlockIsValid(blocks', k);
      SpanBlocksAlike(blocks[k], blocks'[k], lines, spans[k]);
      SeenAlike(blocks, blocks', k);
    }
    forall k | 0 <= k < |blocks| ensures blocks[k] == blocks'[k] {
      AlikeBuiltBlocksAreEqual(blocks, blocks', k);
    }
  }

  lemma SeenAlike(blocks: seq<Block>, blocks': seq<Block>, k: nat)
    requires k < |blocks| && k < |blocks'|
    requires blocks[k].blockType == blocks'[k].blockType && blocks[k].text == blocks'[k].text
    requires blocks[k].locator == blocks'[k].locator && blocks[k].level == blocks'[k].level
    ensures AlikeAt(blocks, blocks', k)
  {
  }

  // ---- a blank line more at the end ----

  lemma KindExtended(shapes: seq<Shape>, e: Shape, i: nat)
    requires i < |shapes| && e.blank && Sane(e)
    ensures KindAt(shapes + [e], i) == KindAt(shapes, i)
  {
    var longer := shapes + [e];
    assert longer[i] == shapes[i];
    assert i + 1 < |shapes| ==> longer[i + 1] == shapes[i + 1];
  }

  lemma {:induction false} FirstStopExtended(shapes: seq<Shape>, e: Shape, i: nat, kind: BlockType, k: nat)
    requires i < |shapes| && k <= |shapes|
    ensures var stop, stop' := FirstStop(shapes, i, kind, k), FirstStop(shapes + [e], i, kind, k);
      && (stop < |shapes| ==> stop' == stop)
      && (stop == |shapes| ==> stop' == if Stops(shapes + [e], i, kind, |shapes|) then |shapes| else |shapes| + 1)
    decreases |shapes| - k
  {
    if k < |shapes| {
      assert (shapes + [e])[k] == shapes[k] && (shapes + [e])[i] == shapes[i];
      assert Stops(shapes + [e], i, kind, k) == Stops(shapes, i, kind, k);
      hide Stops;
      if !Stops(shapes, i, kind, k) {
        FirstStopExtended(shapes, e, i, kind, k + 1);
      }
    }
  }

  // The same span, or code left open that now takes the blank line too.
  ghost predicate SameSpan(n: nat, s: Span, s': Span) {
    && s'.first == s.first && s'.kind == s.kind && s.first < s.end <= n
    && (s'.end == s.end || (s.kind == Code && s.end == n && s'.end == n + 1))
  }

  lemma SpanExtended(shapes: seq<Shape>, e: Shape, i: nat)
    requires i < |shapes| && e.blank && Sane(e)
    ensures SameSpan(|shapes|, SpanAt(shapes, i), SpanAt(shapes + [e], i))
  {
    var kind := KindAt(shapes, i);
    KindExtended(shapes, e, i);
    FirstStopExtended(shapes, e, i, kind, i + 1);
    assert kind != Code ==> Stops(shapes + [e], i, kind, |shapes|);
    hide Stops, KindAt, FirstStop;
  }

  lemma {:induction false} ScanExtended(shapes: seq<Shape>, e: Shape, i: nat)
    requires i <= |shapes| && e.blank && Sane(e)
    ensures var spans, spans' := ScanFrom(shapes, i), ScanFrom(shapes + [e], i);
      |spans'| == |spans| && forall k | 0 <= k < |spans| :: SameSpan(|shapes|, spans[k], spans'[k])
    decreases |shapes| - i
  {
    hide SpanAt, Sane;
    var longer := shapes + [e];
    if i < |shapes| {
      assert longer[i] == shapes[i];
      if shapes[i].blank {
        ScanExtended(shapes, e, i + 1);
      } else {
        SpanExtended(shapes, e, i);
        var s, s' := SpanAt(shapes, i), SpanAt(longer, i);
        if s'.end == s.end {
          ScanExtended(shapes, e, s.end);
        }
        hide SameSpan;
        var spans, spans' := ScanFrom(shapes, i), ScanFrom(longer, i);
        assert spans == [s] + ScanFrom(shapes, s.end) && spans' == [s'] + ScanFrom(longer, s'.end);
      }
    }
  }

  lemma SpansExtended(lines: seq<string>)
    ensures var spans, spans' := Spans(lines), Spans(lines + [""]);
      |spans'| == |spans| && forall k | 0 <= k < |spans| :: SameSpan(|lines|, spans[k], spans'[k])
  {
    var e := ShapeOf("");
    EmptyShape();
    assert ShapesOf(lines + [""]) == ShapesOf(lines) + [e] by {
      hide ShapeOf;
    }
    hide *;
    SpansMean(lines);
    SpansMean(lines + [""]);
    ScanExtended(ShapesOf(lines), e, 0);
  }

  lemma EmptyShape()
    ensures ShapeOf("").blank && Sane(ShapeOf(""))
  {
    hide IsSpace, FenceOf, IsHeadingLine, IsTableRow, IsDelimiter, IsQuote, IsListItem, IsIndented, Closes, Sane;
    ShapeIsSane("");
  }

  lemma SpanBlockExtended(b: Block, lines: seq<string>, s: Span, s': Span)
    requires SameSpan(|lines|, s, s') && s'.end <= |lines| + 1 && IsSpanBlock(b, lines + [""], s')
    ensures IsSpanBlock(b, lines, s)
  {
    hide Normalize, Join, HeadingText, HashCount, LineLocator;
    var longer := lines + [""];
    assert longer[s.first] == lines[s.first];
    if s'.end == s.end {
      assert longer[s.first..s.end] == lines[s.first..s.end];
    } else {
      var own := lines[s.first..s.end];
      assert longer[s.first..s'.end] == own + [""];
      OpenCodeText(own);
    }
  }

  lemma OpenCodeText(own: seq<string>)
    requires own != []
    ensures Normalize(Join(own + [""], "\n")) == Normalize(Join(own, "\n"))
  {
    hide Normalize, Join, IsSpace, Blank;
    JoinConcat(own, [""], "\n");
    OneLine("");
    NewlineIsBlank();
    TrailingWhitespaceIsIrrelevant(Join(own, "\n"), "\n");
    assert Join(own, "\n") + "\n" + "" == Join(own, "\n") + "\n";
  }

  lemma NewlineIsBlank()
    ensures Blank("\n")
  {
  }

  lemma DropBlankLine(lines: seq<string>, blocks: seq<Block>)
    requires LoadedLines(lines + [""], blocks)
    ensures LoadedLines(lines, blocks)
  {
    hide WellBuilt, Spans, IsSpanBlock, SameSpan;
    SpansExtended(lines);
    var spans, spans' := Spans(lines), Spans(lines + [""]);
    forall k | 0 <= k < |spans| ensures IsSpanBlock(blocks[k], lines, spans[k]) {
      assert spans[k] in spans && spans'[k] in spans';
      assert IsSpanBlock(blocks[0 + k], lines + [""], spans'[k]);
      SpanBlockExtended(blocks[k], lines, spans[k], spans'[k]);
    }
    assert [] == blocks[..0];
  }

  lemma {:induction false} DropBlankLines(lines: seq<string>, n: nat, blocks: seq<Block>)
    requires LoadedLines(lines + BlankLines(n), blocks)
    ensures LoadedLines(lines, blocks)
  {
    hide LoadedLines;
    if n == 0 {
      assert lines + BlankLines(0) == lines;
    } else {
      var before := lines + BlankLines(n - 1);
      assert lines + BlankLines(n) == before + [""];
      DropBlankLine(before, blocks);
      DropBlankLines(lines, n - 1, blocks);
    }
  }

  // ---- re-ingestion ----

  // The sections the heading profile cuts a document into.
  ghost predicate SectionsOf(slug: string -> string, blocks: seq<Block>, sections: seq<Section>) {
    |sections| == |Starts(blocks)| && forall k | 0 <= k < |sections| ::
      sections[k] == SectionAt(slug, blocks, k)
  }

  // Loading the second text gives the document, the sections and the snapshot of the first, and re-ingestion returns
  // the frozen document.
  ghost predicate SameDocument(
    h: Hashes, slug: string -> string, provenance: Provenance, sourceType: SourceType, raw: string, raw': string)
  {
    forall blocks, blocks', sections, sections'
      | LoadedFrom(raw, blocks) && LoadedFrom(raw', blocks')
        && SectionsOf(slug, blocks, sections) && SectionsOf(slug, blocks', sections') ::
      && blocks == blocks' && sections == sections'
      && var frozen := Freeze(h, provenance, sourceType, sections);
         Reingest(frozen, Freeze(h, provenance, sourceType, sections')) == Success(frozen)
  }

  // It is so for a text whose lines are those of the frozen one, but for blank lines at the end.
  lemma SameLinesReingest(
    h: Hashes, slug: string -> string, provenance: Provenance, sourceType: SourceType,
    raw: string, raw': string, n: nat)
    requires SplitLines(raw') == SplitLines(raw) + BlankLines(n)
    ensures SameDocument(h, slug, provenance, sourceType, raw, raw')
  {
    hide LoadedLines, SplitLines, SectionAt, Starts, SnapshotOf;
    forall blocks, blocks', sections, sections'
      | LoadedFrom(raw, blocks) && LoadedFrom(raw', blocks')
        && SectionsOf(slug, blocks, sections) && SectionsOf(slug, blocks', sections')
      ensures blocks == blocks' && sections == sections'
    {
      DropBlankLines(SplitLines(raw), n, blocks');
      LinesDetermineDocument(SplitLines(raw), blocks, blocks');
    }
  }

  // Line ends of any style, mixed even, and white space after the end of the text are no revision.
  lemma SameTextReingests(
    h: Hashes, slug: string -> string, provenance: Provenance, sourceType: SourceType,
    raw: string, raw': string, tail: string)
    requires UnifyNewlines(raw') == UnifyNewlines(raw) + tail && Blank(tail)
    ensures SameDocument(h, slug, provenance, sourceType, raw, raw')
  {
    hide *;
    UnifiedLines(raw);
    UnifiedLines(raw');
    var n := BlankTailAddsBlankLines(UnifyNewlines(raw), tail);
    SameLinesReingest(h, slug, provenance, sourceType, raw, raw', n);
  }

  // In particular a text with LF line ends may come again with CRLF or CR.
  lemma OtherLineEndsReingest(
    h: Hashes, slug: string -> string, provenance: Provenance, sourceType: SourceType, raw: string)
    requires '\r' !in raw
    ensures SameDocument(h, slug, provenance, sourceType, raw, Replace(raw, '\n', "\r\n"))
    ensures SameDocument(h, slug, provenance, sourceType, raw, Replace(raw, '\n', "\r"))
  {
    hide *;
    NewlineStyleIsIrrelevant(raw);
    NoBlankLines(SplitLines(raw));
    SameLinesReingest(h, slug, provenance, sourceType, raw, Replace(raw, '\n', "\r\n"), 0);
    SameLinesReingest(h, slug, provenance, sourceType, raw, Replace(raw, '\n', "\r"), 0);
  }

  lemma NoBlankLines(lines: seq<string>)
    ensures lines + BlankLines(0) == lines
  {
  }
}

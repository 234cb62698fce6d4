/** Anchors, and the heading profile that cuts a document into sections. */
module Anchors {
  import opened Text
  import opened Decimal

  function Occurrences(bases: seq<string>, base: string): nat {
    if bases == [] then 0
    else Occurrences(bases[..|bases| - 1], base) + if bases[|bases| - 1] == base then 1 else 0
  }

  // The first use of a base keeps it; the n-th appends ~n.
  function Numbered(base: string, seen: nat): string {
    if seen == 0 then base else base + "~" + Show(seen + 1)
  }

  function AnchorsOf(bases: seq<string>): seq<string> {
    seq(|bases|, k requires 0 <= k < |bases| => Numbered(bases[k], Occurrences(bases[..k], bases[k])))
  }

  lemma {:induction false} OccurrencesGrow(bases: seq<string>, i: nat, j: nat)
    requires i < j <= |bases|
    ensures Occurrences(bases[..i], bases[i]) < Occurrences(bases[..j], bases[i])
    decreases j
  {
    assert bases[..j][..j - 1] == bases[..j - 1];
    if i < j - 1 {
      OccurrencesGrow(bases, i, j - 1);
    }
  }

  lemma NumberedInjective(base: string, seen: nat, base': string, seen': nat)
    requires '~' !in base && '~' !in base' && Numbered(base, seen) == Numbered(base', seen')
    ensures base == base' && seen == seen'
  {
    TildeMarksRepeat(base, seen);
    TildeMarksRepeat(base', seen');
    if seen > 0 && seen' > 0 {
      SplitAfterPart(base, Show(seen + 1), '~');
      SplitAfterPart(base', Show(seen' + 1), '~');
      var s := Numbered(base, seen);
      assert Split(s, '~')[0] == base && Split(s, '~')[0] == base';
      assert Show(seen + 1) == s[|base| + 1..] == Show(seen' + 1);
      ShowInjective(seen + 1, seen' + 1);
    }
  }

  lemma TildeMarksRepeat(base: string, seen: nat)
    requires '~' !in base
    ensures '~' in Numbered(base, seen) <==> seen > 0
  {
    hide Show;
  }

  // Numbering repeats makes all anchors distinct, as long as no base holds a tilde.
  lemma AnchorsAreDistinct(bases: seq<string>)
    requires forall b | b in bases :: '~' !in b
    ensures forall i, j | 0 <= i < j < |bases| :: AnchorsOf(bases)[i] != AnchorsOf(bases)[j]
  {
    forall i, j | 0 <= i < j < |bases| ensures AnchorsOf(bases)[i] != AnchorsOf(bases)[j] {
      if AnchorsOf(bases)[i] == AnchorsOf(bases)[j] {
        NumberedInjective(
          bases[i], Occurrences(bases[..i], bases[i]), bases[j], Occurrences(bases[..j], bases[j]));
        OccurrencesGrow(bases, i, j);
      }
    }
  }

  // With a tilde in a base two anchors can coincide: the second use of a, and a~2 itself.
  lemma TildeBasesCollide()
    ensures AnchorsOf(["a", "a", "a~2"])[1] == AnchorsOf(["a", "a", "a~2"])[2]
  {
    var bases := ["a", "a", "a~2"];
    assert bases[..1] == ["a"] && bases[..2] == ["a", "a"];
    assert ["a"][..0] == [] && ["a", "a"][..1] == ["a"];
    assert Occurrences(["a"], "a") == 1 && Occurrences(["a", "a"], "a~2") == 0;
    assert Show(2) == ['2'];
  }
}

module Segmentation {
  import opened Wrappers
  import opened Text
  import opened Decimal
  import opened Normalization
  import opened CanonicalDocuments
  import opened Anchors
  import opened Sequences

  datatype Section = Section(
    anchor: string, headingPath: seq<string>, rawBlock: string, locator: string, blockIds: seq<string>)

  predicate IsHeading(b: Block) {
    b.blockType.Heading?
  }

  // The positions of the headings, in order.
  function Starts(blocks: seq<Block>): seq<nat> {
    if blocks == [] then []
    else
      var n := |blocks| - 1;
      Starts(blocks[..n]) + if IsHeading(blocks[n]) then [n] else []
  }

  lemma {:induction false} StartsAreHeadings(blocks: seq<Block>)
    ensures forall p | p in Starts(blocks) :: p < |blocks| && IsHeading(blocks[p])
    ensures forall i, j | 0 <= i < j < |Starts(blocks)| :: Starts(blocks)[i] < Starts(blocks)[j]
  {
    hide IsHeading;
    if blocks != [] {
      var n := |blocks| - 1;
      var before := Starts(blocks[..n]);
      StartsAreHeadings(blocks[..n]);
      forall p | p in Starts(blocks) ensures p < |blocks| && IsHeading(blocks[p]) {
        if p in before {
          assert blocks[..n][p] == blocks[p];
        }
      }
      forall i, j | 0 <= i < j < |Starts(blocks)| ensures Starts(blocks)[i] < Starts(blocks)[j] {
        assert before[i] in before;
      }
    }
  }

  // Where the k-th section begins and ends.
  function StartOf(blocks: seq<Block>, k: nat): (a: nat)
    requires k < |Starts(blocks)|
    ensures a < |blocks| && IsHeading(blocks[a])
  {
    StartsAreHeadings(blocks);
    assert Starts(blocks)[k] in Starts(blocks);
    Starts(blocks)[k]
  }

  function EndOf(blocks: seq<Block>, k: nat): (e: nat)
    requires k < |Starts(blocks)|
    ensures StartOf(blocks, k) < e <= |blocks|
  {
    StartsAreHeadings(blocks);
    if k + 1 < |Starts(blocks)| then StartOf(blocks, k + 1) else |blocks|
  }

  function SectionBlocks(blocks: seq<Block>, k: nat): (r: seq<Block>)
    requires k < |Starts(blocks)|
    ensures r != []
  {
    blocks[StartOf(blocks, k)..EndOf(blocks, k)]
  }

  function SectionParts(blocks: seq<Block>, n: nat): seq<seq<Block>>
    requires n <= |Starts(blocks)|
  {
    seq(n, k requires 0 <= k < n => SectionBlocks(blocks, k))
  }

  lemma {:induction false} StartsFindEveryHeading(blocks: seq<Block>, p: nat)
    requires p < |blocks| && IsHeading(blocks[p])
    ensures p in Starts(blocks)
  {
    if p < |blocks| - 1 {
      StartsFindEveryHeading(blocks[..|blocks| - 1], p);
    }
  }

  // The sections are consecutive, begin at the first heading, end with the document, and hold one heading
  // each, their first block. Blocks before the first heading belong to no section.
  lemma SectionsPartitionDocument(blocks: seq<Block>)
    requires Starts(blocks) != []
    ensures Flatten(SectionParts(blocks, |Starts(blocks)|)) == blocks[StartOf(blocks, 0)..]
    ensures forall k, p | 0 <= k < |Starts(blocks)| && StartOf(blocks, k) <= p < EndOf(blocks, k) ::
      IsHeading(blocks[p]) <==> p == StartOf(blocks, k)
    ensures forall p | 0 <= p < StartOf(blocks, 0) :: !IsHeading(blocks[p])
  {
    hide IsHeading, Flatten, SectionParts, Starts;
    ConcatOfParts(blocks, |Starts(blocks)|);
    forall k, p | 0 <= k < |Starts(blocks)| && StartOf(blocks, k) <= p < EndOf(blocks, k)
      ensures IsHeading(blocks[p]) <==> p == StartOf(blocks, k)
    {
      OneHeadingEach(blocks, k, p);
    }
    forall p | 0 <= p < StartOf(blocks, 0) ensures !IsHeading(blocks[p]) {
      NoHeadingBefore(blocks, p);
    }
  }

  lemma NoHeadingBefore(blocks: seq<Block>, p: nat)
    requires Starts(blocks) != [] && p < StartOf(blocks, 0)
    ensures !IsHeading(blocks[p])
  {
    hide IsHeading, Starts;
    StartsAreHeadings(blocks);
    if IsHeading(blocks[p]) {
      HeadingIsAfterFirst(blocks, p);
    }
  }

  lemma HeadingIsAfterFirst(blocks: seq<Block>, p: nat)
    requires p < |blocks| && IsHeading(blocks[p])
    ensures Starts(blocks) != [] && StartOf(blocks, 0) <= p
  {
    hide IsHeading, Starts;
    StartsAreHeadings(blocks);
    StartsFindEveryHeading(blocks, p);
    var i :| 0 <= i < |Starts(blocks)| && Starts(blocks)[i] == p;
  }

  lemma LaterHeadingStartsLater(blocks: seq<Block>, k: nat, p: nat)
    requires k < |Starts(blocks)| && StartOf(blocks, k) < p < |blocks| && IsHeading(blocks[p])
    ensures EndOf(blocks, k) <= p
  {
    hide IsHeading, Starts;
    StartsAreHeadings(blocks);
    StartsFindEveryHeading(blocks, p);
    var starts := Starts(blocks);
    var i :| 0 <= i < |starts| && starts[i] == p;
    assert k < i ==> k + 1 < |starts|;
    assert k + 1 < i ==> starts[k + 1] < starts[i];
  }

  lemma OneHeadingEach(blocks: seq<Block>, k: nat, p: nat)
    requires k < |Starts(blocks)| && StartOf(blocks, k) <= p < EndOf(blocks, k)
    ensures IsHeading(blocks[p]) <==> p == StartOf(blocks, k)
  {
    hide IsHeading, Starts, EndOf, StartOf;
    if p > StartOf(blocks, k) && IsHeading(blocks[p]) {
      LaterHeadingStartsLater(blocks, k, p);
    }
  }

  lemma {:induction false} ConcatOfParts(blocks: seq<Block>, n: nat)
    requires 0 < n <= |Starts(blocks)|
    ensures StartOf(blocks, 0) <= EndOf(blocks, n - 1)
    ensures Flatten(SectionParts(blocks, n)) == blocks[StartOf(blocks, 0)..EndOf(blocks, n - 1)]
  {
    hide IsHeading, Starts;
    var parts := SectionParts(blocks, n);
    assert parts[..n - 1] == SectionParts(blocks, n - 1);
    assert Flatten(parts) == Flatten(SectionParts(blocks, n - 1)) + SectionBlocks(blocks, n - 1);
    if n == 1 {
      assert SectionParts(blocks, 0) == [];
    } else {
      ConcatOfParts(blocks, n - 1);
      hide Flatten, SectionParts;
      var a, b, c := StartOf(blocks, 0), StartOf(blocks, n - 1), EndOf(blocks, n - 1);
      assert EndOf(blocks, n - 2) == b;
      assert blocks[a..b] + blocks[b..c] == blocks[a..c];
    }
  }

  function Slugs(slug: string -> string, path: seq<string>): seq<string> {
    seq(|path|, k requires 0 <= k < |path| => slug(path[k]))
  }

  // The anchor of a heading before repeats are numbered.
  function BaseAnchor(slug: string -> string, path: seq<string>, order: nat): string {
    var joined := Join(Slugs(slug, path), "/");
    if joined == "" then "section-" + Show(order) else joined
  }

  function BaseAnchors(slug: string -> string, blocks: seq<Block>, n: nat): (bases: seq<string>)
    requires n <= |Starts(blocks)|
    ensures |bases| == n
  {
    seq(n, k requires 0 <= k < n => BaseAnchor(slug, blocks[StartOf(blocks, k)].headingPath, k))
  }

  lemma BaseAnchorHasNoTilde(slug: string -> string, path: seq<string>, order: nat)
    requires TildeFree(slug)
    ensures '~' !in BaseAnchor(slug, path, order)
  {
    hide Show, IsDigit;
    var slugs := Slugs(slug, path);
    forall s | s in slugs ensures '~' !in s {
      var k :| 0 <= k < |path| && slugs[k] == s;
    }
    JoinAlphabet(slugs, "/", '~');
    TildeIsNoDigit(order);
  }

  lemma TildeIsNoDigit(n: nat)
    ensures '~' !in Show(n)
  {
    ShowAvoids(n, '~');
  }

  // No two sections of a document share an anchor.
  lemma SectionAnchorsAreDistinct(slug: string -> string, blocks: seq<Block>)
    requires TildeFree(slug)
    ensures var anchors := AnchorsOf(BaseAnchors(slug, blocks, |Starts(blocks)|));
      forall i, j | 0 <= i < j < |anchors| :: anchors[i] != anchors[j]
  {
    var bases := BaseAnchors(slug, blocks, |Starts(blocks)|);
    forall b | b in bases ensures '~' !in b {
      var k :| 0 <= k < |bases| && bases[k] == b;
      BaseAnchorHasNoTilde(slug, blocks[StartOf(blocks, k)].headingPath, k);
    }
    AnchorsAreDistinct(bases);
  }

  ghost predicate CountsUses(used: map<string, nat>, bases: seq<string>) {
    forall b :: (if b in used then used[b] else 0) == Occurrences(bases, b)
  }

  // Names one more base and counts its use.
  method NumberAnchor(base: string, used: map<string, nat>, ghost bases: seq<string>)
    returns (anchor: string, used': map<string, nat>)
    requires CountsUses(used, bases)
    ensures anchor == Numbered(base, Occurrences(bases, base))
    ensures CountsUses(used', bases + [base])
  {
    var seen := if base in used then used[base] else 0;
    used' := used + map[base := seen + 1];
    anchor := if seen == 0 then base else base + "~" + Show(seen + 1);
    assert (bases + [base])[..|bases|] == bases;
  }

  function MakeSection(anchor: string, own: seq<Block>): Section
    requires own != []
  {
    Section(
      anchor,
      own[0].headingPath,
      RenderBlocks(own),
      Canonical(own[0].locator),
      seq(|own|, p requires 0 <= p < |own| => own[p].blockId))
  }

  function SectionAt(slug: string -> string, blocks: seq<Block>, k: nat): Section
    requires k < |Starts(blocks)|
  {
    MakeSection(AnchorsOf(BaseAnchors(slug, blocks, |Starts(blocks)|))[k], SectionBlocks(blocks, k))
  }

  lemma NoStartsNoHeadings(blocks: seq<Block>)
    requires Starts(blocks) == []
    ensures forall p | 0 <= p < |blocks| :: !IsHeading(blocks[p])
  {
    forall p | 0 <= p < |blocks| ensures !IsHeading(blocks[p]) {
      if IsHeading(blocks[p]) {
        StartsFindEveryHeading(blocks, p);
      }
    }
  }

  method FindStarts(blocks: seq<Block>) returns (starts: seq<nat>)
    ensures starts == Starts(blocks)
  {
    starts := [];
    assert blocks[..0] == [];
    for p := 0 to |blocks|
      invariant starts == Starts(blocks[..p])
    {
      assert blocks[..p + 1][..p] == blocks[..p];
      if IsHeading(blocks[p]) {
        starts := starts + [p];
      }
    }
    assert blocks[..|blocks|] == blocks;
  }

  // From one heading up to the next, or to the end of the document.
  method SliceSection(blocks: seq<Block>, starts: seq<nat>, order: nat) returns (own: seq<Block>)
    requires starts == Starts(blocks) && order < |starts|
    ensures own == SectionBlocks(blocks, order)
  {
    StartsAreHeadings(blocks);
    assert starts[order] in starts;
    var end := if order + 1 < |starts| then starts[order + 1] else |blocks|;
    assert end == EndOf(blocks, order) && starts[order] == StartOf(blocks, order);
    own := blocks[starts[order]..end];
  }

  method CutSections(slug: string -> string, blocks: seq<Block>, starts: seq<nat>)
    returns (sections: seq<Section>)
    requires starts == Starts(blocks)
    ensures |sections| == |starts|
    ensures forall k | 0 <= k < |starts| :: sections[k] == SectionAt(slug, blocks, k)
  {
    hide *;
    ghost var all := BaseAnchors(slug, blocks, |starts|);
    sections := [];
    var used: map<string, nat> := NoUses();
    assert all[..0] == [];
    for order := 0 to |starts|
      invariant |sections| == order && CountsUses(used, all[..order])
      invariant forall k | 0 <= k < order :: sections[k] == SectionAt(slug, blocks, k)
    {
      var section;
      section, used := CutSection(slug, blocks, starts, order, used, all);
      sections := sections + [section];
    }
  }

  // One turn of the loop: the blocks of one section, its anchor, and one more use counted.
  method CutSection(
    slug: string -> string, blocks: seq<Block>, starts: seq<nat>, order: nat,
    used: map<string, nat>, ghost all: seq<string>)
    returns (section: Section, used': map<string, nat>)
    requires starts == Starts(blocks) && order < |starts| && all == BaseAnchors(slug, blocks, |starts|)
    requires CountsUses(used, all[..order])
    ensures section == SectionAt(slug, blocks, order)
    ensures CountsUses(used', all[..order + 1])
  {
    hide *;
    var own := SliceSection(blocks, starts, order);
    SectionMade(slug, blocks, order);
    var anchor;
    anchor, used' := NumberAnchor(BaseAnchor(slug, own[0].headingPath, order), used, all[..order]);
    assert all[..order] + [all[order]] == all[..order + 1];
    section := MakeSection(anchor, own);
  }

  // A document without headings is refused rather than given no sections; the duplicate check at the end of
  // segmentation, modelled by the distinct anchors, never fires.
  method SegmentDocument(slug: string -> string, blocks: seq<Block>)
    returns (r: Option<seq<Section>>)
    requires TildeFree(slug)
    ensures r.None? <==> forall p | 0 <= p < |blocks| :: !IsHeading(blocks[p])
    ensures r.Some? ==>
      && |r.value| == |Starts(blocks)|
      && (forall k | 0 <= k < |r.value| :: r.value[k] == SectionAt(slug, blocks, k))
      && (forall i, j | 0 <= i < j < |r.value| :: r.value[i].anchor != r.value[j].anchor)
  {
    hide IsHeading, Starts, SectionAt, AnchorsOf, BaseAnchors;
    var starts := FindStarts(blocks);
    if starts == [] {
      NoStartsNoHeadings(blocks);
      return None;
    }
    assert IsHeading(blocks[StartOf(blocks, 0)]);
    var sections := CutSections(slug, blocks, starts);
    SectionAnchorsAreDistinct(slug, blocks);
    AnchorsCarryOver(slug, blocks, sections);
    return Some(sections);
  }

  lemma SectionMade(slug: string -> string, blocks: seq<Block>, k: nat)
    requires k < |Starts(blocks)|
    ensures var all := BaseAnchors(slug, blocks, |Starts(blocks)|);
      && |all| == |Starts(blocks)|
      && all[k] == BaseAnchor(slug, SectionBlocks(blocks, k)[0].headingPath, k)
      && SectionAt(slug, blocks, k)
        == MakeSection(Numbered(all[k], Occurrences(all[..k], all[k])), SectionBlocks(blocks, k))
  {
  }

  function NoUses(): (used: map<string, nat>)
    ensures CountsUses(used, [])
  {
    map[]
  }

  lemma AnchorsCarryOver(slug: string -> string, blocks: seq<Block>, sections: seq<Section>)
    requires |sections| == |Starts(blocks)|
    requires forall k | 0 <= k < |sections| :: sections[k] == SectionAt(slug, blocks, k)
    ensures |AnchorsOf(BaseAnchors(slug, blocks, |Starts(blocks)|))| == |sections|
    ensures forall k | 0 <= k < |sections| ::
      sections[k].anchor == AnchorsOf(BaseAnchors(slug, blocks, |Starts(blocks)|))[k]
  {
  }

  // Every section's text is in normal form: its content hash is the hash of exactly the text it carries.
  lemma SectionTextIsNormal(slug: string -> string, blocks: seq<Block>, k: nat)
    requires WellBuilt(blocks) && k < |Starts(blocks)|
    ensures Normalize(SectionAt(slug, blocks, k).rawBlock) == SectionAt(slug, blocks, k).rawBlock
  {
    SectionRawBlock(slug, blocks, k);
    hide Starts, RenderBlocks, SectionAt, Normalize, WellBuilt, BlockValid, IsHeading;
    hide StartOf, EndOf;
    var own := SectionBlocks(blocks, k);
    SliceIsValid(blocks, StartOf(blocks, k), EndOf(blocks, k));
    ValidBlocksRenderNormal(own);
  }

  lemma SliceIsValid(blocks: seq<Block>, a: nat, e: nat)
    requires WellBuilt(blocks) && a <= e <= |blocks|
    ensures forall b | b in blocks[a..e] :: BlockValid(b)
  {
    hide WellBuilt, BlockValid;
    forall b | b in blocks[a..e] ensures BlockValid(b) {
      var p :| 0 <= p < e - a && blocks[a..e][p] == b;
      BuiltBlockIsValid(blocks, a + p);
    }
  }

  lemma SectionRawBlock(slug: string -> string, blocks: seq<Block>, k: nat)
    requires k < |Starts(blocks)|
    ensures SectionAt(slug, blocks, k).rawBlock == RenderBlocks(SectionBlocks(blocks, k))
  {
    hide Starts, RenderBlocks, Canonical, AnchorsOf, BaseAnchors;
  }

  lemma BuiltBlockIsValid(blocks: seq<Block>, p: nat)
    requires WellBuilt(blocks) && p < |blocks|
    ensures BlockValid(blocks[p])
  {
    assert LastFits(blocks[..p + 1]);
  }

  lemma ValidBlocksRenderNormal(blocks: seq<Block>)
    requires forall b | b in blocks :: BlockValid(b)
    ensures Normalize(RenderBlocks(blocks)) == RenderBlocks(blocks)
  {
    hide Normal, Blank, RenderBlocks, Normalize, Strip;
    RenderedBlocksAreNormal(blocks);
  }
}

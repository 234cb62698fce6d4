/** The canonical document and the builder every loader fills it through. */
module CanonicalDocuments {
  import opened Wrappers
  import opened Text
  import opened Decimal
  import opened Normalization

  datatype BlockType = Heading | Paragraph | ListItem | Table | TableCell | Code | Quote

  datatype SourceLocator = SourceLocator(scheme: string, path: seq<(string, string)>)

  predicate Addressable(s: string) {
    s != "" && '=' !in s && '/' !in s && '\n' !in s && '\r' !in s
  }

  // What constructing a locator checks.
  predicate ValidLocator(l: SourceLocator) {
    && Addressable(l.scheme) && l.path != []
    && forall k | 0 <= k < |l.path| :: Addressable(l.path[k].0) && Addressable(l.path[k].1)
  }

  function Steps(path: seq<(string, string)>): seq<string> {
    seq(|path|, k requires 0 <= k < |path| => path[k].0 + "=" + path[k].1)
  }

  function Canonical(l: SourceLocator): string {
    l.scheme + ":" + Join(Steps(l.path), "/")
  }

  datatype Block = Block(
    blockId: string, blockType: BlockType, text: string, locator: SourceLocator,
    headingPath: seq<string>, level: Option<int>)

  function Texts(blocks: seq<Block>): seq<string> {
    seq(|blocks|, k requires 0 <= k < |blocks| => blocks[k].text)
  }

  // render_blocks: one blank line between blocks.
  function RenderBlocks(blocks: seq<Block>): string {
    Join(Texts(blocks), "\n\n")
  }

  // b0001, b0002, ...
  function BlockId(n: nat): string {
    var digits := Show(n);
    "b" + seq(if |digits| < 4 then 4 - |digits| else 0, _ => '0') + digits
  }

  lemma {:induction false} ReadIgnoresZeros(zeros: string, digits: string)
    requires (forall k | 0 <= k < |zeros| :: zeros[k] == '0') && AllDigits(digits)
    ensures AllDigits(zeros + digits) && Decimal.Read(zeros + digits) == Decimal.Read(digits)
  {
    if digits == [] {
      if zeros != [] {
        ReadIgnoresZeros(zeros[..|zeros| - 1], []);
        assert zeros[..|zeros| - 1] + [] == zeros[..|zeros| - 1];
      }
      assert zeros + [] == zeros;
    } else {
      var s := zeros + digits;
      ReadIgnoresZeros(zeros, digits[..|digits| - 1]);
      assert s[..|s| - 1] == zeros + digits[..|digits| - 1];
    }
  }

  // An id is a b and at least four digits that say the number.
  lemma BlockIdExactly(n: nat)
    ensures var id := BlockId(n);
      && |id| >= 5 && id[0] == 'b' && AllDigits(id[1..]) && Decimal.Read(id[1..]) == n
      && (|id| > 5 ==> id[1] != '0')
  {
    var digits := Show(n);
    var zeros := seq(if |digits| < 4 then 4 - |digits| else 0, _ => '0');
    ReadOfShow(n);
    ReadIgnoresZeros(zeros, digits);
    assert BlockId(n)[1..] == zeros + digits;
    if |BlockId(n)| > 5 {
      LongNumeral(n);
      assert zeros == [] && zeros + digits == digits;
    }
  }

  lemma LongNumeral(n: nat)
    requires |Show(n)| > 1
    ensures Show(n)[0] != '0'
  {
  }

  // Blocks of one document never share an id.
  lemma BlockIdInjective(m: nat, n: nat)
    requires BlockId(m) == BlockId(n)
    ensures m == n
  {
    var a, b := Show(m), Show(n);
    var za, zb := seq(if |a| < 4 then 4 - |a| else 0, _ => '0'), seq(if |b| < 4 then 4 - |b| else 0, _ => '0');
    assert BlockId(m)[1..] == za + a && BlockId(n)[1..] == zb + b;
    ReadIgnoresZeros(za, a);
    ReadIgnoresZeros(zb, b);
    ReadOfShow(m);
    ReadOfShow(n);
  }

  // ---- which headings are in force ----

  datatype Entry = Entry(level: int, text: string)

  // No later heading has an equal or smaller level.
  predicate Survives(hs: seq<Entry>, i: nat) {
    forall j | i < j < |hs| :: hs[j].level > hs[i].level
  }

  // The headings still in force after all of hs, in document order.
  function InForce(hs: seq<Entry>): seq<Entry> {
    InForceFrom(hs, 0)
  }

  function InForceFrom(hs: seq<Entry>, i: nat): seq<Entry>
    requires i <= |hs|
    decreases |hs| - i
  {
    if i == |hs| then [] else (if Survives(hs, i) then [hs[i]] else []) + InForceFrom(hs, i + 1)
  }

  // The entries below a level.
  function Above(path: seq<Entry>, level: int): seq<Entry> {
    if path == [] then [] else (if path[0].level < level then [path[0]] else []) + Above(path[1..], level)
  }

  ghost predicate Deepening(path: seq<Entry>) {
    forall i, j | 0 <= i < j < |path| :: path[i].level < path[j].level
  }

  lemma {:induction false} SurvivorIsAbove(hs: seq<Entry>, j: nat, i: nat)
    requires j < i <= |hs| && Survives(hs, j)
    ensures forall e | e in InForceFrom(hs, i) :: hs[j].level < e.level
    decreases |hs| - i
  {
    if i < |hs| {
      SurvivorIsAbove(hs, j, i + 1);
    }
  }

  lemma {:induction false} InForceFromDeepens(hs: seq<Entry>, i: nat)
    requires i <= |hs|
    ensures Deepening(InForceFrom(hs, i))
    decreases |hs| - i
  {
    if i < |hs| {
      InForceFromDeepens(hs, i + 1);
      if Survives(hs, i) {
        SurvivorIsAbove(hs, i, i + 1);
        hide Survives;
        PrependDeepens(hs[i], InForceFrom(hs, i + 1));
      }
    }
  }

  lemma PrependDeepens(e: Entry, rest: seq<Entry>)
    requires Deepening(rest) && forall x | x in rest :: e.level < x.level
    ensures Deepening([e] + rest)
  {
    var path := [e] + rest;
    forall i, j | 0 <= i < j < |path| ensures path[i].level < path[j].level {
      assert path[j] == rest[j - 1];
    }
  }

  lemma {:induction false} NextHeadingFrom(hs: seq<Entry>, h: Entry, i: nat)
    requires i <= |hs|
    ensures InForceFrom(hs + [h], i) == Above(InForceFrom(hs, i), h.level) + [h]
    decreases |hs| - i
  {
    var hs' := hs + [h];
    if i == |hs| {
      assert InForceFrom(hs', i + 1) == [] && Survives(hs', i);
    } else {
      NextHeadingFrom(hs, h, i + 1);
      SurvivesNext(hs, h, i);
      hide Survives;
      var rest := InForceFrom(hs, i + 1);
      if Survives(hs, i) {
        assert ([hs[i]] + rest)[1..] == rest;
        assert Above([hs[i]] + rest, h.level) == (if hs[i].level < h.level then [hs[i]] else []) + Above(rest, h.level);
      } else {
        assert InForceFrom(hs, i) == rest;
      }
    }
  }

  lemma InForceDeepens(hs: seq<Entry>)
    ensures Deepening(InForce(hs))
  {
    InForceFromDeepens(hs, 0);
  }

  // One more heading keeps exactly the headings above its level.
  lemma NextHeading(hs: seq<Entry>, h: Entry)
    ensures InForce(hs + [h]) == Above(InForce(hs), h.level) + [h]
  {
    NextHeadingFrom(hs, h, 0);
  }

  lemma SurvivesNext(hs: seq<Entry>, h: Entry, i: nat)
    requires i < |hs|
    ensures Survives(hs + [h], i) <==> Survives(hs, i) && hs[i].level < h.level
  {
    var hs' := hs + [h];
    assert hs'[|hs|] == h;
    assert forall j | i < j < |hs| :: hs'[j] == hs[j];
  }

  lemma {:induction false} AllAbove(path: seq<Entry>, level: int)
    requires forall e | e in path :: e.level < level
    ensures Above(path, level) == path
  {
    if path != [] {
      AllAbove(path[1..], level);
      assert [path[0]] + path[1..] == path;
    }
  }

  lemma {:induction false} LastNotAbove(path: seq<Entry>, level: int)
    requires path != [] && path[|path| - 1].level >= level
    ensures Above(path, level) == Above(path[..|path| - 1], level)
  {
    if |path| > 1 {
      LastNotAbove(path[1..], level);
      assert path[..|path| - 1][1..] == path[1..][..|path| - 2];
    }
  }

  lemma AboveOfDeepening(path: seq<Entry>, level: int)
    requires Deepening(path)
    ensures path != [] && path[|path| - 1].level < level ==> Above(path, level) == path
    ensures path != [] && path[|path| - 1].level >= level ==> Above(path, level) == Above(path[..|path| - 1], level)
  {
    if path != [] {
      if path[|path| - 1].level >= level {
        LastNotAbove(path, level);
      } else {
        AllAbove(path, level);
      }
    }
  }

  function HeadingsOf(blocks: seq<Block>): seq<Entry> {
    if blocks == [] then []
    else
      var last := blocks[|blocks| - 1];
      HeadingsOf(blocks[..|blocks| - 1])
      + if last.blockType.Heading? && last.level.Some? then [Entry(last.level.value, last.text)] else []
  }

  function TextsOf(path: seq<Entry>): seq<string> {
    seq(|path|, k requires 0 <= k < |path| => path[k].text)
  }

  // What the last block of a built document satisfies; in particular its heading path is the headings in
  // force up to and including itself.
  ghost predicate LastFits(blocks: seq<Block>)
    requires blocks != []
  {
    var b := blocks[|blocks| - 1];
    && b.blockId == BlockId(|blocks|)
    && b.headingPath == TextsOf(InForce(HeadingsOf(blocks)))
    && BlockValid(b)
  }

  predicate BlockValid(b: Block) {
    && Normal(b.text) && !Blank(b.text)
    && (b.blockType.Heading? <==> b.level.Some?)
    && (b.blockType.Heading? ==> b.level.value >= 1 && Strip(b.text) == b.text)
  }

  // Every block fits the blocks up to it.
  ghost predicate WellBuilt(blocks: seq<Block>) {
    forall k | 0 < k <= |blocks| :: LastFits(blocks[..k])
  }

  lemma RightStripKeepsClean(s: string)
    requires LineEndsClean(s)
    ensures LineEndsClean(TrimRight(s, IsSpace))
  {
    hide IsSpace;
    var t := TrimRight(s, IsSpace);
    forall k | 0 <= k < |t| && IsSpace(t[k]) && t[k] != '\n' ensures k + 1 < |t| && t[k + 1] != '\n' {
      assert s[k] == t[k];
    }
  }

  lemma StripKeepsNormal(s: string)
    requires Normal(s)
    ensures Normal(Strip(s)) && Strip(Strip(s)) == Strip(s)
    ensures Blank(s) <==> Strip(s) == ""
  {
    hide IsSpace, Blank, LineEndsClean, Strip;
    NewlineIsSpace();
    StripIsClean(s);
    StripEndsSolid(s);
    StripFindsBlank(s);
  }

  lemma NewlineIsSpace()
    ensures IsSpace('\n')
  {
  }

  lemma StripIsClean(s: string)
    requires LineEndsClean(s)
    ensures LineEndsClean(Strip(s)) && forall c | c in Strip(s) :: c in s
  {
    hide IsSpace, LineEndsClean;
    RightStripKeepsClean(s);
    TrimLeftKeepsClean(TrimRight(s, IsSpace), IsSpace);
    TrimIsInside(s, IsSpace);
  }

  predicate NoRepeats(s: seq<string>) {
    forall i, j | 0 <= i < j < |s| :: s[i] != s[j]
  }

  datatype Added = Appended(block: Block) | Skipped | Rejected

  class CanonicalDocumentBuilder {
    var blocks: seq<Block>
    var warnings: seq<string>
    var path: seq<Entry>

    ghost predicate Valid()
      reads this
    {
      WellBuilt(blocks) && path == InForce(HeadingsOf(blocks)) && NoRepeats(warnings)
    }

    constructor ()
      ensures Valid() && blocks == [] && warnings == []
    {
      blocks, warnings, path := [], [], [];
    }

    // A message is listed once, however often it is given: the list is its messages in the order they first came.
    method Warn(message: string)
      requires NoRepeats(warnings)
      modifies `warnings
      ensures NoRepeats(warnings) && old(warnings) <= warnings
      ensures forall w :: w in warnings <==> w in old(warnings) || w == message
    {
      if message !in warnings {
        warnings := warnings + [message];
      }
    }

    // A heading replaces, on the stack, every heading of an equal or deeper level.
    method AddHeading(level: int, text: string, locator: SourceLocator) returns (r: Added)
      requires Valid()
      modifies this
      ensures Valid()
      ensures r.Rejected? <==> level < 1
      ensures r.Skipped? <==> level >= 1 && Blank(text)
      ensures !r.Appended? ==> blocks == old(blocks)
      ensures if r.Skipped? then old(warnings) <= warnings else warnings == old(warnings)
      ensures r.Appended? ==>
        && blocks == old(blocks) + [r.block]
        && r.block.blockType == Heading && r.block.level == Some(level)
        && r.block.text == Strip(Normalize(text)) && r.block.locator == locator
    {
      hide Normal, Normalize, Strip, Blank, InForce, InForceFrom, WellBuilt, HeadingsOf, Canonical;
      if level < 1 {
        return Rejected;
      }
      var normalized := Strip(Normalize(text));
      NormalizeIsNormal(text);
      StripKeepsNormal(Normalize(text));
      NormalizeKeepsBlank(text);
      if normalized == "" {
        Warn("empty heading skipped: " + Canonical(locator));
        return Skipped;
      }
      ghost var hs, h := HeadingsOf(blocks), Entry(level, normalized);
      InForceDeepens(hs);
      PopDeeper(level);
      path := path + [Entry(level, normalized)];
      NextHeading(hs, h);
      StripKeepsNormal(normalized);
      r := Append(Heading, normalized, locator, Some(level));
    }

    method PopDeeper(level: int)
      requires Deepening(path)
      modifies `path
      ensures path == Above(old(path), level)
    {
      while path != [] && path[|path| - 1].level >= level
        invariant Deepening(path) && Above(path, level) == Above(old(path), level)
        decreases |path|
      {
        AboveOfDeepening(path, level);
        path := path[..|path| - 1];
      }
      AboveOfDeepening(path, level);
    }

    method AddBlock(blockType: BlockType, text: string, locator: SourceLocator) returns (r: Added)
      requires Valid()
      modifies this
      ensures Valid() && warnings == old(warnings)
      ensures r.Rejected? <==> blockType == Heading
      ensures r.Skipped? <==> blockType != Heading && Blank(text)
      ensures !r.Appended? ==> blocks == old(blocks)
      ensures r.Appended? ==>
        && blocks == old(blocks) + [r.block]
        && r.block.blockType == blockType && r.block.text == Normalize(text) && r.block.locator == locator
    {
      hide Normal, Normalize, Strip, Blank, InForce, WellBuilt, HeadingsOf;
      if blockType == Heading {
        return Rejected;
      }
      var normalized := Normalize(text);
      NormalizeIsNormal(text);
      StripKeepsNormal(normalized);
      NormalizeKeepsBlank(text);
      if Strip(normalized) == "" {
        return Skipped;
      }
      assert HeadingsOf(blocks) + [] == HeadingsOf(blocks);
      r := Append(blockType, normalized, locator, None);
    }

    method Append(blockType: BlockType, text: string, locator: SourceLocator, level: Option<int>) returns (r: Added)
      requires WellBuilt(blocks) && Normal(text) && !Blank(text)
      requires blockType.Heading? <==> level.Some?
      requires blockType.Heading? ==> level.value >= 1 && Strip(text) == text
      requires path == InForce(HeadingsOf(blocks) + if level.Some? then [Entry(level.value, text)] else [])
      requires NoRepeats(warnings)
      modifies `blocks
      ensures Valid()
      ensures r == Appended(Block(BlockId(|old(blocks)| + 1), blockType, text, locator, TextsOf(path), level))
      ensures blocks == old(blocks) + [r.block]
    {
      hide Normal, Blank, InForce, TextsOf, BlockId, Strip, WellBuilt, HeadingsOf, NoRepeats;
      var block := Block(BlockId(|blocks| + 1), blockType, text, locator, TextsOf(path), level);
      AppendedIsWellBuilt(blocks, block);
      blocks := blocks + [block];
      return Appended(block);
    }
  }

  function EntryOf(block: Block): seq<Entry> {
    if block.blockType.Heading? && block.level.Some? then [Entry(block.level.value, block.text)] else []
  }

  lemma HeadingsOfAppended(blocks: seq<Block>, b: Block)
    ensures HeadingsOf(blocks + [b]) == HeadingsOf(blocks) + EntryOf(b)
  {
    assert (blocks + [b])[..|blocks|] == blocks;
  }

  lemma AppendedIsWellBuilt(blocks: seq<Block>, b: Block)
    requires WellBuilt(blocks) && b.blockId == BlockId(|blocks| + 1)
    requires b.headingPath == TextsOf(InForce(HeadingsOf(blocks) + EntryOf(b))) && BlockValid(b)
    ensures WellBuilt(blocks + [b]) && HeadingsOf(blocks + [b]) == HeadingsOf(blocks) + EntryOf(b)
  {
    hide BlockValid, InForce, TextsOf, BlockId, HeadingsOf;
    HeadingsOfAppended(blocks, b);
    assert LastFits(blocks + [b]);
    WellBuiltExtends(blocks, b);
  }

  lemma WellBuiltExtends(blocks: seq<Block>, b: Block)
    requires WellBuilt(blocks) && LastFits(blocks + [b])
    ensures WellBuilt(blocks + [b])
  {
    hide LastFits;
    var blocks' := blocks + [b];
    forall k | 0 < k <= |blocks'| ensures LastFits(blocks'[..k]) {
      if k <= |blocks| {
        assert blocks'[..k] == blocks[..k];
      } else {
        assert blocks'[..k] == blocks';
      }
    }
  }

  // The text of a rendered section is its own normal form, so its content hash is the hash of exactly that text.
  lemma RenderedBlocksAreNormal(blocks: seq<Block>)
    requires forall b | b in blocks :: Normal(b.text) && !Blank(b.text)
    ensures Normal(RenderBlocks(blocks)) && Normalize(RenderBlocks(blocks)) == RenderBlocks(blocks)
  {
    hide Normal, Blank, RenderBlocks, Normalize;
    if blocks == [] {
      RenderedNothingIsNormal(blocks);
    } else {
      RenderedIsNormal(blocks);
    }
    NormalizeFixesExactlyNormal(RenderBlocks(blocks));
  }

  lemma RenderedNothingIsNormal(blocks: seq<Block>)
    requires blocks == []
    ensures Normal(RenderBlocks(blocks))
  {
  }

  lemma {:induction false} RenderedIsNormal(blocks: seq<Block>)
    requires blocks != [] && forall b | b in blocks :: Normal(b.text) && !Blank(b.text)
    ensures Normal(RenderBlocks(blocks)) && RenderBlocks(blocks) != ""
  {
    hide Normal, Blank, IsSpace;
    var head := blocks[0].text;
    assert Normal(head) && !Blank(head);
    NotBlankNotEmpty(head);
    if |blocks| > 1 {
      RenderedIsNormal(blocks[1..]);
      var tail := RenderBlocks(blocks[1..]);
      assert Texts(blocks)[1..] == Texts(blocks[1..]);
      assert RenderBlocks(blocks) == head + "\n\n" + tail;
      NormalPieces(head, tail);
    } else {
      assert RenderBlocks(blocks) == head;
    }
  }

  lemma NotBlankNotEmpty(s: string)
    requires !Blank(s)
    ensures s != ""
  {
  }

  lemma NormalPieces(head: string, tail: string)
    requires Normal(head) && Normal(tail) && head != "" && tail != ""
    ensures Normal(head + "\n\n" + tail)
  {
    hide IsSpace;
    var s := head + "\n\n" + tail;
    assert LineEndsClean(s) by {
      forall k | 0 <= k < |s| && IsSpace(s[k]) && s[k] != '\n' ensures k + 1 < |s| && s[k + 1] != '\n' {
        if k < |head| {
          assert IsSpace(head[k]);
          assert s[k + 1] == head[k + 1];
        } else {
          assert s[k] == tail[k - |head| - 2];
          assert s[k + 1] == tail[k - |head| - 1];
        }
      }
    }
    hide LineEndsClean;
  }
}

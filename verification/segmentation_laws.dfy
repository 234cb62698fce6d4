/** What the sections of a document hold and what they are called. */
module SegmentationLaws {
  import opened Text
  import opened Decimal
  import opened CanonicalDocuments
  import opened Anchors
  import opened Segmentation

  // ---- anchors ----

  // The places up to and including k with the base of k.
  function Uses(bases: seq<string>, k: nat): set<nat>
    requires k < |bases|
  {
    set j: nat | j <= k && bases[j] == bases[k]
  }

  function Places(bases: seq<string>, base: string): set<nat> {
    set j: nat | j < |bases| && bases[j] == base
  }

  lemma {:induction false} OccurrencesCount(bases: seq<string>, base: string)
    ensures Occurrences(bases, base) == |Places(bases, base)|
  {
    if bases == [] {
      assert Places(bases, base) == {};
    } else {
      var n := |bases| - 1;
      OccurrencesCount(bases[..n], base);
      assert n !in Places(bases[..n], base);
      assert Places(bases, base) == Places(bases[..n], base) + if bases[n] == base then {n} else {};
    }
  }

  // The first use of a base is the base itself, the n-th the base with ~n.
  lemma AnchorExactly(bases: seq<string>, k: nat)
    requires k < |bases|
    ensures var n := |Uses(bases, k)|;
      && n >= 1
      && AnchorsOf(bases)[k] == if n == 1 then bases[k] else bases[k] + "~" + Show(n)
  {
    hide Show, Occurrences;
    OccurrencesCount(bases[..k], bases[k]);
    assert k !in Places(bases[..k], bases[k]);
    assert Uses(bases, k) == Places(bases[..k], bases[k]) + {k};
  }

  // ---- sections ----

  // Block a begins the k-th section, which ends before block e.
  ghost predicate Bounds(blocks: seq<Block>, k: nat, a: nat, e: nat) {
    && a < e <= |blocks|
    && blocks[a].blockType == Heading
    && |set p: nat | p < a && blocks[p].blockType == Heading| == k
    && (forall p | a < p < e :: blocks[p].blockType != Heading)
    && (e < |blocks| ==> blocks[e].blockType == Heading)
  }

  function Headings(blocks: seq<Block>, n: nat): set<nat>
    requires n <= |blocks|
  {
    set p: nat | p < n && blocks[p].blockType == Heading
  }

  lemma {:induction false} StartsCount(blocks: seq<Block>, k: nat)
    requires k < |Starts(blocks)|
    ensures |Headings(blocks, StartOf(blocks, k))| == k
  {
    StartsAreHeadings(blocks);
    hide Starts, StartOf;
    var a := StartOf(blocks, k);
    IsStart(blocks, k);
    if k == 0 {
      forall p | p in Headings(blocks, a) ensures false {
        HeadingIsStart(blocks, p, k);
      }
      assert Headings(blocks, a) == {};
    } else {
      var b := StartOf(blocks, k - 1);
      IsStart(blocks, k - 1);
      StartsCount(blocks, k - 1);
      forall p | p in Headings(blocks, a) ensures p in Headings(blocks, b) || p == b {
        HeadingIsStart(blocks, p, k);
      }
      assert Headings(blocks, a) == Headings(blocks, b) + {b};
    }
  }

  lemma IsStart(blocks: seq<Block>, k: nat)
    requires k < |Starts(blocks)|
    ensures StartOf(blocks, k) == Starts(blocks)[k] < |blocks| && blocks[StartOf(blocks, k)].blockType == Heading
  {
    hide Starts;
  }

  // A heading before the k-th start is one of the starts before it.
  lemma HeadingIsStart(blocks: seq<Block>, p: nat, k: nat)
    requires k < |Starts(blocks)| && p < Starts(blocks)[k] && p < |blocks| && blocks[p].blockType == Heading
    ensures exists j: nat :: j < k && Starts(blocks)[j] == p
    ensures k > 0 ==> p <= Starts(blocks)[k - 1]
  {
    hide Starts;
    StartsAreHeadings(blocks);
    StartsFindEveryHeading(blocks, p);
    var j: nat :| j < |Starts(blocks)| && Starts(blocks)[j] == p;
  }

  lemma BoundsExactly(blocks: seq<Block>, k: nat)
    requires k < |Starts(blocks)|
    ensures Bounds(blocks, k, StartOf(blocks, k), EndOf(blocks, k))
  {
    var a, e := StartOf(blocks, k), EndOf(blocks, k);
    IsStart(blocks, k);
    StartsCount(blocks, k);
    assert Headings(blocks, a) == set p: nat | p < a && blocks[p].blockType == Heading;
    if k + 1 < |Starts(blocks)| {
      IsStart(blocks, k + 1);
    }
    forall p | a < p < e ensures blocks[p].blockType != Heading {
      if blocks[p].blockType == Heading {
        NoStartBetween(blocks, k, p);
      }
    }
  }

  lemma NoStartBetween(blocks: seq<Block>, k: nat, p: nat)
    requires k < |Starts(blocks)| && p < |blocks| && blocks[p].blockType == Heading
    ensures p <= StartOf(blocks, k) || p >= EndOf(blocks, k)
  {
    hide Starts;
    StartsAreHeadings(blocks);
    StartsFindEveryHeading(blocks, p);
    var j: nat :| j < |Starts(blocks)| && Starts(blocks)[j] == p;
    IsStart(blocks, k);
    if k + 1 < |Starts(blocks)| {
      IsStart(blocks, k + 1);
    }
  }

  // A section made of blocks a up to e: called after the first one's path and found at its place, its text that of all
  // of them, a blank line between two, and naming them all.
  ghost predicate Covers(s: Section, blocks: seq<Block>, a: nat, e: nat)
    requires a < e <= |blocks|
  {
    && s.headingPath == blocks[a].headingPath && s.locator == Canonical(blocks[a].locator)
    && |s.blockIds| == e - a && (forall p | a <= p < e :: s.blockIds[p - a] == blocks[p].blockId)
    && s.rawBlock == Join(seq(e - a, p requires 0 <= p < e - a => blocks[a + p].text), "\n\n")
  }

  lemma MadeSectionCovers(anchor: string, blocks: seq<Block>, a: nat, e: nat)
    requires a < e <= |blocks|
    ensures Covers(MakeSection(anchor, blocks[a..e]), blocks, a, e)
  {
    hide Canonical, Join;
    var own := blocks[a..e];
    assert forall p | a <= p < e :: own[p - a] == blocks[p];
    assert Texts(own) == seq(e - a, p requires 0 <= p < e - a => blocks[a + p].text);
  }

  // The k-th section begins at the k-th heading and runs up to the next.
  lemma SectionExactly(slug: string -> string, blocks: seq<Block>, k: nat)
    requires k < |Starts(blocks)|
    ensures exists a: nat, e: nat :: Bounds(blocks, k, a, e) && Covers(SectionAt(slug, blocks, k), blocks, a, e)
  {
    hide BaseAnchors, Covers, MakeSection, Bounds, Starts, Numbered;
    var a, e := StartOf(blocks, k), EndOf(blocks, k);
    BoundsExactly(blocks, k);
    MadeSectionCovers(AnchorsOf(BaseAnchors(slug, blocks, |Starts(blocks)|))[k], blocks, a, e);
  }

  // The base of a section's anchor holds the slugs of its heading path between slashes, or its number if they are
  // empty.
  lemma BaseExactly(slug: string -> string, path: seq<string>, order: nat)
    requires path != [] && forall value :: '/' !in slug(value)
    ensures var base := BaseAnchor(slug, path, order);
      && (|path| == 1 && slug(path[0]) == "" ==> base == "section-" + Show(order))
      && (|path| > 1 || slug(path[0]) != "" ==>
          var parts := Split(base, '/');
          |parts| == |path| && forall i | 0 <= i < |path| :: parts[i] == slug(path[i]))
  {
    hide Show, Split;
    var slugs := Slugs(slug, path);
    SplitOfJoin(slugs, '/');
    if |path| > 1 {
      assert Join(slugs, "/") == slugs[0] + "/" + Join(slugs[1..], "/");
    }
  }
}

/** What the thresholds of the PDF loader mean for fragments, lines and levels. */
module PdfLaws {
  import opened Wrappers
  import opened Text
  import opened Sorting
  import opened Sums
  import opened PdfLines
  import opened PdfBlocks

  // ---- lines ----

  predicate Within(x: real, d: real) {
    -d <= x <= d
  }

  // A fragment stands on a line when it is within 1.5 of the mean height of its fragments, or within 0.35 of the size
  // of one of them.
  lemma OnLineExactly(group: seq<Fragment>, f: Fragment, mean: real)
    requires group != [] && mean * |group| as real == SumY(group)
    ensures OnLine(group, f) <==>
      Within(f.y - mean, 1.5) || exists g | g in group :: Within(f.y - mean, 0.35 * g.size)
  {
    MeanIsBaseline(group, mean);
    LargestIsLargest(group);
    hide SumY, LargestSize, Baseline;
    var g :| g in group && g.size == LargestSize(group);
    assert LargestSize(group) * 0.35 == 0.35 * g.size;
    forall x | x in group ensures 0.35 * x.size <= 0.35 * g.size {
    }
  }

  lemma MeanIsBaseline(group: seq<Fragment>, mean: real)
    requires group != [] && mean * |group| as real == SumY(group)
    ensures mean == Baseline(group)
  {
    hide SumY;
    var n := |group| as real;
    assert (SumY(group) / n) * n == SumY(group);
    assert (mean - SumY(group) / n) * n == 0.0;
  }

  lemma {:induction false} LeftEdgeIsLeast(group: seq<Fragment>)
    requires group != []
    ensures forall f | f in group :: LeftEdge(group) <= f.x
    ensures exists f :: f in group && f.x == LeftEdge(group)
  {
    var n := |group| - 1;
    assert group == group[..n] + [group[n]];
    if n > 0 {
      LeftEdgeIsLeast(group[..n]);
      var f :| f in group[..n] && f.x == LeftEdge(group[..n]);
      assert f in group && group[n] in group;
    } else {
      assert group[0] in group;
    }
  }

  // A line begins where its leftmost fragment does, is as large as its largest, and stands at their mean height.
  lemma LineMeasures(group: seq<Fragment>)
    requires group != []
    ensures var line := LineOf(group);
      && (forall f | f in group :: line.x <= f.x) && (exists f :: f in group && f.x == line.x)
      && (forall f | f in group :: f.size <= line.size) && (exists f :: f in group && f.size == line.size)
      && line.y * |group| as real == SumY(group)
  {
    hide LeftEdge, LargestSize, SumY, Sort, JoinedSoFar, Strip;
    LeftEdgeIsLeast(group);
    LargestIsLargest(group);
    var n := |group| as real;
    assert (SumY(group) / n) * n == SumY(group);
  }

  // Two fragments are written without a space between them.
  predicate Glued(before: string, next: string)
    requires before != ""
  {
    before[|before| - 1] in {' ', '-', '/', '('}
    || (next != "" && next[0] in {' ', '.', ',', ';', ':', ')', ']'})
  }

  // Fragments are joined with one space between two of them, or none where the last character before or the first one
  // after belongs to both.
  lemma SpacedExactly(group: seq<Fragment>, f: Fragment)
    requires group != [] && forall g | g in group :: g.text != ""
    ensures var before, last := JoinedSoFar(group), group[|group| - 1].text;
      JoinedSoFar(group + [f]) == if Glued(last, f.text) then before + f.text else before + " " + f.text
    ensures JoinedSoFar([f]) == f.text
  {
    hide JoinedSoFar, EndsOpen, StartsClosing, Glued;
    EndsWithLast(group);
    var before, last := JoinedSoFar(group), group[|group| - 1].text;
    JoinedNext(group, f);
    JoinedFirst(f);
    GluedExactly(before, last, f.text);
  }

  lemma JoinedNext(group: seq<Fragment>, f: Fragment)
    requires JoinedSoFar(group) != ""
    ensures var before := JoinedSoFar(group);
      JoinedSoFar(group + [f])
        == if EndsOpen(before) || StartsClosing(f.text) then before + f.text else before + " " + f.text
  {
    assert (group + [f])[..|group|] == group;
  }

  lemma JoinedFirst(f: Fragment)
    ensures JoinedSoFar([f]) == f.text
  {
    assert [f][..0] == [];
  }

  lemma GluedExactly(before: string, last: string, next: string)
    requires before != "" && last != "" && before[|before| - 1] == last[|last| - 1]
    ensures EndsOpen(before) || StartsClosing(next) <==> Glued(last, next)
  {
  }

  lemma EndsWithLast(group: seq<Fragment>)
    requires group != [] && forall g | g in group :: g.text != ""
    ensures var before, last := JoinedSoFar(group), group[|group| - 1].text;
      before != "" && last != "" && before[|before| - 1] == last[|last| - 1]
  {
    assert group[|group| - 1] in group;
  }

  // ---- heading sizes and levels ----

  // The rounded sizes of the short lines set at least 1.18 times as large as the body.
  function Standing(lines: seq<Line>, body: real, round2: real -> real): set<real> {
    set l | l in lines && l.size >= 1.18 * body && |l.text| <= 200 :: round2(l.size)
  }

  function Elements(sizes: seq<real>): set<real> {
    set s | s in sizes
  }

  function LargerThan(sizes: set<real>, size: real): set<real> {
    set s | s in sizes && s > size
  }

  lemma StandingExactly(lines: seq<Line>, body: real, round2: real -> real)
    ensures forall s :: s in StandingSizes(lines, body, round2) <==> s in Standing(lines, body, round2)
  {
    forall s ensures s in StandingSizes(lines, body, round2) <==> s in Standing(lines, body, round2) {
      StandingSizesAre(lines, body, round2, s);
    }
  }

  lemma {:induction false} LargerAreBefore(sizes: seq<real>, j: nat)
    requires Falling(sizes) && j < |sizes|
    ensures |LargerThan(Elements(sizes), sizes[j])| == j
  {
    var larger := LargerThan(Elements(sizes), sizes[j]);
    if j == 0 {
      assert larger == {};
    } else {
      LargerAreBefore(sizes, j - 1);
      var before := LargerThan(Elements(sizes), sizes[j - 1]);
      assert forall s :: s in larger <==> s in before || s == sizes[j - 1];
      assert larger == before + {sizes[j - 1]};
    }
  }

  // A size makes headings exactly when fewer than six larger ones stand out, and then its level is one more than their
  // number.
  lemma LevelExactly(size: real, lines: seq<Line>, body: real, round2: real -> real)
    ensures var standing, rounded := Standing(lines, body, round2), round2(size);
      var larger := |LargerThan(standing, rounded)|;
      HeadingLevel(size, HeadingSizes(lines, body, round2), round2)
        == if body > 0.0 && rounded in standing && larger < 6 then Some(larger + 1) else None
  {
    hide Standing, StandingSizes, Sort;
    if body > 0.0 {
      var found, standing := StandingSizes(lines, body, round2), Standing(lines, body, round2);
      StandingExactly(lines, body, round2);
      StandingSizesDiffer(lines, body, round2);
      SortedSizesFall(found);
      var sorted := Sort(found, Descends);
      SameElements(found, sorted, standing);
      FirstSix(sorted, round2(size));
    }
  }

  lemma SameElements(found: seq<real>, sorted: seq<real>, standing: set<real>)
    requires (forall s :: s in sorted <==> s in found) && (forall s :: s in found <==> s in standing)
    ensures Elements(sorted) == standing
  {
    forall s ensures s in Elements(sorted) <==> s in standing {
      assert s in sorted <==> s in found;
    }
  }

  lemma FirstSix(sorted: seq<real>, size: real)
    requires Falling(sorted)
    ensures var sizes := if |sorted| > 6 then sorted[..6] else sorted;
      var larger := |LargerThan(Elements(sorted), size)|;
      PdfBlocks.IndexOf(sizes, size, 0) == if size in sorted && larger < 6 then Some(larger) else None
  {
    var sizes := if |sorted| > 6 then sorted[..6] else sorted;
    var i := PdfBlocks.IndexOf(sizes, size, 0);
    if i.Some? {
      assert sorted[i.value] == size;
      LargerAreBefore(sorted, i.value);
    } else if size in sorted {
      var j: nat :| j < |sorted| && sorted[j] == size;
      LargerAreBefore(sorted, j);
      if j < 6 {
        AmongFirst(sorted, sizes, j);
      }
    }
  }

  lemma AmongFirst(sorted: seq<real>, sizes: seq<real>, j: nat)
    requires sizes == (if |sorted| > 6 then sorted[..6] else sorted) && j < |sorted| && j < 6
    ensures sorted[j] in sizes
  {
    assert sizes[j] == sorted[j];
  }

  // ---- paragraphs ----

  // Two neighbouring lines share a paragraph exactly when neither is a heading, the lower one is at most 1.8 times the
  // larger of their sizes below, and its start is within 24 or 2.5 times its size of the other's.
  lemma TogetherExactly(previous: Line, l: Line, sizes: seq<real>, round2: real -> real)
    ensures Together(previous, l, sizes, round2) <==>
      && round2(previous.size) !in sizes && round2(l.size) !in sizes
      && (previous.y - l.y <= 1.8 * previous.size || previous.y - l.y <= 1.8 * l.size)
      && (Within(previous.x - l.x, 24.0) || Within(previous.x - l.x, 2.5 * l.size))
  {
  }

  // A block is as large as its largest line.
  lemma {:induction false} BlockMeasures(part: seq<Line>)
    requires part != []
    ensures forall l | l in part :: l.size <= BlockOf(part).size
    ensures exists l :: l in part && l.size == BlockOf(part).size
  {
    var n := |part| - 1;
    assert part == part[..n] + [part[n]];
    if n > 0 {
      BlockMeasures(part[..n]);
      var l :| l in part[..n] && l.size == BlockOf(part[..n]).size;
      assert l in part && part[n] in part;
    } else {
      assert part[0] in part;
    }
  }

  // ---- reading order and body size ----

  // Fragments are grouped from top to bottom, and from left to right at one height.
  lemma ReadingOrderExactly(fragments: seq<Fragment>, i: nat, j: nat)
    requires i < j < |Ordered(fragments)|
    ensures var a, b := Ordered(fragments)[i], Ordered(fragments)[j];
      || a.y > b.y
      || (a.y == b.y && (a.x < b.x || (a.x == b.x && StringLe(a.text, b.text))))
  {
    hide Sort, StringLe;
    ReadingOrders();
    SortSorts(fragments, ReadsBefore);
    assert ReadsBefore(Ordered(fragments)[i], Ordered(fragments)[j]);
  }

  // And joined from left to right.
  lemma JoinOrderExactly(group: seq<Fragment>, i: nat, j: nat)
    requires i < j < |Sort(group, LeftOf)|
    ensures var a, b := Sort(group, LeftOf)[i], Sort(group, LeftOf)[j];
      a.x < b.x || (a.x == b.x && StringLe(a.text, b.text))
  {
    hide Sort, StringLe;
    ReadingOrders();
    SortSorts(group, LeftOf);
    assert LeftOf(Sort(group, LeftOf)[i], Sort(group, LeftOf)[j]);
  }

  // The characters of the lines that pass a test, an empty line counting one.
  function Characters(lines: seq<Line>, test: Line -> bool): nat {
    if lines == [] then 0
    else
      var l := lines[|lines| - 1];
      Characters(lines[..|lines| - 1], test)
      + if !test(l) then 0 else if l.text == "" then 1 else |l.text|
  }

  lemma {:induction false} CharactersAreSum(lines: seq<Line>, test: Line -> bool, f: Weighted -> nat)
    requires forall l: Line, n: nat :: f((l.size, n)) == if test(l) then n else 0
    ensures Characters(lines, test) == Sum(Pairs(lines), f)
  {
    if lines != [] {
      var n := |lines| - 1;
      CharactersAreSum(lines[..n], test, f);
      assert Pairs(lines)[..n] == Pairs(lines[..n]);
      hide Pairs, Characters;
      LastPair(lines);
    }
  }

  lemma LastPair(lines: seq<Line>)
    requires lines != []
    ensures |Pairs(lines)| == |lines|
    ensures var l := lines[|lines| - 1];
      Pairs(lines)[|lines| - 1] == (l.size, if l.text == "" then 1 else |l.text|)
  {
  }

  // The body size: less than half of all characters are in smaller type, at least half in type no larger.
  lemma BodySizeExactly(lines: seq<Line>, size: real)
    requires WeightedMedian(Pairs(lines), size)
    ensures 2 * Characters(lines, (l: Line) => l.size < size) < Characters(lines, (l: Line) => true)
    ensures Characters(lines, (l: Line) => true) <= 2 * Characters(lines, (l: Line) => l.size <= size)
    ensures exists l :: l in lines && l.size == size
  {
    CharactersAreSum(lines, (l: Line) => l.size < size, Below(size));
    CharactersAreSum(lines, (l: Line) => l.size <= size, UpTo(size));
    CharactersAreSum(lines, (l: Line) => true, All());
    var p :| p in Pairs(lines) && p.0 == size;
    var k :| 0 <= k < |Pairs(lines)| && Pairs(lines)[k] == p;
    assert lines[k] in lines;
  }

  // A block's text is its lines' texts, one below the other.
  lemma BlockText(part: seq<Line>)
    requires part != [] && forall l | l in part :: '\n' !in l.text
    ensures Split(BlockOf(part).text, '\n') == LineTexts(part)
  {
    var texts := LineTexts(part);
    forall t | t in texts ensures '\n' !in t {
      var k :| 0 <= k < |texts| && texts[k] == t;
      assert part[k] in part;
    }
    SplitOfJoin(texts, '\n');
  }
}

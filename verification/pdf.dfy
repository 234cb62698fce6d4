/** PDF text recovered from its coordinates: fragments into lines, lines into headings and paragraphs. */
module PdfLines {
  import opened Text
  import opened Normalization
  import opened Sorting
  import opened Sequences

  datatype Fragment = Fragment(text: string, x: real, y: real, size: real)

  datatype Line = Line(text: string, x: real, y: real, size: real)

  // What _extract_fragments emits: white space squeezed, never blank.
  predicate Squeezed(f: Fragment) {
    f.text != "" && Strip(f.text) == f.text
  }

  // Top to bottom, left to right.
  predicate ReadsBefore(a: Fragment, b: Fragment) {
    if a.y != b.y then a.y > b.y else LeftOf(a, b)
  }

  predicate LeftOf(a: Fragment, b: Fragment) {
    if a.x != b.x then a.x < b.x else StringLe(a.text, b.text)
  }

  lemma ReadingOrders()
    ensures TotalPreorder(ReadsBefore) && TotalPreorder(LeftOf)
  {
    forall a: Fragment, b: Fragment
      ensures ReadsBefore(a, b) || ReadsBefore(b, a)
      ensures LeftOf(a, b) || LeftOf(b, a)
    {
      StringLeTotal(a.text, b.text);
    }
    forall a: Fragment, b: Fragment, c: Fragment
      ensures LeftOf(a, b) && LeftOf(b, c) ==> LeftOf(a, c)
      ensures ReadsBefore(a, b) && ReadsBefore(b, c) ==> ReadsBefore(a, c)
    {
      if StringLe(a.text, b.text) && StringLe(b.text, c.text) {
        StringLeTransitive(a.text, b.text, c.text);
      }
    }
  }

  function Ordered(fragments: seq<Fragment>): seq<Fragment> {
    Sort(fragments, ReadsBefore)
  }

  function SumY(group: seq<Fragment>): real {
    if group == [] then 0.0 else SumY(group[..|group| - 1]) + group[|group| - 1].y
  }

  function Baseline(group: seq<Fragment>): real
    requires group != []
  {
    SumY(group) / |group| as real
  }

  function Larger(a: real, b: real): real {
    if a >= b then a else b
  }

  function Distance(a: real, b: real): real {
    if a >= b then a - b else b - a
  }

  function LargestSize(group: seq<Fragment>): real
    requires group != []
  {
    if |group| == 1 then group[0].size else Larger(LargestSize(group[..|group| - 1]), group[|group| - 1].size)
  }

  function LeftEdge(group: seq<Fragment>): real
    requires group != []
  {
    if |group| == 1 then group[0].x
    else
      var rest := LeftEdge(group[..|group| - 1]);
      if group[|group| - 1].x < rest then group[|group| - 1].x else rest
  }

  // Whether a fragment stands on the line a group has formed so far.
  predicate OnLine(group: seq<Fragment>, f: Fragment)
    requires group != []
  {
    Distance(f.y, Baseline(group)) <= Larger(1.5, LargestSize(group) * 0.35)
  }

  // Each group was formed by fragments that stood on its line when they came, and the next group began with one
  // that did not.
  ghost predicate Grouped(groups: seq<seq<Fragment>>) {
    && (forall k | 0 <= k < |groups| :: groups[k] != [])
    && (forall k, i | 0 <= k < |groups| && 0 < i < |groups[k]| :: OnLine(groups[k][..i], groups[k][i]))
    && (forall k | 0 < k < |groups| :: !OnLine(groups[k - 1], groups[k][0]))
  }

  lemma GroupedAppend(groups: seq<seq<Fragment>>, f: Fragment)
    requires Grouped(groups) && (groups != [] ==> !OnLine(groups[|groups| - 1], f))
    ensures Grouped(groups + [[f]])
  {
    hide OnLine;
    var longer := groups + [[f]];
    forall k, i | 0 <= k < |longer| && 0 < i < |longer[k]| ensures OnLine(longer[k][..i], longer[k][i]) {
      assert longer[k] == groups[k];
    }
    forall k | 0 < k < |longer| ensures !OnLine(longer[k - 1], longer[k][0]) {
      assert longer[k - 1] == groups[k - 1];
      assert k < |groups| ==> longer[k] == groups[k];
    }
  }

  lemma GroupedExtend(groups: seq<seq<Fragment>>, f: Fragment)
    requires Grouped(groups) && groups != [] && OnLine(groups[|groups| - 1], f)
    ensures var n := |groups| - 1; Grouped(groups[..n] + [groups[n] + [f]])
  {
    hide OnLine;
    var n := |groups| - 1;
    var longer := groups[..n] + [groups[n] + [f]];
    forall k, i | 0 <= k < |longer| && 0 < i < |longer[k]| ensures OnLine(longer[k][..i], longer[k][i]) {
      if k < n {
        assert longer[k] == groups[k];
      } else if i < |groups[n]| {
        assert longer[n][..i] == groups[n][..i] && longer[n][i] == groups[n][i];
      } else {
        assert longer[n][..i] == groups[n] && longer[n][i] == f;
      }
    }
    forall k | 0 < k < |longer| ensures !OnLine(longer[k - 1], longer[k][0]) {
      assert longer[k - 1] == groups[k - 1] && longer[k][0] == groups[k][0];
    }
  }

  // The first loop of _lines_from_fragments.
  method GroupFragments(ordered: seq<Fragment>) returns (groups: seq<seq<Fragment>>)
    ensures Flatten(groups) == ordered && Grouped(groups)
  {
    hide OnLine, Flatten, Grouped;
    groups := [];
    NoGroups();
    assert ordered[..0] == [];
    for i := 0 to |ordered|
      invariant Flatten(groups) == ordered[..i] && Grouped(groups)
    {
      assert ordered[..i] + [ordered[i]] == ordered[..i + 1];
      GroupedMeans(groups);
      var f, n := ordered[i], |groups| - 1;
      if groups != [] && OnLine(groups[n], f) {
        FlattenExtend(groups, f);
        GroupedExtend(groups, f);
        groups := groups[..n] + [groups[n] + [f]];
      } else {
        FlattenAppend(groups, [f]);
        GroupedAppend(groups, f);
        groups := groups + [[f]];
      }
    }
    assert ordered[..|ordered|] == ordered;
  }

  lemma NoGroups()
    ensures Flatten<Fragment>([]) == [] && Grouped([])
  {
  }

  lemma GroupedMeans(groups: seq<seq<Fragment>>)
    requires Grouped(groups)
    ensures forall k | 0 <= k < |groups| :: groups[k] != []
  {
    hide OnLine;
  }

  function AddToGroups(groups: seq<seq<Fragment>>, f: Fragment): (r: seq<seq<Fragment>>)
    requires forall k | 0 <= k < |groups| :: groups[k] != []
    ensures forall k | 0 <= k < |r| :: r[k] != []
  {
    var n := |groups| - 1;
    if n >= 0 && OnLine(groups[n], f) then groups[..n] + [groups[n] + [f]] else groups + [[f]]
  }

  function Groups(fragments: seq<Fragment>): (r: seq<seq<Fragment>>)
    ensures forall k | 0 <= k < |r| :: r[k] != []
  {
    if fragments == [] then []
    else AddToGroups(Groups(fragments[..|fragments| - 1]), fragments[|fragments| - 1])
  }

  lemma {:induction false} GroupsOfGrouped(groups: seq<seq<Fragment>>)
    requires Grouped(groups)
    ensures groups == Groups(Flatten(groups))
    decreases |Flatten(groups)|
  {
    hide OnLine, Grouped, Flatten, Shortened;
    EmptyFlatten(groups);
    if groups != [] {
      GroupedMeans(groups);
      ShortenGrouped(groups);
      GroupsOfGrouped(Shortened(groups));
      LastJoined(groups);
    }
  }

  // Two groupings of the same fragments are the same: the rule leaves no choice.
  lemma GroupingIsDetermined(a: seq<seq<Fragment>>, b: seq<seq<Fragment>>)
    requires Grouped(a) && Grouped(b) && Flatten(a) == Flatten(b)
    ensures a == b
  {
    hide *;
    GroupsOfGrouped(a);
    GroupsOfGrouped(b);
  }

  lemma EmptyFlatten(groups: seq<seq<Fragment>>)
    requires Grouped(groups)
    ensures Flatten(groups) == [] <==> groups == []
  {
    hide OnLine;
  }

  // The grouping without its last fragment.
  function Shortened(groups: seq<seq<Fragment>>): seq<seq<Fragment>>
    requires groups != [] && groups[|groups| - 1] != []
  {
    var n := |groups| - 1;
    var last := groups[n];
    groups[..n] + if |last| == 1 then [] else [last[..|last| - 1]]
  }

  lemma ShortenGrouped(groups: seq<seq<Fragment>>)
    requires Grouped(groups) && groups != []
    ensures Grouped(Shortened(groups))
    ensures Flatten(groups) != [] && Flatten(Shortened(groups)) == Flatten(groups)[..|Flatten(groups)| - 1]
  {
    hide OnLine, Flatten, Shortened, Grouped;
    GroupedMeans(groups);
    FlattenShortened(groups);
    ShortenedIsGrouped(groups);
  }

  lemma ShortenedIsGrouped(groups: seq<seq<Fragment>>)
    requires Grouped(groups) && groups != []
    ensures Grouped(Shortened(groups))
  {
    hide OnLine;
    var n := |groups| - 1;
    var last, shorter := groups[n], Shortened(groups);
    if |last| == 1 {
      assert shorter == groups[..n];
    } else {
      forall k, i | 0 <= k < |shorter| && 0 < i < |shorter[k]| ensures OnLine(shorter[k][..i], shorter[k][i]) {
        assert shorter[k][..i] == groups[k][..i] && shorter[k][i] == groups[k][i];
      }
      forall k | 0 < k < |shorter| ensures !OnLine(shorter[k - 1], shorter[k][0]) {
        assert shorter[k - 1] == groups[k - 1] && shorter[k][0] == groups[k][0];
      }
    }
  }

  lemma FlattenShortened(groups: seq<seq<Fragment>>)
    requires groups != [] && groups[|groups| - 1] != []
    ensures Flatten(groups) != [] && Flatten(Shortened(groups)) == Flatten(groups)[..|Flatten(groups)| - 1]
  {
    var n := |groups| - 1;
    var last := groups[n];
    assert Flatten(groups) == Flatten(groups[..n]) + last;
    hide Flatten;
    if |last| == 1 {
      assert Shortened(groups) == groups[..n];
    } else {
      FlattenAppend(groups[..n], last[..|last| - 1]);
    }
  }

  lemma LastOfFlatten(groups: seq<seq<Fragment>>)
    requires groups != [] && groups[|groups| - 1] != []
    ensures Flatten(groups) != []
    ensures var last := groups[|groups| - 1]; Flatten(groups)[|Flatten(groups)| - 1] == last[|last| - 1]
  {
  }

  // The last fragment extends the last group exactly when it stands on that group's line.
  lemma LastJoined(groups: seq<seq<Fragment>>)
    requires Grouped(groups) && groups != []
    ensures var shorter := Shortened(groups); var f := Flatten(groups)[|Flatten(groups)| - 1];
      var n := |shorter| - 1;
      && Flatten(groups) != []
      && (n >= 0 ==> shorter[n] != [])
      && groups == if n >= 0 && OnLine(shorter[n], f) then shorter[..n] + [shorter[n] + [f]] else shorter + [[f]]
  {
    hide OnLine, Flatten, Grouped, Shortened;
    GroupedMeans(groups);
    LastOfFlatten(groups);
    if |groups[|groups| - 1]| == 1 {
      LastBegan(groups);
    } else {
      LastExtended(groups);
    }
  }

  lemma LastBegan(groups: seq<seq<Fragment>>)
    requires Grouped(groups) && groups != [] && |groups[|groups| - 1]| == 1
    ensures var shorter, f := Shortened(groups), groups[|groups| - 1][0]; var n := |shorter| - 1;
      && groups == shorter + [[f]]
      && (n >= 0 ==> shorter[n] != [] && !OnLine(shorter[n], f))
  {
    hide OnLine;
    var m := |groups| - 1;
    assert groups[m] == [groups[m][0]];
    assert Shortened(groups) == groups[..m];
  }

  lemma LastExtended(groups: seq<seq<Fragment>>)
    requires Grouped(groups) && groups != [] && |groups[|groups| - 1]| > 1
    ensures var shorter, last := Shortened(groups), groups[|groups| - 1]; var f, n := last[|last| - 1], |shorter| - 1;
      && n >= 0 && shorter[n] != [] && OnLine(shorter[n], f)
      && groups == shorter[..n] + [shorter[n] + [f]]
  {
    hide OnLine;
    var m := |groups| - 1;
    var last := groups[m];
    assert last[..|last| - 1] + [last[|last| - 1]] == last;
    assert OnLine(groups[m][..|last| - 1], groups[m][|last| - 1]);
  }

  // ---- the text of a line ----

  predicate EndsOpen(s: string)
    requires s != ""
  {
    s[|s| - 1] in " -/("
  }

  predicate StartsClosing(s: string) {
    s != "" && s[0] in " .,;:)]"
  }

  // Fragments of one line, a space between two unless punctuation joins them.
  function JoinedSoFar(group: seq<Fragment>): string {
    if group == [] then ""
    else
      var before, f := JoinedSoFar(group[..|group| - 1]), group[|group| - 1];
      if before == "" then f.text
      else if EndsOpen(before) || StartsClosing(f.text) then before + f.text
      else before + " " + f.text
  }

  // _join_fragments
  method JoinFragments(group: seq<Fragment>) returns (text: string)
    ensures text == Strip(JoinedSoFar(group))
  {
    text := "";
    assert group[..0] == [];
    for i := 0 to |group|
      invariant text == JoinedSoFar(group[..i])
    {
      assert group[..i + 1][..i] == group[..i];
      var f := group[i];
      if text == "" {
        text := f.text;
      } else if EndsOpen(text) || StartsClosing(f.text) {
        text := text + f.text;
      } else {
        text := text + " " + f.text;
      }
    }
    assert group[..|group|] == group;
    text := Strip(text);
  }

  function VisibleAll(group: seq<Fragment>): string {
    if group == [] then "" else VisibleAll(group[..|group| - 1]) + Visible(group[|group| - 1].text)
  }

  lemma {:induction false} VisibleOfJoined(group: seq<Fragment>)
    ensures Visible(JoinedSoFar(group)) == VisibleAll(group)
  {
    hide Visible, EndsOpen, StartsClosing;
    NothingVisible();
    if group != [] {
      var before, f := JoinedSoFar(group[..|group| - 1]), group[|group| - 1];
      VisibleOfJoined(group[..|group| - 1]);
      VisibleConcat(before, f.text);
      VisibleConcat(before, " " + f.text);
      VisibleConcat(" ", f.text);
      assert before + " " + f.text == before + (" " + f.text);
    }
  }

  lemma NothingVisible()
    ensures Visible("") == "" && Visible(" ") == ""
  {
  }

  // A line's text shows the visible characters of its fragments, all of them and in order.
  lemma JoinedKeepsVisible(group: seq<Fragment>)
    ensures Visible(Strip(JoinedSoFar(group))) == VisibleAll(group)
  {
    hide Visible, JoinedSoFar, IsSpace;
    var text := JoinedSoFar(group);
    VisibleOfJoined(group);
    VisibleOfTrimRight(text, IsSpace);
    VisibleOfTrimLeft(TrimRight(text, IsSpace), IsSpace);
  }

  lemma JoinedShows(group: seq<Fragment>)
    requires group != [] && forall f | f in group :: Squeezed(f)
    ensures Strip(JoinedSoFar(group)) != ""
  {
    hide Visible, JoinedSoFar, Squeezed, Strip, IsSpace;
    JoinedKeepsVisible(group);
    var f := group[|group| - 1];
    SqueezedShows(f);
    NothingVisible();
    assert VisibleAll(group) != "";
  }

  lemma SqueezedShows(f: Fragment)
    requires Squeezed(f)
    ensures Visible(f.text) != ""
  {
    hide Visible, IsSpace;
    VisibleOfBlank(f.text);
    StripFindsBlank(f.text);
  }

  // The line a group makes: its fragments from left to right.
  function LineOf(group: seq<Fragment>): Line
    requires group != []
  {
    Line(Strip(JoinedSoFar(Sort(group, LeftOf))), LeftEdge(group), Baseline(group), LargestSize(group))
  }

  function LinesOf(groups: seq<seq<Fragment>>): seq<Line>
    requires forall k | 0 <= k < |groups| :: groups[k] != []
  {
    seq(|groups|, k requires 0 <= k < |groups| => LineOf(groups[k]))
  }

  // The fragments in reading order, cut into groups.
  ghost predicate CutInto(groups: seq<seq<Fragment>>, fragments: seq<Fragment>) {
    Flatten(groups) == Ordered(fragments) && Grouped(groups) && forall k | 0 <= k < |groups| :: groups[k] != []
  }

  ghost predicate AreLinesOf(lines: seq<Line>, fragments: seq<Fragment>) {
    exists groups :: CutInto(groups, fragments) && lines == LinesOf(groups)
  }

  lemma GroupShows(group: seq<Fragment>)
    requires group != [] && forall f | f in group :: Squeezed(f)
    ensures LineOf(group).text != ""
    ensures multiset(Sort(group, LeftOf)) == multiset(group)
    ensures Visible(LineOf(group).text) == VisibleAll(Sort(group, LeftOf))
  {
    hide Visible, JoinedSoFar, Squeezed, Strip, LeftOf, Sort;
    var sorted := Sort(group, LeftOf);
    SortPermutes(group, LeftOf);
    assert |multiset(sorted)| == |multiset(group)|;
    forall f | f in sorted ensures Squeezed(f) {
      assert f in multiset(group);
    }
    JoinedShows(sorted);
    JoinedKeepsVisible(sorted);
  }

  lemma {:induction false} FlattenHolds(groups: seq<seq<Fragment>>, k: nat)
    requires k < |groups|
    ensures forall f | f in groups[k] :: f in Flatten(groups)
  {
    var n := |groups| - 1;
    if k < n {
      FlattenHolds(groups[..n], k);
    }
  }

  // _lines_from_fragments: the fragments, in reading order, are cut into groups, and every group is one line.
  method LinesFromFragments(fragments: seq<Fragment>) returns (lines: seq<Line>)
    requires forall f | f in fragments :: Squeezed(f)
    ensures AreLinesOf(lines, fragments)
  {
    hide *;
    var cut := GroupFragments(Ordered(fragments));
    GroupedMeans(cut);
    OrderedIsSqueezed(fragments);
    lines := [];
    for k := 0 to |cut|
      invariant |lines| == k
      invariant forall j | 0 <= j < k :: lines[j] == LineOf(cut[j])
    {
      var group := Sort(cut[k], LeftOf);
      var text := JoinFragments(group);
      LineMade(cut[k]);
      FlattenHolds(cut, k);
      GroupShows(cut[k]);
      if text != "" {
        lines := lines + [Line(text, LeftEdge(cut[k]), Baseline(cut[k]), LargestSize(cut[k]))];
      }
    }
    LinesMade(cut, lines, fragments);
  }

  lemma LineMade(group: seq<Fragment>)
    requires group != []
    ensures LineOf(group)
      == Line(Strip(JoinedSoFar(Sort(group, LeftOf))), LeftEdge(group), Baseline(group), LargestSize(group))
  {
  }

  lemma LinesMade(groups: seq<seq<Fragment>>, lines: seq<Line>, fragments: seq<Fragment>)
    requires Flatten(groups) == Ordered(fragments) && Grouped(groups) && forall k | 0 <= k < |groups| :: groups[k] != []
    requires |lines| == |groups| && forall k | 0 <= k < |groups| :: lines[k] == LineOf(groups[k])
    ensures AreLinesOf(lines, fragments)
  {
    hide LineOf, Flatten, Ordered, Grouped;
    assert CutInto(groups, fragments) && lines == LinesOf(groups);
  }

  lemma OrderedIsSqueezed(fragments: seq<Fragment>)
    requires forall f | f in fragments :: Squeezed(f)
    ensures forall f | f in Ordered(fragments) :: Squeezed(f)
  {
    hide Squeezed, ReadsBefore, Sort;
    SortPermutes(fragments, ReadsBefore);
    forall f | f in Ordered(fragments) ensures Squeezed(f) {
      assert f in multiset(Ordered(fragments));
    }
  }

  // Every fragment is in exactly one line, once; a line shows exactly its fragments' characters; lines are in
  // reading order of what they hold.
  lemma FragmentsArePartitioned(fragments: seq<Fragment>, groups: seq<seq<Fragment>>, k: nat)
    requires forall f | f in fragments :: Squeezed(f)
    requires CutInto(groups, fragments) && k < |groups|
    ensures multiset(Flatten(groups)) == multiset(fragments) && Sorted(Flatten(groups), ReadsBefore)
    ensures var held := Sort(groups[k], LeftOf);
      && multiset(held) == multiset(groups[k]) && Sorted(held, LeftOf)
      && LinesOf(groups)[k].text != "" && Visible(LinesOf(groups)[k].text) == VisibleAll(held)
  {
    hide Squeezed, ReadsBefore, LeftOf, Sort, LineOf, Visible, VisibleAll, Grouped;
    ReadingOrders();
    SortPermutes(fragments, ReadsBefore);
    SortSorts(fragments, ReadsBefore);
    SortSorts(groups[k], LeftOf);
    OrderedIsSqueezed(fragments);
    FlattenHolds(groups, k);
    GroupShows(groups[k]);
  }

  // ---- the order of extraction ----

  // Fragments the reading order ties: they can differ in size only.
  predicate SamePlace(a: Fragment, b: Fragment) {
    a.y == b.y && a.x == b.x && a.text == b.text
  }

  lemma TiedInPlace(a: Fragment, b: Fragment)
    ensures Tied(a, b, ReadsBefore) ==> SamePlace(a, b)
    ensures Tied(a, b, LeftOf) ==> a.x == b.x && a.text == b.text
  {
    StringLeTotal(a.text, b.text);
  }

  // The same fragments, at each place two that tie.
  predicate Alike(a: seq<Fragment>, b: seq<Fragment>) {
    multiset(a) == multiset(b) && |a| == |b| > 0 && forall k | 0 <= k < |a| :: SamePlace(a[k], b[k])
  }

  ghost predicate AlikeGroups(a: seq<seq<Fragment>>, b: seq<seq<Fragment>>) {
    |a| == |b| && forall k | 0 <= k < |a| :: Alike(a[k], b[k])
  }

  lemma {:induction false} SameSums(a: seq<Fragment>, b: seq<Fragment>)
    requires |a| == |b| > 0 && forall k | 0 <= k < |a| :: SamePlace(a[k], b[k])
    ensures SumY(a) == SumY(b) && LeftEdge(a) == LeftEdge(b)
  {
    if |a| > 1 {
      SameSums(a[..|a| - 1], b[..|b| - 1]);
    } else {
      assert a[..0] == b[..0];
    }
  }

  lemma {:induction false} LargestIsLargest(group: seq<Fragment>)
    requires group != []
    ensures forall f | f in group :: f.size <= LargestSize(group)
    ensures exists f :: f in group && f.size == LargestSize(group)
  {
    var n := |group| - 1;
    assert group == group[..n] + [group[n]];
    if n > 0 {
      LargestIsLargest(group[..n]);
      var f :| f in group[..n] && f.size == LargestSize(group[..n]);
      assert f in group && group[n] in group;
    } else {
      assert group[0] in group;
    }
  }

  lemma SameLargest(a: seq<Fragment>, b: seq<Fragment>)
    requires a != [] && b != [] && multiset(a) == multiset(b)
    ensures LargestSize(a) == LargestSize(b)
  {
    hide LargestSize;
    LargestIsLargest(a);
    LargestIsLargest(b);
    var f :| f in a && f.size == LargestSize(a);
    var g :| g in b && g.size == LargestSize(b);
    assert f in multiset(b) && g in multiset(a);
  }

  lemma AlikeMeasures(a: seq<Fragment>, b: seq<Fragment>)
    requires Alike(a, b)
    ensures a != [] && b != [] && LeftEdge(a) == LeftEdge(b)
    ensures Baseline(a) == Baseline(b) && LargestSize(a) == LargestSize(b)
  {
    hide LargestSize, SumY, LeftEdge;
    SameSums(a, b);
    SameLargest(a, b);
  }

  lemma AlikeExtended(a: seq<Fragment>, b: seq<Fragment>, f: Fragment)
    requires Alike(a, b)
    ensures a != [] && b != [] && (OnLine(a, f) <==> OnLine(b, f)) && Alike(a + [f], b + [f])
  {
    AlikeMeasures(a, b);
  }

  lemma AlikeAdded(a: seq<seq<Fragment>>, b: seq<seq<Fragment>>, f: Fragment)
    requires (forall k | 0 <= k < |a| :: a[k] != []) && (forall k | 0 <= k < |b| :: b[k] != [])
    requires AlikeGroups(a, b)
    ensures AlikeGroups(AddToGroups(a, f), AddToGroups(b, f))
  {
    hide OnLine, Alike;
    assert Alike([f], [f]) by { AlikeItself(f); }
    if a != [] {
      AlikeExtended(a[|a| - 1], b[|b| - 1], f);
    }
  }

  lemma AlikeItself(f: Fragment)
    ensures Alike([f], [f])
  {
  }

  lemma AlikeTransitive(a: seq<seq<Fragment>>, b: seq<seq<Fragment>>, c: seq<seq<Fragment>>)
    requires AlikeGroups(a, b) && AlikeGroups(b, c)
    ensures AlikeGroups(a, c)
  {
    forall k | 0 <= k < |a| ensures Alike(a[k], c[k]) {
      assert Alike(a[k], b[k]) && Alike(b[k], c[k]);
    }
  }

  // A fragment on a line draws the baseline towards it.
  lemma BaselineMoves(sum: real, n: real, y: real, tolerance: real)
    requires n >= 1.0 && Distance(y, sum / n) <= tolerance
    ensures Distance(y, (sum + y) / (n + 1.0)) <= tolerance
  {
    var old', new' := sum / n, (sum + y) / (n + 1.0);
    assert old' * n == sum && new' * (n + 1.0) == sum + y;
    Shrinks(y - old', y - new', n);
  }

  lemma Shrinks(d: real, e: real, n: real)
    requires n >= 1.0 && e * (n + 1.0) == d * n
    ensures if d >= 0.0 then 0.0 <= e <= d else d <= e <= 0.0
  {
    assert e * (n + 1.0) == e * n + e;
    assert (e - d) * n == -e;
    if d >= 0.0 {
      assert d * n >= 0.0;
      assert e >= 0.0;
    } else {
      assert d * n <= 0.0;
      assert e <= 0.0;
    }
  }

  // So a fragment in the same place stands on the line too.
  lemma TieStaysOnLine(group: seq<Fragment>, a: Fragment, b: Fragment)
    requires a.y == b.y && (group != [] ==> OnLine(group, a))
    ensures OnLine(group + [a], b)
  {
    var longer := group + [a];
    assert longer[..|group|] == group;
    if group == [] {
      assert longer == [a] && SumY(longer[..0]) == 0.0;
    } else {
      hide SumY, LargestSize;
      LastMeasured(group, a);
      BaselineMoves(SumY(group), |group| as real, a.y, Larger(1.5, LargestSize(group) * 0.35));
    }
  }

  lemma LastMeasured(group: seq<Fragment>, a: Fragment)
    requires group != []
    ensures SumY(group + [a]) == SumY(group) + a.y && LargestSize(group + [a]) >= LargestSize(group)
  {
    assert (group + [a])[..|group|] == group;
  }

  lemma AlikeSwapped(kept: seq<seq<Fragment>>, group: seq<Fragment>, a: Fragment, b: Fragment)
    requires AlikeGroups(kept, kept) && SamePlace(a, b)
    ensures AlikeGroups(kept + [group + [a] + [b]], kept + [group + [b] + [a]])
  {
    hide Alike;
    AlikeEitherWay(group, a, b);
  }

  lemma AlikeEitherWay(group: seq<Fragment>, a: Fragment, b: Fragment)
    requires SamePlace(a, b)
    ensures Alike(group + [a] + [b], group + [b] + [a])
  {
  }

  lemma AddedToLast(kept: seq<seq<Fragment>>, group: seq<Fragment>, f: Fragment)
    requires (forall k | 0 <= k < |kept| :: kept[k] != []) && group != [] && OnLine(group, f)
    ensures AddToGroups(kept + [group], f) == kept + [group + [f]]
  {
    hide OnLine;
  }

  lemma LastGroup(groups: seq<seq<Fragment>>, f: Fragment) returns (kept: seq<seq<Fragment>>, group: seq<Fragment>)
    requires forall k | 0 <= k < |groups| :: groups[k] != []
    ensures AddToGroups(groups, f) == kept + [group + [f]] && kept <= groups
    ensures group != [] ==> OnLine(group, f)
    ensures forall g: Fragment | g.y == f.y :: AddToGroups(groups, g) == kept + [group + [g]]
  {
    hide LargestSize, Baseline;
    var n := |groups| - 1;
    if n >= 0 && OnLine(groups[n], f) {
      return groups[..n], groups[n];
    }
    assert forall g: Fragment :: [] + [g] == [g];
    return groups, [];
  }

  // Two fragments in the same place always come to share a group, whichever comes first.
  lemma TiesSwap(groups: seq<seq<Fragment>>, a: Fragment, b: Fragment)
    requires (forall k | 0 <= k < |groups| :: groups[k] != []) && SamePlace(a, b)
    requires AlikeGroups(groups, groups)
    ensures AlikeGroups(AddToGroups(AddToGroups(groups, a), b), AddToGroups(AddToGroups(groups, b), a))
  {
    hide OnLine, Alike, AddToGroups;
    var kept, group := LastGroup(groups, a);
    TieStaysOnLine(group, a, b);
    AddedToLast(kept, group + [a], b);
    assert group != [] ==> OnLine(group, b) by { OnLineByHeight(group, a, b); }
    TieStaysOnLine(group, b, a);
    AddedToLast(kept, group + [b], a);
    AlikeSwapped(kept, group, a, b);
  }

  lemma OnLineByHeight(group: seq<Fragment>, a: Fragment, b: Fragment)
    requires a.y == b.y
    ensures group != [] ==> (OnLine(group, a) <==> OnLine(group, b))
  {
  }

  lemma GroupsAlikeThemselves(groups: seq<seq<Fragment>>)
    requires forall k | 0 <= k < |groups| :: groups[k] != []
    ensures AlikeGroups(groups, groups)
  {
  }

  lemma GroupsNext(fragments: seq<Fragment>, f: Fragment)
    ensures Groups(fragments + [f]) == AddToGroups(Groups(fragments), f)
  {
    assert (fragments + [f])[..|fragments|] == fragments;
  }

  // Groups of a[..n] and then x, against groups with a[i] in the place of x and x in its own.
  lemma SwappedGroupAlike(rest: seq<Fragment>, before: seq<Fragment>, after: seq<Fragment>, x: Fragment, y: Fragment)
    requires SamePlace(x, y)
    requires AlikeGroups(Groups(before), Groups(rest + [y])) && AlikeGroups(Groups(rest + [x]), Groups(after))
    ensures AlikeGroups(Groups(before + [x]), Groups(after + [y]))
  {
    hide *;
    AlikeAdded(Groups(before), Groups(rest + [y]), x);
    AlikeAdded(Groups(rest + [x]), Groups(after), y);
    GroupsNext(before, x);
    GroupsNext(after, y);
    GroupsNext(rest, x);
    GroupsNext(rest, y);
    GroupsAlikeThemselves(Groups(rest));
    assert SamePlace(y, x) by { PlaceSymmetric(x, y); }
    TiesSwap(Groups(rest), y, x);
    var swapped := AddToGroups(AddToGroups(Groups(rest), x), y);
    AlikeTransitive(Groups(before + [x]), AddToGroups(AddToGroups(Groups(rest), y), x), swapped);
    AlikeTransitive(Groups(before + [x]), swapped, Groups(after + [y]));
  }

  lemma PlaceSymmetric(a: Fragment, b: Fragment)
    requires SamePlace(a, b)
    ensures SamePlace(b, a)
  {
  }

  // Two arrangements of the same fragments in reading order form the same groups, up to ties.
  lemma {:induction false} ArrangementsGroupAlike(a: seq<Fragment>, b: seq<Fragment>)
    requires Sorted(a, ReadsBefore) && Sorted(b, ReadsBefore) && multiset(a) == multiset(b)
    ensures AlikeGroups(Groups(a), Groups(b))
    decreases |a|
  {
    hide *;
    ReadingOrders();
    SameSize(a, b);
    if a == [] {
      GroupsAlikeThemselves(Groups(a));
    } else {
      var n := |a| - 1;
      LastOff(a, ReadsBefore);
      LastOff(b, ReadsBefore);
      if a[n] == b[n] {
        ArrangementsGroupAlike(a[..n], b[..n]);
        AlikeAdded(Groups(a[..n]), Groups(b[..n]), a[n]);
        GroupsNext(a[..n], a[n]);
        GroupsNext(b[..n], a[n]);
      } else {
        var rest := SharedRest(a, b, ReadsBefore);
        ArrangementsGroupAlike(a[..n], rest + [b[n]]);
        ArrangementsGroupAlike(rest + [a[n]], b[..n]);
        TiedInPlace(a[n], b[n]);
        SwappedGroupAlike(rest, a[..n], b[..n], a[n], b[n]);
      }
    }
  }

  lemma LinesAlike(a: seq<Fragment>, b: seq<Fragment>)
    requires Alike(a, b)
    ensures a != [] && b != [] && LineOf(a) == LineOf(b)
  {
    hide ReadsBefore, LeftOf, Sort, Sorted, Tied, Baseline, LargestSize, LeftEdge, JoinedSoFar, Strip;
    AlikeMeasures(a, b);
    ReadingOrders();
    SortPermutes(a, LeftOf);
    SortPermutes(b, LeftOf);
    SortSorts(a, LeftOf);
    SortSorts(b, LeftOf);
    var sortedA, sortedB := Sort(a, LeftOf), Sort(b, LeftOf);
    SortedAgree(sortedA, sortedB, LeftOf);
    forall k | 0 <= k < |sortedA| ensures sortedA[k].text == sortedB[k].text {
      TiedInPlace(sortedA[k], sortedB[k]);
    }
    SameTexts(sortedA, sortedB);
  }

  lemma {:induction false} SameTexts(a: seq<Fragment>, b: seq<Fragment>)
    requires |a| == |b| && forall k | 0 <= k < |a| :: a[k].text == b[k].text
    ensures JoinedSoFar(a) == JoinedSoFar(b)
  {
    if a != [] {
      SameTexts(a[..|a| - 1], b[..|b| - 1]);
    }
  }

  // The order the fragments are extracted in does not matter, not even between fragments that tie.
  lemma ExtractionOrderIsIrrelevant(a: seq<Fragment>, b: seq<Fragment>, linesA: seq<Line>, linesB: seq<Line>)
    requires multiset(a) == multiset(b)
    requires AreLinesOf(linesA, a) && AreLinesOf(linesB, b)
    ensures linesA == linesB
  {
    hide ReadsBefore, Sort, Grouped, Flatten, Sorted, LineOf, Groups, Alike;
    var groupsA :| CutInto(groupsA, a) && linesA == LinesOf(groupsA);
    var groupsB :| CutInto(groupsB, b) && linesB == LinesOf(groupsB);
    ReadingOrders();
    SortPermutes(a, ReadsBefore);
    SortPermutes(b, ReadsBefore);
    SortSorts(a, ReadsBefore);
    SortSorts(b, ReadsBefore);
    GroupsOfGrouped(groupsA);
    GroupsOfGrouped(groupsB);
    ArrangementsGroupAlike(Ordered(a), Ordered(b));
    forall k | 0 <= k < |groupsA| ensures LineOf(groupsA[k]) == LineOf(groupsB[k]) {
      LinesAlike(groupsA[k], groupsB[k]);
    }
  }
}

module PdfBlocks {
  import opened Wrappers
  import opened Text
  import opened Sorting
  import opened Sequences
  import opened Sums
  import opened PdfLines

  // ---- the body size ----

  type Weighted = (real, nat)

  // Sizes with their character counts, an empty line counting one.
  function Pairs(lines: seq<Line>): seq<Weighted> {
    seq(|lines|, k requires 0 <= k < |lines| => (lines[k].size, if |lines[k].text| > 1 then |lines[k].text| else 1))
  }

  predicate PairLe(a: Weighted, b: Weighted) {
    if a.0 != b.0 then a.0 < b.0 else a.1 <= b.1
  }

  function All(): Weighted -> nat {
    (p: Weighted) => p.1
  }

  function Below(size: real): Weighted -> nat {
    (p: Weighted) => if p.0 < size then p.1 else 0
  }

  function UpTo(size: real): Weighted -> nat {
    (p: Weighted) => if p.0 <= size then p.1 else 0
  }

  // Less than half of the characters are set smaller, at least half no larger.
  ghost predicate WeightedMedian(ws: seq<Weighted>, size: real) {
    && (exists p | p in ws :: p.0 == size)
    && 2 * Sum(ws, Below(size)) < Sum(ws, All()) <= 2 * Sum(ws, UpTo(size))
  }

  lemma {:induction false} SumGrows(ws: seq<Weighted>, f: Weighted -> nat, g: Weighted -> nat)
    requires forall p | p in ws :: f(p) <= g(p)
    ensures Sum(ws, f) <= Sum(ws, g)
  {
    if ws != [] {
      SumGrows(ws[..|ws| - 1], f, g);
    }
  }

  // There is one body size at most.
  lemma MedianIsUnique(ws: seq<Weighted>, size: real, size': real)
    requires WeightedMedian(ws, size) && WeightedMedian(ws, size')
    ensures size == size'
  {
    if size < size' {
      SumGrows(ws, UpTo(size), Below(size'));
    } else if size' < size {
      SumGrows(ws, UpTo(size'), Below(size));
    }
  }

  lemma {:induction false} SumIsZero(ws: seq<Weighted>, f: Weighted -> nat)
    requires forall p | p in ws :: f(p) == 0
    ensures Sum(ws, f) == 0
  {
    if ws != [] {
      SumIsZero(ws[..|ws| - 1], f);
    }
  }

  lemma SortedBelow(ws: seq<Weighted>, i: nat)
    requires i < |ws| && Sorted(ws, PairLe)
    ensures Sum(ws, Below(ws[i].0)) <= Sum(ws[..i], All())
    ensures Sum(ws[..i + 1], All()) <= Sum(ws, UpTo(ws[i].0))
  {
    hide Sum;
    var size := ws[i].0;
    forall p | p in ws[i..] ensures Below(size)(p) == 0 {
      var j :| i <= j < |ws| && ws[j] == p;
      assert j > i ==> PairLe(ws[i], ws[j]);
    }
    SumIsZero(ws[i..], Below(size));
    SumConcat(ws[..i], ws[i..], Below(size));
    assert ws[..i] + ws[i..] == ws;
    SumGrows(ws[..i], Below(size), All());
    forall p | p in ws[..i + 1] ensures All()(p) <= UpTo(size)(p) {
      var j :| 0 <= j <= i && ws[j] == p;
      assert j < i ==> PairLe(ws[j], ws[i]);
    }
    SumGrows(ws[..i + 1], All(), UpTo(size));
    SumConcat(ws[..i + 1], ws[i + 1..], UpTo(size));
    assert ws[..i + 1] + ws[i + 1..] == ws;
  }

  lemma MedianOfSorted(pairs: seq<Weighted>, ws: seq<Weighted>, i: nat)
    requires multiset(pairs) == multiset(ws) && Sorted(ws, PairLe) && i < |ws|
    requires 2 * Sum(ws[..i], All()) < Sum(ws, All()) <= 2 * Sum(ws[..i + 1], All())
    ensures WeightedMedian(pairs, ws[i].0)
  {
    hide Sum, All, Below, UpTo, PairLe;
    var size := ws[i].0;
    SortedBelow(ws, i);
    SumPermutes(pairs, ws, Below(size));
    SumPermutes(pairs, ws, UpTo(size));
    SumPermutes(pairs, ws, All());
    assert ws[i] in multiset(pairs);
    assert ws[i] in pairs;
  }

  lemma PairLeOrders()
    ensures TotalPreorder(PairLe)
  {
  }

  lemma {:induction false} PairsAreHeavy(ws: seq<Weighted>)
    requires forall p | p in ws :: p.1 >= 1
    ensures Sum(ws, All()) >= |ws|
  {
    if ws != [] {
      PairsAreHeavy(ws[..|ws| - 1]);
    }
  }

  // _body_font_size. The value the source returns after its loop is never reached with lines to weigh.
  method BodyFontSize(lines: seq<Line>) returns (size: real)
    ensures lines == [] ==> size == 0.0
    ensures lines != [] ==> WeightedMedian(Pairs(lines), size)
  {
    hide Sum, All, Sort, PairLe, WeightedMedian;
    var weighted := Sort(Pairs(lines), PairLe);
    SortPermutes(Pairs(lines), PairLe);
    PairLeOrders();
    SortSorts(Pairs(lines), PairLe);
    WeighedIsHeavy(lines, weighted);
    var total := Sum(weighted, All());
    var seen := 0;
    NothingSeen();
    assert weighted[..0] == [];
    for i := 0 to |weighted|
      invariant seen == Sum(weighted[..i], All())
      invariant i > 0 ==> 2 * seen < total
    {
      SumNext(weighted, i, All());
      AllIsWeight(weighted[i]);
      seen := seen + weighted[i].1;
      if 2 * seen >= total {
        MedianOfSorted(Pairs(lines), weighted, i);
        return weighted[i].0;
      }
    }
    assert weighted[..|weighted|] == weighted;
    return 0.0;
  }

  lemma NothingSeen()
    ensures Sum([], All()) == 0
  {
  }

  lemma AllIsWeight(p: Weighted)
    ensures All()(p) == p.1
  {
  }

  lemma WeighedIsHeavy(lines: seq<Line>, weighted: seq<Weighted>)
    requires multiset(weighted) == multiset(Pairs(lines))
    ensures |weighted| == |lines| && (lines != [] ==> Sum(weighted, All()) > 0)
  {
    hide Sum, All;
    assert |multiset(weighted)| == |multiset(Pairs(lines))|;
    forall p | p in weighted ensures p.1 >= 1 {
      assert p in multiset(Pairs(lines));
    }
    PairsAreHeavy(weighted);
  }

  // ---- heading sizes and levels ----

  // Sizes rounded to two places, binary floating point included.
  ghost predicate Rounding(round2: real -> real) {
    forall a: real, b: real | a <= b :: round2(a) <= round2(b)
  }

  predicate Stands(l: Line, body: real) {
    l.size >= body * 1.18 && |l.text| <= 200
  }

  // The distinct rounded sizes of the lines that stand out.
  function StandingSizes(lines: seq<Line>, body: real, round2: real -> real): seq<real> {
    if lines == [] then []
    else
      var before, l := StandingSizes(lines[..|lines| - 1], body, round2), lines[|lines| - 1];
      if Stands(l, body) && round2(l.size) !in before then before + [round2(l.size)] else before
  }

  predicate Descends(a: real, b: real) {
    a >= b
  }

  // _heading_sizes: the six largest, largest first.
  function HeadingSizes(lines: seq<Line>, body: real, round2: real -> real): seq<real> {
    if body <= 0.0 then []
    else
      var sizes := Sort(StandingSizes(lines, body, round2), Descends);
      if |sizes| > 6 then sizes[..6] else sizes
  }

  ghost predicate Falling(sizes: seq<real>) {
    forall i, j | 0 <= i < j < |sizes| :: sizes[i] > sizes[j]
  }

  ghost predicate Distinct(sizes: seq<real>) {
    forall i, j | 0 <= i < j < |sizes| :: sizes[i] != sizes[j]
  }

  // Some line that stands out has the rounded size.
  ghost predicate StandsAt(lines: seq<Line>, body: real, round2: real -> real, size: real) {
    exists l | l in lines :: Stands(l, body) && round2(l.size) == size
  }

  lemma {:induction false} StandingSizesDiffer(lines: seq<Line>, body: real, round2: real -> real)
    ensures Distinct(StandingSizes(lines, body, round2))
  {
    hide Stands;
    if lines != [] {
      StandingSizesDiffer(lines[..|lines| - 1], body, round2);
    }
  }

  lemma {:induction false} StandingSizesAre(lines: seq<Line>, body: real, round2: real -> real, s: real)
    ensures s in StandingSizes(lines, body, round2) <==> StandsAt(lines, body, round2, s)
  {
    hide Stands;
    if lines != [] {
      var n := |lines| - 1;
      StandingSizesAre(lines[..n], body, round2, s);
      assert lines == lines[..n] + [lines[n]];
      assert StandsAt(lines, body, round2, s)
        <==> StandsAt(lines[..n], body, round2, s) || (Stands(lines[n], body) && round2(lines[n].size) == s);
    }
  }

  lemma DescendsOrders()
    ensures TotalPreorder(Descends)
  {
  }

  lemma SortedSizesFall(sizes: seq<real>)
    requires Distinct(sizes)
    ensures var sorted := Sort(sizes, Descends);
      Falling(sorted) && |sorted| == |sizes| && forall s :: s in sorted <==> s in sizes
  {
    hide Sort;
    var sorted := Sort(sizes, Descends);
    DescendsOrders();
    SortSorts(sizes, Descends);
    SortPermutes(sizes, Descends);
    assert |multiset(sorted)| == |multiset(sizes)|;
    forall s ensures s in sorted <==> s in sizes {
      assert s in multiset(sorted) <==> s in multiset(sizes);
    }
    forall i, j | 0 <= i < j < |sorted| ensures sorted[i] > sorted[j] {
      if sorted[i] == sorted[j] {
        DistinctMultiplicity(sizes, sorted[i]);
        TwoPlaces(sorted, i, j);
      }
    }
  }

  // The heading sizes fall strictly, each is the size of a line that stands out, and a size left out is smaller
  // than all six.
  lemma HeadingSizesAreLargest(lines: seq<Line>, body: real, round2: real -> real)
    ensures var sizes := HeadingSizes(lines, body, round2);
      && |sizes| <= 6 && Falling(sizes)
      && (forall s | s in sizes :: StandsAt(lines, body, round2, s))
      && (body > 0.0 ==> forall s | StandsAt(lines, body, round2, s) && s !in sizes ::
        |sizes| == 6 && forall t | t in sizes :: t > s)
  {
    hide Stands, StandingSizes, Sort, StandsAt, Distinct;
    if body > 0.0 {
      var standing := StandingSizes(lines, body, round2);
      StandingSizesDiffer(lines, body, round2);
      SortedSizesFall(standing);
      var sorted, sizes := Sort(standing, Descends), HeadingSizes(lines, body, round2);
      forall s | s in sizes ensures StandsAt(lines, body, round2, s) {
        assert s in sorted;
        StandingSizesAre(lines, body, round2, s);
      }
      forall s | StandsAt(lines, body, round2, s) && s !in sizes
        ensures |sizes| == 6 && forall t | t in sizes :: t > s
      {
        StandingSizesAre(lines, body, round2, s);
        assert s in sorted;
        LeftOutIsSmaller(sorted, sizes, s);
      }
    }
  }

  lemma LeftOutIsSmaller(sorted: seq<real>, sizes: seq<real>, s: real)
    requires Falling(sorted) && s in sorted && s !in sizes && sizes == if |sorted| > 6 then sorted[..6] else sorted
    ensures |sizes| == 6 && forall t | t in sizes :: t > s
  {
    var j :| 0 <= j < |sorted| && sorted[j] == s;
    forall m | 0 <= m < |sizes| ensures sorted[m] in sizes {
      assert sizes[m] == sorted[m];
    }
    forall t | t in sizes ensures t > s {
      var i :| 0 <= i < 6 && sizes[i] == t;
      assert sorted[i] == t;
    }
  }

  function IndexOf(sizes: seq<real>, size: real, from: nat): (i: Option<nat>)
    requires from <= |sizes|
    ensures i.Some? ==> from <= i.value < |sizes| && sizes[i.value] == size
    ensures i.None? ==> size !in sizes[from..]
    decreases |sizes| - from
  {
    if from == |sizes| then None else if sizes[from] == size then Some(from) else IndexOf(sizes, size, from + 1)
  }

  // _heading_level
  function HeadingLevel(size: real, sizes: seq<real>, round2: real -> real): Option<nat> {
    match IndexOf(sizes, round2(size), 0)
    case None => None
    case Some(i) => Some(i + 1)
  }

  // Larger type never gets a deeper level.
  lemma LargerTypeIsNeverDeeper(a: real, b: real, sizes: seq<real>, round2: real -> real)
    requires Rounding(round2) && Falling(sizes) && a >= b
    requires HeadingLevel(a, sizes, round2).Some? && HeadingLevel(b, sizes, round2).Some?
    ensures HeadingLevel(a, sizes, round2).value <= HeadingLevel(b, sizes, round2).value
  {
    var i, j := IndexOf(sizes, round2(a), 0).value, IndexOf(sizes, round2(b), 0).value;
    assert round2(a) >= round2(b);
    LargerStandsFirst(sizes, i, j);
  }

  lemma LargerStandsFirst(sizes: seq<real>, i: nat, j: nat)
    requires Falling(sizes) && i < |sizes| && j < |sizes| && sizes[i] >= sizes[j]
    ensures i <= j
  {
  }

  // ---- logical blocks ----

  predicate IsHeadingLine(l: Line, sizes: seq<real>, round2: real -> real) {
    round2(l.size) in sizes
  }

  // Whether a body line continues the paragraph of the line before it.
  predicate Continues(previous: Line, l: Line) {
    && previous.y - l.y <= Larger(previous.size, l.size) * 1.8
    && Distance(previous.x, l.x) <= Larger(24.0, l.size * 2.5)
  }

  predicate Together(previous: Line, l: Line, sizes: seq<real>, round2: real -> real) {
    !IsHeadingLine(previous, sizes, round2) && !IsHeadingLine(l, sizes, round2) && Continues(previous, l)
  }

  // Neighbouring lines share a part exactly when they belong together.
  ghost predicate Parted(parts: seq<seq<Line>>, sizes: seq<real>, round2: real -> real) {
    && (forall k | 0 <= k < |parts| :: parts[k] != [])
    && (forall k, i | 0 <= k < |parts| && 0 < i < |parts[k]| :: Together(parts[k][i - 1], parts[k][i], sizes, round2))
    && (forall k | 0 < k < |parts| ::
      !Together(parts[k - 1][|parts[k - 1]| - 1], parts[k][0], sizes, round2))
  }

  function LargestLine(part: seq<Line>): real
    requires part != []
  {
    if |part| == 1 then part[0].size else Larger(LargestLine(part[..|part| - 1]), part[|part| - 1].size)
  }

  datatype PdfBlock = PdfBlock(text: string, size: real)

  function LineTexts(part: seq<Line>): seq<string> {
    seq(|part|, k requires 0 <= k < |part| => part[k].text)
  }

  function BlockOf(part: seq<Line>): PdfBlock
    requires part != []
  {
    PdfBlock(Join(LineTexts(part), "\n"), LargestLine(part))
  }

  function BlocksOf(parts: seq<seq<Line>>): seq<PdfBlock>
    requires forall k | 0 <= k < |parts| :: parts[k] != []
  {
    seq(|parts|, k requires 0 <= k < |parts| => BlockOf(parts[k]))
  }

  lemma PartedAppend(parts: seq<seq<Line>>, l: Line, sizes: seq<real>, round2: real -> real)
    requires Parted(parts, sizes, round2)
    requires parts != [] ==>
      var last := parts[|parts| - 1]; last != [] && !Together(last[|last| - 1], l, sizes, round2)
    ensures Parted(parts + [[l]], sizes, round2)
  {
    hide Together;
    var longer := parts + [[l]];
    forall k, i | 0 <= k < |longer| && 0 < i < |longer[k]|
      ensures Together(longer[k][i - 1], longer[k][i], sizes, round2)
    {
      assert longer[k] == parts[k];
    }
    forall k | 0 < k < |longer| ensures !Together(longer[k - 1][|longer[k - 1]| - 1], longer[k][0], sizes, round2) {
      assert longer[k - 1] == parts[k - 1];
      assert k < |parts| ==> longer[k] == parts[k];
    }
  }

  lemma PartedExtend(parts: seq<seq<Line>>, l: Line, sizes: seq<real>, round2: real -> real)
    requires Parted(parts, sizes, round2) && parts != [] && parts[|parts| - 1] != []
    requires var last := parts[|parts| - 1]; Together(last[|last| - 1], l, sizes, round2)
    ensures var n := |parts| - 1; Parted(parts[..n] + [parts[n] + [l]], sizes, round2)
  {
    hide Together;
    var n := |parts| - 1;
    var longer := parts[..n] + [parts[n] + [l]];
    forall k, i | 0 <= k < |longer| && 0 < i < |longer[k]|
      ensures Together(longer[k][i - 1], longer[k][i], sizes, round2)
    {
      if k < n {
        assert longer[k] == parts[k];
      } else if i < |parts[n]| {
        assert longer[n][i - 1] == parts[n][i - 1] && longer[n][i] == parts[n][i];
      }
    }
    forall k | 0 < k < |longer| ensures !Together(longer[k - 1][|longer[k - 1]| - 1], longer[k][0], sizes, round2) {
      assert longer[k - 1] == parts[k - 1] && longer[k][0] == parts[k][0];
    }
  }

  lemma {:induction false} LargestIsOne(part: seq<Line>)
    requires part != []
    ensures exists l | l in part :: l.size == LargestLine(part)
  {
    var n := |part| - 1;
    if n == 0 {
      assert part[0] in part;
    } else {
      LargestIsOne(part[..n]);
      var l :| l in part[..n] && l.size == LargestLine(part[..n]);
      assert l in part && part[n] in part;
    }
  }

  lemma PartIsHeadingOrBody(part: seq<Line>, sizes: seq<real>, round2: real -> real)
    requires part != [] && forall i | 0 < i < |part| :: Together(part[i - 1], part[i], sizes, round2)
    ensures |part| > 1 ==> forall i | 0 <= i < |part| :: !IsHeadingLine(part[i], sizes, round2)
  {
    hide IsHeadingLine, Continues;
    if |part| > 1 {
      forall i | 0 <= i < |part| ensures !IsHeadingLine(part[i], sizes, round2) {
        assert Together(part[if i == 0 then 0 else i - 1], part[if i == 0 then 1 else i], sizes, round2);
      }
    }
  }

  // A block gets a heading level exactly when it came from a heading line, which is then its only line.
  lemma LevelExactlyHeadingLine(parts: seq<seq<Line>>, sizes: seq<real>, round2: real -> real, k: nat)
    requires Parted(parts, sizes, round2) && k < |parts| && parts[k] != []
    ensures HeadingLevel(BlockOf(parts[k]).size, sizes, round2).Some?
      <==> exists l | l in parts[k] :: IsHeadingLine(l, sizes, round2)
    ensures (exists l | l in parts[k] :: IsHeadingLine(l, sizes, round2)) ==> |parts[k]| == 1
  {
    hide Together;
    var part := parts[k];
    PartIsHeadingOrBody(part, sizes, round2);
    LargestIsOne(part);
    assert HeadingLevel(BlockOf(part).size, sizes, round2).Some? <==> round2(LargestLine(part)) in sizes;
    var l :| l in part && l.size == LargestLine(part);
    var i :| 0 <= i < |part| && part[i] == l;
    if |part| == 1 {
      assert part == [l];
    } else {
      assert !IsHeadingLine(part[i], sizes, round2);
    }
  }

  // All lines, once and in order, cut where neighbours do not belong together.
  ghost predicate PartedInto(parts: seq<seq<Line>>, lines: seq<Line>, sizes: seq<real>, round2: real -> real) {
    Flatten(parts) == lines && Parted(parts, sizes, round2) && forall k | 0 <= k < |parts| :: parts[k] != []
  }

  ghost predicate AreBlocksOf(blocks: seq<PdfBlock>, lines: seq<Line>, sizes: seq<real>, round2: real -> real) {
    exists parts :: PartedInto(parts, lines, sizes, round2) && blocks == BlocksOf(parts)
  }

  // The parts so far, and the paragraph still open.
  ghost predicate Underway(
    lines: seq<Line>, parts: seq<seq<Line>>, blocks: seq<PdfBlock>, paragraph: seq<Line>,
    sizes: seq<real>, round2: real -> real)
  {
    var done := if paragraph == [] then parts else parts[..|parts| - (if parts == [] then 0 else 1)];
    && Flatten(parts) == lines && Parted(parts, sizes, round2)
    && (paragraph != [] ==> parts != [] && parts[|parts| - 1] == paragraph)
    && (forall l | l in paragraph :: !IsHeadingLine(l, sizes, round2))
    && (paragraph == [] && parts != [] ==>
      var last := parts[|parts| - 1]; last != [] && IsHeadingLine(last[|last| - 1], sizes, round2))
    && |blocks| == |done| && forall k | 0 <= k < |done| :: done[k] != [] && blocks[k] == BlockOf(done[k])
  }

  lemma NothingUnderway(sizes: seq<real>, round2: real -> real)
    ensures Underway([], [], [], [], sizes, round2)
  {
  }

  // flush(), seen from the parts: the open paragraph's block joins the finished ones.
  function Flushed(blocks: seq<PdfBlock>, paragraph: seq<Line>): seq<PdfBlock> {
    if paragraph == [] then blocks else blocks + [BlockOf(paragraph)]
  }

  lemma FlushedAreAll(
    lines: seq<Line>, parts: seq<seq<Line>>, blocks: seq<PdfBlock>, paragraph: seq<Line>,
    sizes: seq<real>, round2: real -> real)
    requires Underway(lines, parts, blocks, paragraph, sizes, round2)
    ensures |Flushed(blocks, paragraph)| == |parts|
    ensures forall k | 0 <= k < |parts| :: parts[k] != [] && Flushed(blocks, paragraph)[k] == BlockOf(parts[k])
  {
    hide BlockOf, Together, IsHeadingLine, Flatten;
  }

  lemma HeadingNext(
    lines: seq<Line>, parts: seq<seq<Line>>, blocks: seq<PdfBlock>, paragraph: seq<Line>, l: Line,
    sizes: seq<real>, round2: real -> real)
    requires Underway(lines, parts, blocks, paragraph, sizes, round2) && IsHeadingLine(l, sizes, round2)
    ensures Underway(
      lines + [l], parts + [[l]], Flushed(blocks, paragraph) + [PdfBlock(l.text, l.size)], [], sizes, round2)
  {
    OneLineBlock(l);
    hide BlockOf, Continues, IsHeadingLine, Flatten, Flushed;
    FlushedAreAll(lines, parts, blocks, paragraph, sizes, round2);
    FlattenAppend(parts, [l]);
    PartedAppend(parts, l, sizes, round2);
  }

  lemma OneLineBlock(l: Line)
    ensures BlockOf([l]) == PdfBlock(l.text, l.size)
  {
    assert LineTexts([l]) == [l.text];
  }

  lemma ContinuingNext(
    lines: seq<Line>, parts: seq<seq<Line>>, blocks: seq<PdfBlock>, paragraph: seq<Line>, l: Line,
    sizes: seq<real>, round2: real -> real)
    requires Underway(lines, parts, blocks, paragraph, sizes, round2) && !IsHeadingLine(l, sizes, round2)
    requires paragraph != [] && Continues(paragraph[|paragraph| - 1], l)
    ensures parts != []
    ensures Underway(
      lines + [l], parts[..|parts| - 1] + [paragraph + [l]], blocks, paragraph + [l], sizes, round2)
  {
    hide BlockOf, Continues, IsHeadingLine, Flatten;
    FlattenExtend(parts, l);
    assert paragraph[|paragraph| - 1] in paragraph;
    PartedExtend(parts, l, sizes, round2);
    var n := |parts| - 1;
    assert (parts[..n] + [paragraph + [l]])[..n] == parts[..n];
  }

  lemma StartingNext(
    lines: seq<Line>, parts: seq<seq<Line>>, blocks: seq<PdfBlock>, paragraph: seq<Line>, l: Line,
    sizes: seq<real>, round2: real -> real)
    requires Underway(lines, parts, blocks, paragraph, sizes, round2) && !IsHeadingLine(l, sizes, round2)
    requires paragraph != [] ==> !Continues(paragraph[|paragraph| - 1], l)
    ensures Underway(lines + [l], parts + [[l]], Flushed(blocks, paragraph), [l], sizes, round2)
  {
    hide BlockOf, Continues, IsHeadingLine, Flatten, Flushed;
    FlushedAreAll(lines, parts, blocks, paragraph, sizes, round2);
    FlattenAppend(parts, [l]);
    PartedAppend(parts, l, sizes, round2);
    assert (parts + [[l]])[..|parts|] == parts;
  }

  // _logical_blocks: every line goes into one block, once and in order; the parts are the lines of each block.
  method LogicalBlocks(lines: seq<Line>, sizes: seq<real>, round2: real -> real) returns (blocks: seq<PdfBlock>)
    ensures AreBlocksOf(blocks, lines, sizes, round2)
  {
    hide *;
    blocks := [];
    ghost var parts: seq<seq<Line>> := [];
    var paragraph: seq<Line> := [];
    NothingUnderway(sizes, round2);
    assert lines[..0] == [];
    for i := 0 to |lines|
      invariant Underway(lines[..i], parts, blocks, paragraph, sizes, round2)
    {
      var l := lines[i];
      assert lines[..i] + [l] == lines[..i + 1];
      if IsHeadingLine(l, sizes, round2) {
        HeadingNext(lines[..i], parts, blocks, paragraph, l, sizes, round2);
        blocks := Flushed(blocks, paragraph) + [PdfBlock(l.text, l.size)];
        parts, paragraph := parts + [[l]], [];
      } else if paragraph != [] && Continues(paragraph[|paragraph| - 1], l) {
        ContinuingNext(lines[..i], parts, blocks, paragraph, l, sizes, round2);
        paragraph := paragraph + [l];
        parts := parts[..|parts| - 1] + [paragraph];
      } else {
        StartingNext(lines[..i], parts, blocks, paragraph, l, sizes, round2);
        blocks := Flushed(blocks, paragraph);
        parts, paragraph := parts + [[l]], [l];
      }
    }
    assert lines[..|lines|] == lines;
    FlushedAreAll(lines, parts, blocks, paragraph, sizes, round2);
    blocks := Flushed(blocks, paragraph);
    UnderwayMeans(lines, parts, paragraph, sizes, round2);
    BlocksMade(parts, blocks, lines, sizes, round2);
  }

  lemma UnderwayMeans(
    lines: seq<Line>, parts: seq<seq<Line>>, paragraph: seq<Line>, sizes: seq<real>, round2: real -> real)
    requires exists blocks :: Underway(lines, parts, blocks, paragraph, sizes, round2)
    ensures Flatten(parts) == lines && Parted(parts, sizes, round2)
  {
    hide BlockOf, Together, IsHeadingLine, Flatten;
  }

  lemma BlocksMade(
    parts: seq<seq<Line>>, blocks: seq<PdfBlock>, lines: seq<Line>, sizes: seq<real>, round2: real -> real)
    requires Flatten(parts) == lines && Parted(parts, sizes, round2)
    requires |blocks| == |parts| && forall k | 0 <= k < |parts| :: parts[k] != [] && blocks[k] == BlockOf(parts[k])
    ensures AreBlocksOf(blocks, lines, sizes, round2)
  {
    hide BlockOf, Parted, Flatten;
    assert PartedInto(parts, lines, sizes, round2) && blocks == BlocksOf(parts);
  }
}

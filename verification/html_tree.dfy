/** The forgiving HTML tree builder: a stack machine over tokenizer events. */
module HtmlTree {
  import opened Wrappers
  import opened Text
  import opened Decimal

  datatype Child = Chars(data: string) | Elem(node: nat)

  // A node; children refer to nodes by their position in creation order.
  datatype Node = Node(tag: string, attrs: map<string, string>, children: seq<Child>, path: string)

  datatype Builder = Builder(
    nodes: seq<Node>, stack: seq<nat>, counts: seq<map<string, nat>>, dropped: map<string, nat>)

  datatype Event =
    | Start(tag: string, attrs: map<string, string>)
    | StartEnd(tag: string, attrs: map<string, string>)
    | End(tag: string)
    | Data(data: string)

  const MAX_DOM_DEPTH: nat := 100

  predicate DroppedTag(tag: string) {
    tag in {"script", "style", "iframe", "object", "embed", "applet", "svg", "canvas", "audio", "video", "form",
            "input", "button", "select", "textarea", "noscript", "template", "link", "meta", "base", "head"}
  }

  predicate VoidTag(tag: string) {
    tag in {"area", "base", "br", "col", "embed", "hr", "img", "input", "link", "meta", "source", "wbr"}
  }

  predicate BlockLevel(tag: string) {
    tag in {"address", "article", "aside", "blockquote", "div", "dl", "fieldset", "figure", "footer",
            "h1", "h2", "h3", "h4", "h5", "h6", "header", "hr", "main", "nav", "ol", "p", "pre", "section",
            "table", "ul"}
  }

  // An open element is closed by the start of the tag.
  predicate ImpliesClose(open: string, tag: string) {
    if open in {"p", "h1", "h2", "h3", "h4", "h5", "h6"} then BlockLevel(tag)
    else if open == "li" then tag == "li"
    else if open in {"dt", "dd"} then tag in {"dt", "dd"}
    else if open in {"td", "th"} then tag in {"td", "th", "tr"}
    else if open == "tr" then tag == "tr"
    else false
  }

  const NEW_BUILDER := Builder([Node("document", map[], [], "")], [0], [map[]], map[])

  ghost predicate Shape(b: Builder) {
    && |b.stack| == |b.counts| >= 1
    && (forall k | 0 <= k < |b.stack| :: b.stack[k] < |b.nodes|)
  }

  function Tally(counts: map<string, nat>, tag: string): nat {
    if tag in counts then counts[tag] else 0
  }

  // The depth of the stack once implied closes are done.
  function OpenDepth(b: Builder, depth: nat, tag: string): (d: nat)
    requires Shape(b) && 1 <= depth <= |b.stack|
    ensures 1 <= d <= depth
    ensures d == 1 || !ImpliesClose(b.nodes[b.stack[d - 1]].tag, tag)
  {
    if depth > 1 && ImpliesClose(b.nodes[b.stack[depth - 1]].tag, tag) then OpenDepth(b, depth - 1, tag) else depth
  }

  function StepText(tag: string, k: nat): string {
    tag + "[" + Show(k) + "]"
  }

  function ChildPath(parent: string, step: string): string {
    if parent == "" then step else parent + ">" + step
  }

  function AppendChild(nodes: seq<Node>, at: nat, child: Child): seq<Node>
    requires at < |nodes|
  {
    nodes[at := nodes[at].(children := nodes[at].children + [child])]
  }

  // Everything open beyond the depth is closed.
  function Cut(b: Builder, depth: nat): (r: Builder)
    requires Shape(b) && 1 <= depth <= |b.stack|
    ensures Shape(r)
  {
    b.(stack := b.stack[..depth], counts := b.counts[..depth])
  }

  // The innermost counts once an element with the tag is added.
  function Counted(counts: seq<map<string, nat>>, tag: string): (r: seq<map<string, nat>>)
    requires counts != []
    ensures |r| == |counts|
  {
    var top := |counts| - 1;
    var rank: nat := Tally(counts[top], tag) + 1;
    counts[top := counts[top] + map[tag := rank]]
  }

  // A new element becomes the last child of the innermost open one, and open itself unless it is void.
  function AddNode(b: Builder, tag: string, attrs: map<string, string>): (r: Builder)
    requires Shape(b)
    ensures Shape(r)
  {
    var top, id := |b.stack| - 1, |b.nodes|;
    var k: nat := Tally(b.counts[top], tag) + 1;
    var path := ChildPath(b.nodes[b.stack[top]].path, StepText(tag, k));
    var nodes := AppendChild(b.nodes, b.stack[top], Elem(id)) + [Node(tag, attrs, [], path)];
    var counts := Counted(b.counts, tag);
    if VoidTag(tag)
    then b.(nodes := nodes, counts := counts)
    else b.(nodes := nodes, stack := b.stack + [id], counts := counts + [map[]])
  }

  // None stands for the error raised when nesting passes the cap.
  function HandleStart(b: Builder, tag: string, attrs: map<string, string>): (r: Option<Builder>)
    requires Shape(b)
    ensures r.Some? ==> Shape(r.value)
  {
    var b1 := if DroppedTag(tag) then b.(dropped := b.dropped[tag := Tally(b.dropped, tag) + 1]) else b;
    var b2 := Cut(b1, OpenDepth(b1, |b1.stack|, tag));
    if |b2.stack| > MAX_DOM_DEPTH then None else Some(AddNode(b2, tag, attrs))
  }

  // The position of the innermost open element with the tag; 0 if none is open.
  function FindOpen(b: Builder, depth: nat, tag: string): (d: nat)
    requires Shape(b) && 1 <= depth <= |b.stack|
    ensures d < depth
  {
    if depth == 1 then 0
    else if b.nodes[b.stack[depth - 1]].tag == tag then depth - 1
    else FindOpen(b, depth - 1, tag)
  }

  function HandleEnd(b: Builder, tag: string): (r: Builder)
    requires Shape(b)
    ensures Shape(r)
  {
    var d := FindOpen(b, |b.stack|, tag);
    if d == 0 then b else Cut(b, d)
  }

  function HandleData(b: Builder, data: string): Builder
    requires Shape(b)
  {
    b.(nodes := AppendChild(b.nodes, b.stack[|b.stack| - 1], Chars(data)))
  }

  function Handle(b: Builder, e: Event): (r: Option<Builder>)
    requires Shape(b)
    ensures r.Some? ==> Shape(r.value)
  {
    match e
    case Start(tag, attrs) => HandleStart(b, tag, attrs)
    case StartEnd(tag, attrs) =>
      var r := HandleStart(b, tag, attrs);
      if r.None? || VoidTag(tag) then r else Some(HandleEnd(r.value, tag))
    case End(tag) => Some(HandleEnd(b, tag))
    case Data(data) => Some(HandleData(b, data))
  }

  function Feed(es: seq<Event>): (r: Option<Builder>)
    ensures r.Some? ==> Shape(r.value)
  {
    if es == [] then Some(NEW_BUILDER)
    else
      var before := Feed(es[..|es| - 1]);
      if before.None? then None else Handle(before.value, es[|es| - 1])
  }

  // ---- what every event keeps ----

  ghost predicate ElemAt(nodes: seq<Node>, i: nat, p: nat, j: nat) {
    i < |nodes| && p < |nodes[i].children| && nodes[i].children[p] == Elem(j)
  }

  function CountTag(nodes: seq<Node>, children: seq<Child>, tag: string): nat {
    if children == [] then 0
    else
      var last := children[|children| - 1];
      CountTag(nodes, children[..|children| - 1], tag)
      + if last.Elem? && last.node < |nodes| && nodes[last.node].tag == tag then 1 else 0
  }

  // Children are younger than their parent.
  ghost predicate Rooted(nodes: seq<Node>) {
    && nodes != [] && nodes[0].path == ""
    && (forall i: nat, p: nat, j: nat :: ElemAt(nodes, i, p, j) ==> i < j < |nodes|)
    && (forall j: nat | 0 < j < |nodes| :: HasParent(nodes, j))
  }

  ghost predicate HasParent(nodes: seq<Node>, j: nat) {
    exists i: nat, p: nat :: ElemAt(nodes, i, p, j)
  }

  // A path step is the tag and the element's rank among its same-tag siblings.
  ghost predicate PathFits(nodes: seq<Node>, i: nat, p: nat, j: nat)
    requires ElemAt(nodes, i, p, j) && j < |nodes|
  {
    var tag := nodes[j].tag;
    && '>' !in tag
    && nodes[j].path == ChildPath(nodes[i].path, StepText(tag, CountTag(nodes, nodes[i].children[..p + 1], tag)))
  }

  ghost predicate PathsFit(nodes: seq<Node>) {
    forall i: nat, p: nat, j: nat :: ElemAt(nodes, i, p, j) && j < |nodes| ==> PathFits(nodes, i, p, j)
  }

  // No element stands inside one its own start would have closed.
  ghost predicate ImpliedClosesHappened(nodes: seq<Node>) {
    forall i: nat, p: nat, j: nat :: ElemAt(nodes, i, p, j) && j < |nodes| && i > 0 ==>
      !ImpliesClose(nodes[i].tag, nodes[j].tag)
  }

  function Segments(path: string): seq<string> {
    if path == "" then [] else Split(path, '>')
  }

  ghost predicate Shallow(b: Builder) {
    && (forall i | 0 <= i < |b.nodes| :: |Segments(b.nodes[i].path)| <= MAX_DOM_DEPTH)
    && (forall k | 0 <= k < |b.stack| && b.stack[k] < |b.nodes| :: |Segments(b.nodes[b.stack[k]].path)| == k)
  }

  ghost predicate LastChildIs(nodes: seq<Node>, parent: nat, child: nat) {
    && parent < child < |nodes|
    && nodes[parent].children != []
    && nodes[parent].children[|nodes[parent].children| - 1] == Elem(child)
  }

  // All that was created before next has all its children before next, up to the parent's last child.
  ghost predicate CompleteBefore(nodes: seq<Node>, parent: nat, next: nat)
    requires parent < |nodes|
  {
    forall i: nat, p: nat, j: nat | i < next && ElemAt(nodes, i, p, j) ::
      j < next || (i == parent && p == |nodes[parent].children| - 1)
  }

  ghost predicate SpineAt(b: Builder, k: nat) {
    0 < k < |b.stack| ==>
      LastChildIs(b.nodes, b.stack[k - 1], b.stack[k]) && CompleteBefore(b.nodes, b.stack[k - 1], b.stack[k])
  }

  // The open elements form the right-most branch; what was created before one of them is complete.
  ghost predicate RightSpine(b: Builder) {
    b.stack != [] && b.stack[0] == 0 && forall k: nat :: SpineAt(b, k)
  }

  lemma {:induction false} SpineIncreases(b: Builder, k: nat, l: nat)
    requires RightSpine(b) && k < l < |b.stack|
    ensures b.stack[k] < b.stack[l]
  {
    assert SpineAt(b, l);
    if k < l - 1 {
      SpineIncreases(b, k, l - 1);
    }
  }

  ghost predicate CountsFit(b: Builder)
    requires Shape(b)
  {
    forall k, tag | 0 <= k < |b.stack| ::
      Tally(b.counts[k], tag) == CountTag(b.nodes, b.nodes[b.stack[k]].children, tag)
  }

  ghost predicate Inv(b: Builder) {
    && Shape(b)
    && Rooted(b.nodes) && PathsFit(b.nodes) && ImpliedClosesHappened(b.nodes)
    && Shallow(b) && RightSpine(b) && CountsFit(b)
  }

  lemma {:induction false} CountTagFrame(nodes: seq<Node>, nodes': seq<Node>, children: seq<Child>, tag: string)
    requires |nodes| <= |nodes'| && forall i | 0 <= i < |nodes| :: nodes'[i].tag == nodes[i].tag
    requires forall c | c in children && c.Elem? :: c.node < |nodes|
    ensures CountTag(nodes', children, tag) == CountTag(nodes, children, tag)
  {
    if children != [] {
      CountTagFrame(nodes, nodes', children[..|children| - 1], tag);
    }
  }

  lemma CutKeepsInv(b: Builder, depth: nat)
    requires Inv(b) && 1 <= depth <= |b.stack|
    ensures Inv(Cut(b, depth))
  {
    hide Rooted, PathsFit, ImpliedClosesHappened, Segments, CountTag, Tally, LastChildIs, CompleteBefore;
    var b' := Cut(b, depth);
    forall k: nat ensures SpineAt(b', k) {
      assert SpineAt(b, k);
    }
  }

  // The nodes after one child is appended to the node at a position, and possibly a leaf is created.
  function Grow(nodes: seq<Node>, at: nat, child: Child, leaf: seq<Node>): seq<Node>
    requires at < |nodes|
  {
    AppendChild(nodes, at, child) + leaf
  }

  lemma ElemAtAfterGrow(nodes: seq<Node>, at: nat, child: Child, leaf: seq<Node>, i: nat, p: nat, j: nat)
    requires at < |nodes| && forall n | n in leaf :: n.children == []
    ensures ElemAt(Grow(nodes, at, child, leaf), i, p, j)
      <==> ElemAt(nodes, i, p, j) || (i == at && p == |nodes[at].children| && child == Elem(j))
  {
  }

  lemma CountAfterGrow(nodes: seq<Node>, at: nat, child: Child, leaf: seq<Node>, i: nat, tag: string)
    requires Rooted(nodes) && at < |nodes| && i < |nodes|
    ensures var nodes' := Grow(nodes, at, child, leaf);
      CountTag(nodes', nodes'[i].children, tag) == CountTag(nodes, nodes[i].children, tag)
        + if i == at && child.Elem? && child.node < |nodes'| && nodes'[child.node].tag == tag then 1 else 0
  {
    var nodes' := Grow(nodes, at, child, leaf);
    forall c | c in nodes[i].children && c.Elem? ensures c.node < |nodes| {
      var p: nat :| p < |nodes[i].children| && nodes[i].children[p] == c;
      assert ElemAt(nodes, i, p, c.node);
    }
    CountTagFrame(nodes, nodes', nodes[i].children, tag);
    if i == at {
      assert nodes'[i].children[..|nodes[i].children|] == nodes[i].children;
    }
  }

  lemma OldPathFits(nodes: seq<Node>, at: nat, child: Child, leaf: seq<Node>, i: nat, p: nat, j: nat)
    requires Rooted(nodes) && PathsFit(nodes) && at < |nodes| && ElemAt(nodes, i, p, j)
    ensures j < |nodes| && ElemAt(Grow(nodes, at, child, leaf), i, p, j)
    ensures PathFits(Grow(nodes, at, child, leaf), i, p, j)
  {
    var nodes' := Grow(nodes, at, child, leaf);
    var before := nodes[i].children[..p + 1];
    assert PathFits(nodes, i, p, j);
    assert nodes'[i].children[..p + 1] == before;
    forall c | c in before && c.Elem? ensures c.node < |nodes| {
      var q: nat :| q < |before| && before[q] == c;
      assert ElemAt(nodes, i, q, c.node);
    }
    CountTagFrame(nodes, nodes', before, nodes[j].tag);
  }

  lemma SpineAfterGrow(b: Builder, child: Child, leaf: seq<Node>)
    requires Shape(b) && RightSpine(b) && forall n | n in leaf :: n.children == []
    ensures RightSpine(b.(nodes := Grow(b.nodes, b.stack[|b.stack| - 1], child, leaf)))
  {
    var top := |b.stack| - 1;
    var b' := b.(nodes := Grow(b.nodes, b.stack[top], child, leaf));
    forall k: nat ensures SpineAt(b', k) {
      assert SpineAt(b, k);
      if 0 < k < |b.stack| {
        SpineIncreases(b, k - 1, top);
        if k < top {
          SpineIncreases(b, k, top);
        }
        var parent := b.stack[k - 1];
        forall i: nat, p: nat, j: nat | i < b.stack[k] && ElemAt(b'.nodes, i, p, j)
          ensures j < b.stack[k] || (i == parent && p == |b'.nodes[parent].children| - 1)
        {
          ElemAtAfterGrow(b.nodes, b.stack[top], child, leaf, i, p, j);
        }
      }
    }
  }

  lemma AddTextKeepsInv(b: Builder, data: string)
    requires Inv(b)
    ensures Inv(HandleData(b, data))
  {
    var b', at := HandleData(b, data), b.stack[|b.stack| - 1];
    assert b'.nodes == Grow(b.nodes, at, Chars(data), []);
    hide CountTag, ImpliesClose, StepText, Segments;
    forall i: nat, p: nat, j: nat ensures ElemAt(b'.nodes, i, p, j) <==> ElemAt(b.nodes, i, p, j) {
      ElemAtAfterGrow(b.nodes, at, Chars(data), [], i, p, j);
    }
    forall i: nat, p: nat, j: nat | ElemAt(b'.nodes, i, p, j) && j < |b'.nodes| ensures PathFits(b'.nodes, i, p, j) {
      OldPathFits(b.nodes, at, Chars(data), [], i, p, j);
    }
    assert Rooted(b'.nodes) by {
      forall j: nat | 0 < j < |b'.nodes| ensures HasParent(b'.nodes, j) {
        assert HasParent(b.nodes, j);
      }
    }
    SpineAfterGrow(b, Chars(data), []);
    forall k, tag | 0 <= k < |b'.stack|
      ensures Tally(b'.counts[k], tag) == CountTag(b'.nodes, b'.nodes[b'.stack[k]].children, tag)
    {
      CountAfterGrow(b.nodes, at, Chars(data), [], b.stack[k], tag);
    }
  }

  lemma AddNodeParts(b: Builder, tag: string, attrs: map<string, string>)
    requires Shape(b)
    ensures var r, top := AddNode(b, tag, attrs), |b.stack| - 1;
      var path := ChildPath(b.nodes[b.stack[top]].path, StepText(tag, Tally(b.counts[top], tag) + 1));
      r.nodes == Grow(b.nodes, b.stack[top], Elem(|b.nodes|), [Node(tag, attrs, [], path)])
  {
    hide VoidTag, StepText, ChildPath, Counted;
  }

  lemma AddNodeStack(b: Builder, tag: string, attrs: map<string, string>)
    requires Shape(b)
    ensures var r := AddNode(b, tag, attrs);
      && r.stack == (if VoidTag(tag) then b.stack else b.stack + [|b.nodes|])
      && r.counts == (if VoidTag(tag) then Counted(b.counts, tag) else Counted(b.counts, tag) + [map[]])
      && r.dropped == b.dropped
  {
    hide VoidTag, StepText, ChildPath, Counted;
  }

  lemma StepHasNoAngle(tag: string, k: nat)
    requires '>' !in tag
    ensures '>' !in StepText(tag, k) && StepText(tag, k) != ""
  {
    ShowAvoids(k, '>');
  }

  lemma ChildSegments(parent: string, step: string)
    requires '>' !in step && step != ""
    ensures Segments(ChildPath(parent, step)) == Segments(parent) + [step]
  {
    if parent == "" {
      SplitWithoutSeparator(step, '>');
    } else {
      SplitBeforePart(parent, step, '>');
    }
  }

  lemma NewPathFits(b: Builder, tag: string, attrs: map<string, string>)
    requires Inv(b) && '>' !in tag
    ensures var nodes', at := AddNode(b, tag, attrs).nodes, b.stack[|b.stack| - 1];
      ElemAt(nodes', at, |b.nodes[at].children|, |b.nodes|) && PathFits(nodes', at, |b.nodes[at].children|, |b.nodes|)
  {
    var nodes', at := AddNode(b, tag, attrs).nodes, b.stack[|b.stack| - 1];
    var leaf := [nodes'[|b.nodes|]];
    assert nodes' == Grow(b.nodes, at, Elem(|b.nodes|), leaf);
    CountAfterGrow(b.nodes, at, Elem(|b.nodes|), leaf, at, tag);
    var children := nodes'[at].children;
    assert children[..|b.nodes[at].children| + 1] == children;
  }

  lemma NewNodeDepth(b: Builder, tag: string, attrs: map<string, string>)
    requires Shape(b) && '>' !in tag
    ensures var at, b' := b.stack[|b.stack| - 1], AddNode(b, tag, attrs);
      && |b'.nodes| == |b.nodes| + 1
      && |Segments(b'.nodes[|b.nodes|].path)| == |Segments(b.nodes[at].path)| + 1
      && forall i | 0 <= i < |b.nodes| :: b'.nodes[i].path == b.nodes[i].path
  {
    AddNodeParts(b, tag, attrs);
    hide AddNode, Segments, StepText, ChildPath, Tally;
    var top := |b.stack| - 1;
    var rank := Tally(b.counts[top], tag) + 1;
    StepHasNoAngle(tag, rank);
    ChildSegments(b.nodes[b.stack[top]].path, StepText(tag, rank));
  }

  lemma ShallowExtends(b: Builder, b': Builder)
    requires Shape(b) && Shallow(b) && |b.stack| <= MAX_DOM_DEPTH && |b'.nodes| == |b.nodes| + 1
    requires forall i | 0 <= i < |b.nodes| :: b'.nodes[i].path == b.nodes[i].path
    requires |Segments(b'.nodes[|b.nodes|].path)| == |b.stack|
    requires b'.stack == b.stack || b'.stack == b.stack + [|b.nodes|]
    ensures Shallow(b')
  {
    hide Segments;
  }

  lemma NewNodeIsShallow(b: Builder, tag: string, attrs: map<string, string>)
    requires Shape(b) && Shallow(b) && '>' !in tag && |b.stack| <= MAX_DOM_DEPTH
    ensures Shallow(AddNode(b, tag, attrs))
  {
    AddNodeStack(b, tag, attrs);
    NewNodeDepth(b, tag, attrs);
    assert |Segments(b.nodes[b.stack[|b.stack| - 1]].path)| == |b.stack| - 1;
    hide *;
    ShallowExtends(b, AddNode(b, tag, attrs));
  }

  lemma CountedTally(counts: seq<map<string, nat>>, tag: string)
    requires counts != []
    ensures var r, top := Counted(counts, tag), |counts| - 1;
      && (forall t :: Tally(r[top], t) == Tally(counts[top], t) + if t == tag then 1 else 0)
      && (forall k | 0 <= k < top :: r[k] == counts[k])
  {
  }

  // The counts that were there before still fit, the innermost one raised.
  lemma OldCountFits(b: Builder, tag: string, leaf: Node, k: nat, t: string)
    requires Shape(b) && Rooted(b.nodes) && CountsFit(b) && RightSpine(b) && k < |b.stack| && leaf.tag == tag
    ensures var nodes' := Grow(b.nodes, b.stack[|b.stack| - 1], Elem(|b.nodes|), [leaf]);
      Tally(Counted(b.counts, tag)[k], t) == CountTag(nodes', nodes'[b.stack[k]].children, t)
  {
    var top := |b.stack| - 1;
    GrownLeaf(b.nodes, b.stack[top], Elem(|b.nodes|), leaf);
    hide Tally, CountTag, Counted, Rooted, RightSpine, Grow;
    CountedTally(b.counts, tag);
    CountAfterGrow(b.nodes, b.stack[top], Elem(|b.nodes|), [leaf], b.stack[k], t);
    if k < top {
      SpineIncreases(b, k, top);
    }
  }

  lemma GrownLeaf(nodes: seq<Node>, at: nat, child: Child, leaf: Node)
    requires at < |nodes|
    ensures var nodes' := Grow(nodes, at, child, [leaf]); |nodes'| == |nodes| + 1 && nodes'[|nodes|] == leaf
  {
  }

  lemma NewCountsFit(b: Builder, tag: string, attrs: map<string, string>)
    requires Inv(b)
    ensures CountsFit(AddNode(b, tag, attrs))
  {
    hide AddNode, Tally, CountTag, Counted, Rooted, RightSpine, PathsFit, ImpliedClosesHappened, Shallow, VoidTag, Grow,
      StepText, ChildPath;
    var b', top := AddNode(b, tag, attrs), |b.stack| - 1;
    AddNodeParts(b, tag, attrs);
    AddNodeStack(b, tag, attrs);
    var leaf := Node(tag, attrs, [],
      ChildPath(b.nodes[b.stack[top]].path, StepText(tag, Tally(b.counts[top], tag) + 1)));
    GrownLeaf(b.nodes, b.stack[top], Elem(|b.nodes|), leaf);
    forall k, t | 0 <= k < |b'.stack|
      ensures Tally(b'.counts[k], t) == CountTag(b'.nodes, b'.nodes[b'.stack[k]].children, t)
    {
      if k <= top {
        OldCountFits(b, tag, leaf, k, t);
      } else {
        NoChildrenNoCount(b'.nodes, t);
      }
    }
  }

  lemma NoChildrenNoCount(nodes: seq<Node>, tag: string)
    ensures CountTag(nodes, [], tag) == Tally(map[], tag) == 0
  {
  }

  lemma GrowKeepsRooted(nodes: seq<Node>, at: nat, leaf: Node)
    requires Rooted(nodes) && at < |nodes| && leaf.children == []
    ensures Rooted(Grow(nodes, at, Elem(|nodes|), [leaf]))
  {
    var nodes', id := Grow(nodes, at, Elem(|nodes|), [leaf]), |nodes|;
    assert |nodes'| == id + 1 && nodes'[0].path == nodes[0].path;
    hide Grow, ElemAt;
    forall i: nat, p: nat, j: nat | ElemAt(nodes', i, p, j) ensures i < j < |nodes'| {
      ElemAtAfterGrow(nodes, at, Elem(id), [leaf], i, p, j);
    }
    forall j: nat | 0 < j < |nodes'| ensures HasParent(nodes', j) {
      if j < id {
        assert HasParent(nodes, j);
        var i: nat, p: nat :| ElemAt(nodes, i, p, j);
        ElemAtAfterGrow(nodes, at, Elem(id), [leaf], i, p, j);
      } else {
        ElemAtAfterGrow(nodes, at, Elem(id), [leaf], at, |nodes[at].children|, j);
      }
    }
  }

  lemma GrowKeepsPaths(nodes: seq<Node>, at: nat, leaf: Node)
    requires Rooted(nodes) && PathsFit(nodes) && at < |nodes| && leaf.children == []
    requires var nodes', p := Grow(nodes, at, Elem(|nodes|), [leaf]), |nodes[at].children|;
      |nodes'| > |nodes| && ElemAt(nodes', at, p, |nodes|) && PathFits(nodes', at, p, |nodes|)
    ensures PathsFit(Grow(nodes, at, Elem(|nodes|), [leaf]))
  {
    hide PathFits, ElemAt, Grow;
    var nodes', id := Grow(nodes, at, Elem(|nodes|), [leaf]), |nodes|;
    forall i: nat, p: nat, j: nat | ElemAt(nodes', i, p, j) && j < |nodes'| ensures PathFits(nodes', i, p, j) {
      ElemAtAfterGrow(nodes, at, Elem(id), [leaf], i, p, j);
      if ElemAt(nodes, i, p, j) {
        OldPathFits(nodes, at, Elem(id), [leaf], i, p, j);
      }
    }
  }

  lemma GrowKeepsCloses(nodes: seq<Node>, at: nat, leaf: Node)
    requires Rooted(nodes) && ImpliedClosesHappened(nodes) && at < |nodes| && leaf.children == []
    requires at == 0 || !ImpliesClose(nodes[at].tag, leaf.tag)
    ensures ImpliedClosesHappened(Grow(nodes, at, Elem(|nodes|), [leaf]))
  {
    hide ImpliesClose;
    var nodes', id := Grow(nodes, at, Elem(|nodes|), [leaf]), |nodes|;
    assert nodes'[id] == leaf && forall i | 0 <= i < id :: nodes'[i].tag == nodes[i].tag;
    hide Grow, ElemAt;
    forall i: nat, p: nat, j: nat | ElemAt(nodes', i, p, j) && j < |nodes'| && i > 0
      ensures !ImpliesClose(nodes'[i].tag, nodes'[j].tag)
    {
      ElemAtAfterGrow(nodes, at, Elem(id), [leaf], i, p, j);
    }
  }

  lemma NewTreeIsRooted(b: Builder, tag: string, attrs: map<string, string>)
    requires Inv(b) && '>' !in tag && (|b.stack| == 1 || !ImpliesClose(b.nodes[b.stack[|b.stack| - 1]].tag, tag))
    ensures var nodes' := AddNode(b, tag, attrs).nodes;
      Rooted(nodes') && PathsFit(nodes') && ImpliedClosesHappened(nodes')
  {
    AddNodeParts(b, tag, attrs);
    NewPathFits(b, tag, attrs);
    var at := b.stack[|b.stack| - 1];
    var leaf := Node(tag, attrs, [],
      ChildPath(b.nodes[at].path, StepText(tag, Tally(b.counts[|b.stack| - 1], tag) + 1)));
    assert |AddNode(b, tag, attrs).nodes| == |b.nodes| + 1;
    assert |b.stack| == 1 ==> at == 0;
    hide AddNode, VoidTag, CountTag, ImpliesClose, StepText, ChildPath, Shallow, CountsFit, Grow, PathFits, ElemAt,
      Rooted, PathsFit, ImpliedClosesHappened, RightSpine, Tally, Counted;
    GrowKeepsRooted(b.nodes, at, leaf);
    GrowKeepsPaths(b.nodes, at, leaf);
    GrowKeepsCloses(b.nodes, at, leaf);
  }

  lemma NewSpine(b: Builder, tag: string, attrs: map<string, string>)
    requires Inv(b)
    ensures RightSpine(AddNode(b, tag, attrs))
  {
    var b', at, id := AddNode(b, tag, attrs), b.stack[|b.stack| - 1], |b.nodes|;
    var leaf := [b'.nodes[id]];
    SpineAfterGrow(b, Elem(id), leaf);
    assert b'.nodes == Grow(b.nodes, at, Elem(id), leaf);
    assert CompleteBefore(b'.nodes, at, id) by {
      forall i: nat, p: nat, j: nat | i < id && ElemAt(b'.nodes, i, p, j)
        ensures j < id || (i == at && p == |b'.nodes[at].children| - 1)
      {
        ElemAtAfterGrow(b.nodes, at, Elem(id), leaf, i, p, j);
      }
    }
    assert LastChildIs(b'.nodes, at, id);
    hide VoidTag, LastChildIs, CompleteBefore, CountTag, ChildPath, StepText, PathsFit, Shallow, CountsFit, Rooted;
    forall k: nat ensures SpineAt(b', k) {
      assert SpineAt(b.(nodes := b'.nodes), k);
    }
  }

  lemma AddNodeKeepsInv(b: Builder, tag: string, attrs: map<string, string>)
    requires Inv(b) && '>' !in tag && |b.stack| <= MAX_DOM_DEPTH
    requires |b.stack| == 1 || !ImpliesClose(b.nodes[b.stack[|b.stack| - 1]].tag, tag)
    ensures Inv(AddNode(b, tag, attrs))
  {
    NewTreeIsRooted(b, tag, attrs);
    NewNodeIsShallow(b, tag, attrs);
    NewSpine(b, tag, attrs);
    NewCountsFit(b, tag, attrs);
  }

  // A tag name, as the tokenizer delimits it.
  ghost predicate ValidEvent(e: Event) {
    e.Start? || e.StartEnd? ==> '>' !in e.tag
  }

  lemma DroppedKeepsInv(b: Builder, dropped: map<string, nat>)
    requires Inv(b)
    ensures Inv(b.(dropped := dropped))
  {
    hide Rooted, PathsFit, ImpliedClosesHappened, Segments, CountTag, Tally, LastChildIs, CompleteBefore;
    forall k: nat ensures SpineAt(b.(dropped := dropped), k) {
      assert SpineAt(b, k);
    }
  }

  lemma StartKeepsInv(b: Builder, tag: string, attrs: map<string, string>)
    requires Shape(b) && Inv(b) && '>' !in tag && HandleStart(b, tag, attrs).Some?
    ensures Inv(HandleStart(b, tag, attrs).value)
  {
    hide Inv, ImpliesClose, DroppedTag, AddNode;
    var b1 := if DroppedTag(tag) then b.(dropped := b.dropped[tag := Tally(b.dropped, tag) + 1]) else b;
    DroppedKeepsInv(b, b1.dropped);
    var d := OpenDepth(b1, |b1.stack|, tag);
    CutKeepsInv(b1, d);
    AddNodeKeepsInv(Cut(b1, d), tag, attrs);
  }

  lemma EventKeepsInv(b: Builder, e: Event)
    requires Shape(b) && Inv(b) && ValidEvent(e) && Handle(b, e).Some?
    ensures Inv(Handle(b, e).value)
  {
    hide Inv, HandleStart;
    match e
    case Start(tag, attrs) => StartKeepsInv(b, tag, attrs);
    case StartEnd(tag, attrs) =>
      StartKeepsInv(b, tag, attrs);
      EndKeepsInv(HandleStart(b, tag, attrs).value, tag);
    case End(tag) => EndKeepsInv(b, tag);
    case Data(data) => AddTextKeepsInv(b, data);
  }

  lemma EndKeepsInv(b: Builder, tag: string)
    requires Shape(b) && Inv(b)
    ensures Inv(HandleEnd(b, tag))
  {
    if FindOpen(b, |b.stack|, tag) > 0 {
      CutKeepsInv(b, FindOpen(b, |b.stack|, tag));
    }
  }

  lemma {:induction false} FeedKeepsInv(es: seq<Event>)
    requires (forall e | e in es :: ValidEvent(e)) && Feed(es).Some?
    ensures Inv(Feed(es).value)
  {
    if es == [] {
      NewBuilderInv();
    } else {
      FeedKeepsInv(es[..|es| - 1]);
      hide Inv, Handle;
      EventKeepsInv(Feed(es[..|es| - 1]).value, es[|es| - 1]);
    }
  }

  lemma NewBuilderInv()
    ensures Inv(NEW_BUILDER)
  {
    assert CountsFit(NEW_BUILDER);
  }

  // ---- paths address nodes ----

  // The element child a path step names: the tag and its rank among the same-tag siblings.
  function FindChild(nodes: seq<Node>, children: seq<Child>, step: string): Option<nat> {
    if children == [] then None
    else
      var last := children[|children| - 1];
      if last.Elem? && last.node < |nodes|
        && StepText(nodes[last.node].tag, CountTag(nodes, children, nodes[last.node].tag)) == step
      then Some(last.node)
      else FindChild(nodes, children[..|children| - 1], step)
  }

  function ResolveSteps(nodes: seq<Node>, steps: seq<string>): Option<nat> {
    if steps == [] then Some(0)
    else
      match ResolveSteps(nodes, steps[..|steps| - 1])
      case None => None
      case Some(at) => if at < |nodes| then FindChild(nodes, nodes[at].children, steps[|steps| - 1]) else None
  }

  // Follows a path from the root, counting same-tag siblings.
  function Resolve(nodes: seq<Node>, path: string): Option<nat> {
    ResolveSteps(nodes, Segments(path))
  }

  lemma StepTextInjective(tag: string, k: nat, tag': string, k': nat)
    requires StepText(tag, k) == StepText(tag', k')
    ensures tag == tag' && k == k'
  {
    StepTextParts(tag, k);
    StepTextParts(tag', k');
    ShowInjective(k, k');
  }

  // The last bracket of a step opens its rank.
  lemma StepTextParts(tag: string, k: nat)
    ensures var s := StepText(tag, k);
      && |s| > |tag| + 1 && s[|tag|] == '[' && (forall i | |tag| < i < |s| :: s[i] != '[')
      && s[..|tag|] == tag && s[|tag| + 1..|s| - 1] == Show(k)
  {
    hide Show, IsDigit;
    BracketIsNoDigit();
    var a, s := Show(k), StepText(tag, k);
    assert s == tag + "[" + a + "]";
    forall i | |tag| < i < |s| ensures s[i] != '[' {
      if i < |s| - 1 {
        assert s[i] == a[i - |tag| - 1] && IsDigit(a[i - |tag| - 1]);
      }
    }
  }

  lemma BracketIsNoDigit()
    ensures !IsDigit('[')
  {
  }

  lemma {:induction false} CountTagMonotone(nodes: seq<Node>, children: seq<Child>, p: nat, q: nat, tag: string)
    requires p <= q <= |children|
    ensures CountTag(nodes, children[..p], tag) <= CountTag(nodes, children[..q], tag)
  {
    if p < q {
      assert children[..q][..q - 1] == children[..q - 1];
      CountTagMonotone(nodes, children, p, q - 1, tag);
    }
  }

  lemma {:induction false} FindChildFinds(nodes: seq<Node>, children: seq<Child>, p: nat, j: nat, q: nat)
    requires p < q <= |children| && children[p] == Elem(j) && j < |nodes|
    ensures FindChild(nodes, children[..q], StepText(nodes[j].tag, CountTag(nodes, children[..p + 1], nodes[j].tag)))
      == Some(j)
  {
    assert children[..q][..q - 1] == children[..q - 1];
    if p < q - 1 {
      FindChildFinds(nodes, children, p, j, q - 1);
      var last := children[q - 1];
      if last.Elem? && last.node < |nodes| {
        var tag, k := nodes[last.node].tag, CountTag(nodes, children[..q], nodes[last.node].tag);
        if StepText(tag, k) == StepText(nodes[j].tag, CountTag(nodes, children[..p + 1], nodes[j].tag)) {
          StepTextInjective(tag, k, nodes[j].tag, CountTag(nodes, children[..p + 1], nodes[j].tag));
          CountTagMonotone(nodes, children, p + 1, q - 1, tag);
          assert false;
        }
      }
    }
  }

  // Every node's path, resolved from the root, leads back to that node; so no two paths are equal.
  lemma {:induction false} PathResolves(nodes: seq<Node>, j: nat)
    requires Rooted(nodes) && PathsFit(nodes) && j < |nodes|
    ensures Resolve(nodes, nodes[j].path) == Some(j)
  {
    if j > 0 {
      assert HasParent(nodes, j);
      var i: nat, p: nat :| ElemAt(nodes, i, p, j);
      PathResolves(nodes, i);
      assert PathFits(nodes, i, p, j);
      var tag, children := nodes[j].tag, nodes[i].children;
      var k := CountTag(nodes, children[..p + 1], tag);
      StepHasNoAngle(tag, k);
      ChildSegments(nodes[i].path, StepText(tag, k));
      FindChildFinds(nodes, children, p, j, |children|);
      assert children[..|children|] == children;
    }
  }

  // ---- the tree reads back as the document ----

  datatype Item = Opened(tag: string) | Read(data: string)

  function PreOrder(nodes: seq<Node>, i: nat): seq<Item>
    requires Rooted(nodes) && i < |nodes|
    decreases |nodes| - i, 1, 0
  {
    [Opened(nodes[i].tag)] + PreOrderOf(nodes, i, |nodes[i].children|)
  }

  function PreOrderOf(nodes: seq<Node>, i: nat, n: nat): seq<Item>
    requires Rooted(nodes) && i < |nodes| && n <= |nodes[i].children|
    decreases |nodes| - i, 0, n
  {
    if n == 0 then []
    else PreOrderOf(nodes, i, n - 1) + PreOrderChild(nodes, i, n - 1)
  }

  function PreOrderChild(nodes: seq<Node>, i: nat, p: nat): seq<Item>
    requires Rooted(nodes) && i < |nodes| && p < |nodes[i].children|
    decreases |nodes| - i, 0, p
  {
    match nodes[i].children[p]
    case Chars(data) => [Read(data)]
    case Elem(j) => assert ElemAt(nodes, i, p, j); PreOrder(nodes, j)
  }

  // The document in order, as the events deliver it.
  function Document(es: seq<Event>): seq<Item> {
    if es == [] then [Opened("document")]
    else
      var e := es[|es| - 1];
      Document(es[..|es| - 1]) + if e.Data? then [Read(e.data)] else if e.End? then [] else [Opened(e.tag)]
  }

  // A subtree that lies below hi and does not change reads the same.
  lemma {:induction false} PreOrderFrame(nodes: seq<Node>, nodes': seq<Node>, i: nat, lo: nat, hi: nat)
    requires Rooted(nodes) && Rooted(nodes') && lo <= i < hi <= |nodes| && hi <= |nodes'|
    requires forall x | lo <= x < hi :: nodes'[x].tag == nodes[x].tag && nodes'[x].children == nodes[x].children
    requires forall x: nat, p: nat, j: nat | lo <= x < hi && ElemAt(nodes, x, p, j) :: j < hi
    ensures PreOrder(nodes', i) == PreOrder(nodes, i)
    decreases |nodes| - i, 1, 0
  {
    PreOrderOfFrame(nodes, nodes', i, |nodes[i].children|, lo, hi);
  }

  lemma {:induction false} PreOrderOfFrame(nodes: seq<Node>, nodes': seq<Node>, i: nat, n: nat, lo: nat, hi: nat)
    requires Rooted(nodes) && Rooted(nodes') && lo <= i < hi <= |nodes| && hi <= |nodes'| && n <= |nodes[i].children|
    requires forall x | lo <= x < hi :: nodes'[x].tag == nodes[x].tag && nodes'[x].children == nodes[x].children
    requires forall x: nat, p: nat, j: nat | lo <= x < hi && ElemAt(nodes, x, p, j) :: j < hi
    ensures PreOrderOf(nodes', i, n) == PreOrderOf(nodes, i, n)
    decreases |nodes| - i, 0, n
  {
    if n > 0 {
      PreOrderOfFrame(nodes, nodes', i, n - 1, lo, hi);
      var child := nodes[i].children[n - 1];
      if child.Elem? {
        assert ElemAt(nodes, i, n - 1, child.node);
        PreOrderFrame(nodes, nodes', child.node, lo, hi);
      }
    }
  }

  // The first n children read the same when nothing below hi but their parent's later children changes.
  lemma {:induction false} PrefixReads(nodes: seq<Node>, nodes': seq<Node>, i: nat, n: nat, hi: nat)
    requires Rooted(nodes) && Rooted(nodes') && i < hi <= |nodes| && hi <= |nodes'|
    requires n <= |nodes[i].children| && n <= |nodes'[i].children| && nodes'[i].children[..n] == nodes[i].children[..n]
    requires forall x | i < x < hi :: nodes'[x].tag == nodes[x].tag && nodes'[x].children == nodes[x].children
    requires forall x: nat, p: nat, j: nat | i < x < hi && ElemAt(nodes, x, p, j) :: j < hi
    requires forall p: nat, j: nat | p < n && ElemAt(nodes, i, p, j) :: j < hi
    ensures PreOrderOf(nodes', i, n) == PreOrderOf(nodes, i, n)
  {
    if n > 0 {
      assert nodes'[i].children[..n][..n - 1] == nodes'[i].children[..n - 1];
      assert nodes[i].children[..n][..n - 1] == nodes[i].children[..n - 1];
      PrefixReads(nodes, nodes', i, n - 1, hi);
      var child := nodes[i].children[..n][n - 1];
      assert child == nodes'[i].children[n - 1] == nodes[i].children[n - 1];
      if child.Elem? {
        assert ElemAt(nodes, i, n - 1, child.node);
        PreOrderFrame(nodes, nodes', child.node, i + 1, hi);
      }
    }
  }

  lemma LastChildReads(nodes: seq<Node>, i: nat, next: nat)
    requires Rooted(nodes) && LastChildIs(nodes, i, next)
    ensures PreOrder(nodes, i)
      == [Opened(nodes[i].tag)] + PreOrderOf(nodes, i, |nodes[i].children| - 1) + PreOrder(nodes, next)
  {
    var n := |nodes[i].children|;
    assert PreOrderChild(nodes, i, n - 1) == PreOrder(nodes, next);
    assert PreOrderOf(nodes, i, n) == PreOrderOf(nodes, i, n - 1) + PreOrder(nodes, next);
  }

  lemma {:induction false} TopReads(nodes: seq<Node>, at: nat, child: Child, leaf: seq<Node>)
    requires at < |nodes| && Rooted(nodes) && Rooted(Grow(nodes, at, child, leaf))
    ensures var nodes' := Grow(nodes, at, child, leaf);
      PreOrder(nodes', at) == PreOrder(nodes, at) + PreOrderChild(nodes', at, |nodes[at].children|)
  {
    var nodes', n := Grow(nodes, at, child, leaf), |nodes[at].children|;
    PrefixReads(nodes, nodes', at, n, |nodes|);
    assert PreOrderOf(nodes', at, n + 1) == PreOrderOf(nodes, at, n) + PreOrderChild(nodes', at, n);
  }

  // What is appended at the innermost open element is appended to the reading of every open element.
  lemma {:induction false} SpineReads(b: Builder, child: Child, leaf: seq<Node>, k: nat)
    requires Shape(b) && Rooted(b.nodes) && RightSpine(b) && k < |b.stack| && forall n | n in leaf :: n.children == []
    requires Rooted(Grow(b.nodes, b.stack[|b.stack| - 1], child, leaf))
    ensures var at := b.stack[|b.stack| - 1];
      var nodes' := Grow(b.nodes, at, child, leaf);
      PreOrder(nodes', b.stack[k])
        == PreOrder(b.nodes, b.stack[k]) + PreOrderChild(nodes', at, |b.nodes[at].children|)
    decreases |b.stack| - k
  {
    var nodes, top, i := b.nodes, |b.stack| - 1, b.stack[k];
    var nodes' := Grow(nodes, b.stack[top], child, leaf);
    if k == top {
      TopReads(nodes, i, child, leaf);
    } else {
      SpineReads(b, child, leaf, k + 1);
      SpineIncreases(b, k, top);
      InnerFrame(b, child, leaf, k);
      LastChildReads(nodes, i, b.stack[k + 1]);
      LastChildReads(nodes', i, b.stack[k + 1]);
    }
  }

  lemma InnerFrame(b: Builder, child: Child, leaf: seq<Node>, k: nat)
    requires Shape(b) && Rooted(b.nodes) && RightSpine(b)
    requires k + 1 < |b.stack| && forall n | n in leaf :: n.children == []
    requires Rooted(Grow(b.nodes, b.stack[|b.stack| - 1], child, leaf))
    ensures var nodes' := Grow(b.nodes, b.stack[|b.stack| - 1], child, leaf);
      && LastChildIs(b.nodes, b.stack[k], b.stack[k + 1]) && LastChildIs(nodes', b.stack[k], b.stack[k + 1])
      && nodes'[b.stack[k]] == b.nodes[b.stack[k]]
      && PreOrderOf(nodes', b.stack[k], |b.nodes[b.stack[k]].children| - 1)
        == PreOrderOf(b.nodes, b.stack[k], |b.nodes[b.stack[k]].children| - 1)
  {
    var nodes, top, i, next := b.nodes, |b.stack| - 1, b.stack[k], b.stack[k + 1];
    var nodes' := Grow(nodes, b.stack[top], child, leaf);
    SpineIncreases(b, k, top);
    if k + 1 < top {
      SpineIncreases(b, k + 1, top);
    }
    assert SpineAt(b, k + 1);
    hide PreOrderOf, RightSpine, SpineAt;
    assert nodes'[i] == nodes[i];
    PrefixReads(nodes, nodes', i, |nodes[i].children| - 1, next);
  }

  lemma TextReads(b: Builder, data: string)
    requires Inv(b)
    ensures Inv(HandleData(b, data))
    ensures PreOrder(HandleData(b, data).nodes, 0) == PreOrder(b.nodes, 0) + [Read(data)]
  {
    AddTextKeepsInv(b, data);
    var at := b.stack[|b.stack| - 1];
    assert HandleData(b, data).nodes == Grow(b.nodes, at, Chars(data), []);
    hide PathsFit, Shallow, CountsFit, ImpliedClosesHappened;
    SpineReads(b, Chars(data), [], 0);
  }

  lemma EndKeepsNodes(b: Builder, tag: string)
    requires Shape(b)
    ensures HandleEnd(b, tag).nodes == b.nodes
  {
    hide FindOpen;
  }

  lemma EventReads(b: Builder, e: Event)
    requires Shape(b) && Inv(b) && ValidEvent(e) && Handle(b, e).Some?
    ensures Inv(Handle(b, e).value)
    ensures PreOrder(Handle(b, e).value.nodes, 0)
      == PreOrder(b.nodes, 0) + if e.Data? then [Read(e.data)] else if e.End? then [] else [Opened(e.tag)]
  {
    EventKeepsInv(b, e);
    hide Rooted, PathsFit, Shallow, CountsFit, ImpliedClosesHappened, RightSpine, ElemAt, PreOrder,
      HandleStart, HandleData,
      HandleEnd, VoidTag;
    match e
    case Data(data) => TextReads(b, data);
    case End(tag) => EndKeepsNodes(b, tag);
    case Start(tag, attrs) => StartReads(b, tag, attrs);
    case StartEnd(tag, attrs) =>
      StartReads(b, tag, attrs);
      EndKeepsNodes(HandleStart(b, tag, attrs).value, tag);
  }

  lemma NewNodeReads(b: Builder, tag: string, attrs: map<string, string>)
    requires Inv(b) && Inv(AddNode(b, tag, attrs))
    ensures PreOrder(AddNode(b, tag, attrs).nodes, 0) == PreOrder(b.nodes, 0) + [Opened(tag)]
  {
    var nodes', id, at := AddNode(b, tag, attrs).nodes, |b.nodes|, b.stack[|b.stack| - 1];
    var n := |b.nodes[at].children|;
    AddNodeParts(b, tag, attrs);
    hide AddNode, PathsFit, Shallow, CountsFit, ImpliedClosesHappened, Tally, StepText, ChildPath;
    SpineReads(b, Elem(id), [nodes'[id]], 0);
    assert PreOrderOf(nodes', id, 0) == [];
    assert PreOrder(nodes', id) == [Opened(tag)];
    assert nodes'[at].children[n] == Elem(id);
  }

  lemma StartReads(b: Builder, tag: string, attrs: map<string, string>)
    requires Shape(b) && Inv(b) && '>' !in tag && HandleStart(b, tag, attrs).Some?
    ensures Inv(HandleStart(b, tag, attrs).value)
    ensures PreOrder(HandleStart(b, tag, attrs).value.nodes, 0) == PreOrder(b.nodes, 0) + [Opened(tag)]
  {
    StartKeepsInv(b, tag, attrs);
    var b1 := if DroppedTag(tag) then b.(dropped := b.dropped[tag := Tally(b.dropped, tag) + 1]) else b;
    DroppedKeepsInv(b, b1.dropped);
    var b2 := Cut(b1, OpenDepth(b1, |b1.stack|, tag));
    CutKeepsInv(b1, OpenDepth(b1, |b1.stack|, tag));
    hide PathsFit, Shallow, CountsFit, ImpliedClosesHappened, RightSpine, DroppedTag, ImpliesClose, Tally, AddNode;
    NewNodeReads(b2, tag, attrs);
  }

  // Reading the tree in pre-order gives back every start and every piece of text, once and in document order.
  lemma {:induction false} TreeReadsBack(es: seq<Event>)
    requires (forall e | e in es :: ValidEvent(e)) && Feed(es).Some?
    ensures Inv(Feed(es).value)
    ensures PreOrder(Feed(es).value.nodes, 0) == Document(es)
  {
    if es == [] {
      NewBuilderInv();
    } else {
      TreeReadsBack(es[..|es| - 1]);
      hide Inv, Handle, PreOrder, Rooted;
      EventReads(Feed(es[..|es| - 1]).value, es[|es| - 1]);
    }
  }

  // Every accepted document: each node has its own address, which leads back to it, within the depth cap, and
  // no element stands inside one that its start tag closes.
  lemma ParsedTreeIsAddressable(es: seq<Event>)
    requires (forall e | e in es :: ValidEvent(e)) && Feed(es).Some?
    ensures var nodes := Feed(es).value.nodes;
      && (forall j | 0 <= j < |nodes| :: Resolve(nodes, nodes[j].path) == Some(j))
      && (forall i, j | 0 <= i < j < |nodes| :: nodes[i].path != nodes[j].path)
      && (forall j | 0 <= j < |nodes| :: |Segments(nodes[j].path)| <= MAX_DOM_DEPTH)
      && ImpliedClosesHappened(nodes)
  {
    FeedKeepsInv(es);
    var nodes := Feed(es).value.nodes;
    hide Feed, RightSpine, CountsFit, ImpliedClosesHappened, Resolve, Segments;
    forall j | 0 <= j < |nodes| ensures Resolve(nodes, nodes[j].path) == Some(j) {
      PathResolves(nodes, j);
    }
  }
}

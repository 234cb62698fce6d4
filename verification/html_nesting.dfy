/** Which elements the tree builder leaves open, and that well-nested markup is rebuilt exactly. */
module HtmlNesting {
  import opened Wrappers
  import opened HtmlTree

  // ---- one event ----

  function OpenTag(b: Builder, k: nat): string
    requires Shape(b) && k < |b.stack|
  {
    b.nodes[b.stack[k]].tag
  }

  // b' is b with the elements open beyond the depth closed.
  predicate ClosedFrom(b: Builder, b': Builder, depth: nat)
    requires depth <= |b.stack| && depth <= |b.counts|
  {
    && b'.nodes == b.nodes && b'.dropped == b.dropped
    && b'.stack == b.stack[..depth] && b'.counts == b.counts[..depth]
  }

  // The innermost open element with the tag, the root apart.
  ghost predicate Innermost(b: Builder, tag: string, k: nat)
    requires Shape(b)
  {
    0 < k < |b.stack| && OpenTag(b, k) == tag && forall j | k < j < |b.stack| :: OpenTag(b, j) != tag
  }

  lemma {:induction false} FindOpenExactly(b: Builder, depth: nat, tag: string)
    requires Shape(b) && 1 <= depth <= |b.stack|
    ensures var d := FindOpen(b, depth, tag);
      && (d > 0 ==> OpenTag(b, d) == tag)
      && forall j | d < j < depth :: OpenTag(b, j) != tag
  {
    if depth > 1 && OpenTag(b, depth - 1) != tag {
      FindOpenExactly(b, depth - 1, tag);
    }
  }

  // An end tag closes the innermost open element with its tag and all that was opened since, and nothing if there is
  // none.
  lemma EndClosesInnermost(b: Builder, tag: string)
    requires Shape(b)
    ensures forall k: nat | Innermost(b, tag, k) :: ClosedFrom(b, HandleEnd(b, tag), k)
    ensures (forall k | 0 < k < |b.stack| :: OpenTag(b, k) != tag) ==> HandleEnd(b, tag) == b
  {
    var d := FindOpen(b, |b.stack|, tag);
    FindOpenExactly(b, |b.stack|, tag);
    forall k: nat | Innermost(b, tag, k) ensures k == d {
    }
  }

  // Which start tags close which open elements.
  lemma ImpliesCloseExactly(open: string, tag: string)
    ensures ImpliesClose(open, tag) <==>
      || (open in {"p", "h1", "h2", "h3", "h4", "h5", "h6"}
          && tag in {"address", "article", "aside", "blockquote", "div", "dl", "fieldset", "figure", "footer",
                     "h1", "h2", "h3", "h4", "h5", "h6", "header", "hr", "main", "nav", "ol", "p", "pre", "section",
                     "table", "ul"})
      || (open, tag) in {("li", "li"), ("dt", "dt"), ("dt", "dd"), ("dd", "dt"), ("dd", "dd"),
                         ("td", "td"), ("td", "th"), ("td", "tr"), ("th", "td"), ("th", "th"), ("th", "tr"),
                         ("tr", "tr")}
  {
  }

  lemma {:induction false} OpenDepthExactly(b: Builder, depth: nat, tag: string)
    requires Shape(b) && 1 <= depth <= |b.stack|
    ensures var d := OpenDepth(b, depth, tag);
      && (d > 1 ==> !ImpliesClose(OpenTag(b, d - 1), tag))
      && forall j | d <= j < depth :: ImpliesClose(OpenTag(b, j), tag)
  {
    hide ImpliesClose;
    if depth > 1 && ImpliesClose(OpenTag(b, depth - 1), tag) {
      OpenDepthExactly(b, depth - 1, tag);
    }
  }

  // How many elements, the root among them, a start tag leaves open before its own: it closes from the innermost on, as
  // long as it implies so, and never the root.
  ghost predicate StaysOpen(b: Builder, tag: string, depth: nat)
    requires Shape(b)
  {
    && 1 <= depth <= |b.stack|
    && (depth > 1 ==> !ImpliesClose(OpenTag(b, depth - 1), tag))
    && (forall j | depth <= j < |b.stack| :: ImpliesClose(OpenTag(b, j), tag))
  }

  lemma AboveIsClosed(b: Builder, tag: string, depth: nat, e: nat)
    requires Shape(b) && StaysOpen(b, tag, depth)
    ensures depth < e <= |b.stack| ==> ImpliesClose(OpenTag(b, e - 1), tag)
  {
    hide ImpliesClose;
  }

  lemma OneStaysOpen(b: Builder, tag: string, d: nat, e: nat)
    requires Shape(b) && StaysOpen(b, tag, d) && StaysOpen(b, tag, e)
    ensures d == e
  {
    hide ImpliesClose;
    AboveIsClosed(b, tag, d, e);
    AboveIsClosed(b, tag, e, d);
  }

  // b' is b with one more element, the last child of the innermost open one, which is open itself unless it is void.
  ghost predicate OneMore(b: Builder, b': Builder, tag: string, attrs: map<string, string>)
    requires Shape(b)
  {
    var id, parent := |b.nodes|, b.stack[|b.stack| - 1];
    && |b'.nodes| == id + 1
    && (forall i | 0 <= i < id && i != parent :: b'.nodes[i] == b.nodes[i])
    && b'.nodes[parent] == b.nodes[parent].(children := b.nodes[parent].children + [Elem(id)])
    && b'.nodes[id].tag == tag && b'.nodes[id].attrs == attrs && b'.nodes[id].children == []
    && b'.stack == b.stack + if VoidTag(tag) then [] else [id]
  }

  lemma AddsOne(b: Builder, tag: string, attrs: map<string, string>)
    requires Shape(b)
    ensures OneMore(b, AddNode(b, tag, attrs), tag, attrs)
  {
    AddNodeParts(b, tag, attrs);
    AddNodeStack(b, tag, attrs);
    hide AddNode, VoidTag, StepText, ChildPath, Counted, Tally;
    assert b.stack + [] == b.stack;
  }

  // A start tag closes exactly what it implies and is refused exactly when too much stays open; otherwise its element
  // becomes the last child of the innermost one left open.
  lemma StartOpensChild(b: Builder, tag: string, attrs: map<string, string>, depth: nat)
    requires Shape(b) && StaysOpen(b, tag, depth)
    ensures var r := HandleStart(b, tag, attrs);
      && (r.None? <==> depth > MAX_DOM_DEPTH)
      && (r.Some? ==> OneMore(Cut(b, depth), r.value, tag, attrs))
  {
    hide ImpliesClose, DroppedTag, AddNode, Tally, OneMore, StaysOpen, OpenDepth;
    var b1 := if DroppedTag(tag) then b.(dropped := b.dropped[tag := Tally(b.dropped, tag) + 1]) else b;
    var d := OpenDepth(b1, |b1.stack|, tag);
    SameDepth(b, b1, tag, d);
    OneStaysOpen(b, tag, d, depth);
    AddsOne(Cut(b1, d), tag, attrs);
    SameNodes(Cut(b, d), Cut(b1, d), AddNode(Cut(b1, d), tag, attrs), tag, attrs);
  }

  lemma SameDepth(b: Builder, b1: Builder, tag: string, d: nat)
    requires Shape(b) && Shape(b1) && b1.nodes == b.nodes && b1.stack == b.stack && d == OpenDepth(b1, |b1.stack|, tag)
    ensures StaysOpen(b, tag, d)
  {
    hide ImpliesClose;
    OpenDepthExactly(b1, |b1.stack|, tag);
    assert forall j | 0 <= j < |b.stack| :: OpenTag(b1, j) == OpenTag(b, j);
  }

  lemma SameNodes(b: Builder, b1: Builder, b': Builder, tag: string, attrs: map<string, string>)
    requires Shape(b) && Shape(b1) && b1.nodes == b.nodes && b1.stack == b.stack && OneMore(b1, b', tag, attrs)
    ensures OneMore(b, b', tag, attrs)
  {
  }

  // ---- well-nested markup ----

  // Markup as a tree; a forest is its elements and texts in order.
  datatype Tree =
    | Text(data: string)
    | Leaf(tag: string, attrs: map<string, string>, selfClosing: bool)
    | Element(tag: string, attrs: map<string, string>, children: Forest)

  datatype Forest = Empty | Then(before: Forest, last: Tree)

  // The events of the markup: an element has its start and end tag, a leaf one tag, which is self-closing or void.
  function TreeEvents(t: Tree): seq<Event> {
    match t
    case Text(data) => [Data(data)]
    case Leaf(tag, attrs, selfClosing) => [if selfClosing then StartEnd(tag, attrs) else Start(tag, attrs)]
    case Element(tag, attrs, children) => [Start(tag, attrs)] + ForestEvents(children) + [End(tag)]
  }

  function ForestEvents(f: Forest): seq<Event> {
    match f
    case Empty => []
    case Then(before, last) => ForestEvents(before) + TreeEvents(last)
  }

  // How deep elements are nested.
  function TreeHeight(t: Tree): nat {
    match t
    case Text(_) => 0
    case Leaf(_, _, _) => 1
    case Element(_, _, children) => 1 + ForestHeight(children)
  }

  function ForestHeight(f: Forest): nat {
    match f
    case Empty => 0
    case Then(before, last) =>
      if ForestHeight(before) < TreeHeight(last) then TreeHeight(last) else ForestHeight(before)
  }

  // Void elements have no children, and no element stands inside one its start tag closes; the root, None here, is
  // never closed.
  predicate WellNested(parent: Option<string>, t: Tree)
    decreases t
  {
    match t
    case Text(_) => true
    case Leaf(tag, _, selfClosing) =>
      && (selfClosing || VoidTag(tag))
      && (parent.Some? ==> !ImpliesClose(parent.value, tag))
    case Element(tag, _, children) =>
      && !VoidTag(tag)
      && (parent.Some? ==> !ImpliesClose(parent.value, tag))
      && AllWellNested(Some(tag), children)
  }

  predicate AllWellNested(parent: Option<string>, f: Forest)
    decreases f
  {
    match f
    case Empty => true
    case Then(before, last) => AllWellNested(parent, before) && WellNested(parent, last)
  }

  // A child of a node is the tree, all nodes below it being at least as young as base.
  ghost predicate IsTree(nodes: seq<Node>, base: nat, child: Child, t: Tree)
    decreases t
  {
    match t
    case Text(data) => child == Chars(data)
    case Leaf(tag, attrs, _) =>
      && child.Elem? && base <= child.node < |nodes|
      && nodes[child.node].tag == tag && nodes[child.node].attrs == attrs && nodes[child.node].children == []
    case Element(tag, attrs, children) =>
      && child.Elem? && base <= child.node < |nodes|
      && nodes[child.node].tag == tag && nodes[child.node].attrs == attrs
      && AreForest(nodes, base, nodes[child.node].children, children)
  }

  ghost predicate AreForest(nodes: seq<Node>, base: nat, children: seq<Child>, f: Forest)
    decreases f
  {
    match f
    case Empty => children == []
    case Then(before, last) =>
      && children != []
      && AreForest(nodes, base, children[..|children| - 1], before)
      && IsTree(nodes, base, children[|children| - 1], last)
  }

  function FeedFrom(b: Builder, es: seq<Event>): (r: Option<Builder>)
    requires Shape(b)
    ensures r.Some? ==> Shape(r.value)
  {
    if es == [] then Some(b)
    else
      var before := FeedFrom(b, es[..|es| - 1]);
      if before.None? then None else Handle(before.value, es[|es| - 1])
  }

  lemma {:induction false} FeedIsFeedFrom(es: seq<Event>)
    requires Shape(NEW_BUILDER)
    ensures Feed(es) == FeedFrom(NEW_BUILDER, es)
  {
    hide Handle;
    if es != [] {
      FeedIsFeedFrom(es[..|es| - 1]);
    }
  }

  lemma {:induction false} FeedSplits(b: Builder, first: seq<Event>, later: seq<Event>)
    requires Shape(b)
    ensures FeedFrom(b, first + later)
      == if FeedFrom(b, first).None? then None else FeedFrom(FeedFrom(b, first).value, later)
  {
    hide Handle;
    if later == [] {
      assert first + later == first;
    } else {
      var es, init := first + later, later[..|later| - 1];
      assert es[..|es| - 1] == first + init;
      FeedSplits(b, first, init);
    }
  }

  lemma FeedOne(b: Builder, e: Event)
    requires Shape(b)
    ensures FeedFrom(b, [e]) == Handle(b, e)
  {
    assert [e][..0] == [];
  }

  // b' is b with more children under the innermost open element, and otherwise as it was.
  ghost predicate Grown(b: Builder, b': Builder)
    requires Shape(b)
  {
    var at := b.stack[|b.stack| - 1];
    && Shape(b') && b'.stack == b.stack && |b.nodes| <= |b'.nodes|
    && (forall i | 0 <= i < |b.nodes| && i != at :: b'.nodes[i] == b.nodes[i])
    && b'.nodes[at].tag == b.nodes[at].tag && b'.nodes[at].attrs == b.nodes[at].attrs
    && b.nodes[at].children <= b'.nodes[at].children
  }

  function NewChildren(b: Builder, b': Builder): seq<Child>
    requires Shape(b) && Grown(b, b')
  {
    var at := b.stack[|b.stack| - 1];
    b'.nodes[at].children[|b.nodes[at].children|..]
  }

  // The innermost open element, unless it is the root.
  function Parent(b: Builder): Option<string>
    requires Shape(b)
  {
    if |b.stack| == 1 then None else Some(OpenTag(b, |b.stack| - 1))
  }

  ghost predicate Fits(b: Builder, height: nat) {
    |b.stack| - 1 + height <= MAX_DOM_DEPTH
  }

  // ---- frames ----

  // Nothing at least as young as base was changed.
  ghost predicate KeepsYoung(nodes: seq<Node>, nodes': seq<Node>, base: nat) {
    |nodes| <= |nodes'| && forall i | base <= i < |nodes| :: nodes'[i] == nodes[i]
  }

  lemma {:induction false} TreeFrame(nodes: seq<Node>, nodes': seq<Node>, base: nat, base': nat, child: Child, t: Tree)
    requires IsTree(nodes, base, child, t) && KeepsYoung(nodes, nodes', base) && base' <= base
    ensures IsTree(nodes', base', child, t)
    decreases t
  {
    match t
    case Text(_) =>
    case Leaf(_, _, _) =>
    case Element(_, _, children) =>
      ForestFrame(nodes, nodes', base, base', nodes[child.node].children, children);
  }

  lemma {:induction false} ForestFrame(
    nodes: seq<Node>, nodes': seq<Node>, base: nat, base': nat, children: seq<Child>, f: Forest)
    requires AreForest(nodes, base, children, f) && KeepsYoung(nodes, nodes', base) && base' <= base
    ensures AreForest(nodes', base', children, f)
    decreases f
  {
    match f
    case Empty =>
    case Then(before, last) =>
      ForestFrame(nodes, nodes', base, base', children[..|children| - 1], before);
      TreeFrame(nodes, nodes', base, base', children[|children| - 1], last);
  }

  lemma ForestThen(nodes: seq<Node>, base: nat, children: seq<Child>, child: Child, before: Forest, last: Tree)
    requires AreForest(nodes, base, children, before) && IsTree(nodes, base, child, last)
    ensures AreForest(nodes, base, children + [child], Then(before, last))
  {
    assert (children + [child])[..|children|] == children;
  }

  lemma GrownTwice(b: Builder, b1: Builder, b2: Builder)
    requires Shape(b) && Grown(b, b1) && Grown(b1, b2)
    ensures Grown(b, b2) && NewChildren(b, b2) == NewChildren(b, b1) + NewChildren(b1, b2)
    ensures Parent(b1) == Parent(b)
  {
  }

  // ---- the law ----

  lemma ElementEvents(b: Builder, tag: string, attrs: map<string, string>, children: Forest)
    requires Shape(b)
    ensures FeedFrom(b, TreeEvents(Element(tag, attrs, children)))
      == var r := HandleStart(b, tag, attrs);
         if r.None? then None
         else
           var inner := FeedFrom(r.value, ForestEvents(children));
           if inner.None? then None else Some(HandleEnd(inner.value, tag))
  {
    hide HandleStart, HandleEnd, FeedFrom;
    var inner := ForestEvents(children);
    FeedSplits(b, [Start(tag, attrs)] + inner, [End(tag)]);
    FeedSplits(b, [Start(tag, attrs)], inner);
    FeedOne(b, Start(tag, attrs));
    var r := HandleStart(b, tag, attrs);
    if r.Some? && FeedFrom(r.value, inner).Some? {
      FeedOne(FeedFrom(r.value, inner).value, End(tag));
    }
  }

  lemma StartsElement(b: Builder, tag: string, attrs: map<string, string>)
    requires Shape(b) && !VoidTag(tag) && (Parent(b).Some? ==> !ImpliesClose(Parent(b).value, tag))
    ensures var r := HandleStart(b, tag, attrs);
      && (r.Some? <==> |b.stack| <= MAX_DOM_DEPTH)
      && (r.Some? ==>
          && OneMore(b, r.value, tag, attrs)
          && Parent(r.value) == Some(tag) && |r.value.stack| == |b.stack| + 1)
  {
    hide HandleStart, VoidTag, ImpliesClose;
    StartOpensChild(b, tag, attrs, |b.stack|);
    assert Cut(b, |b.stack|) == b;
  }

  lemma EndsElement(b: Builder, b1: Builder, b2: Builder, tag: string, attrs: map<string, string>, children: Forest)
    requires Shape(b) && Shape(b1) && OneMore(b, b1, tag, attrs) && !VoidTag(tag)
    requires Grown(b1, b2) && AreForest(b2.nodes, |b1.nodes|, NewChildren(b1, b2), children)
    ensures var b3 := HandleEnd(b2, tag);
      && Grown(b, b3) && |NewChildren(b, b3)| == 1
      && IsTree(b3.nodes, |b.nodes|, NewChildren(b, b3)[0], Element(tag, attrs, children))
  {
    var b3, id := HandleEnd(b2, tag), |b.nodes|;
    hide HandleEnd, VoidTag, AreForest;
    EndClosesInnermost(b2, tag);
    assert Innermost(b2, tag, |b.stack|);
    assert b3.stack == b.stack;
    assert NewChildren(b1, b2) == b2.nodes[id].children;
    ForestFrame(b2.nodes, b3.nodes, |b1.nodes|, id, b2.nodes[id].children, children);
    assert NewChildren(b, b3) == [Elem(id)];
  }

  lemma LeafGrows(b: Builder, tag: string, attrs: map<string, string>, selfClosing: bool)
    requires Shape(b) && |b.stack| <= MAX_DOM_DEPTH + 1 && WellNested(Parent(b), Leaf(tag, attrs, selfClosing))
    ensures var t := Leaf(tag, attrs, selfClosing); var r := FeedFrom(b, TreeEvents(t));
      && (r.Some? <==> Fits(b, 1))
      && (r.Some? ==> Grown(b, r.value) && |NewChildren(b, r.value)| == 1
                      && IsTree(r.value.nodes, |b.nodes|, NewChildren(b, r.value)[0], t))
  {
    hide HandleStart, HandleEnd, ImpliesClose, VoidTag, FeedFrom, OneMore, Grown, NewChildren;
    FeedOne(b, Start(tag, attrs));
    FeedOne(b, StartEnd(tag, attrs));
    StartOpensChild(b, tag, attrs, |b.stack|);
    assert Cut(b, |b.stack|) == b;
    if HandleStart(b, tag, attrs).Some? {
      var b1 := HandleStart(b, tag, attrs).value;
      ClosesLeaf(b, b1, if VoidTag(tag) then b1 else HandleEnd(b1, tag), tag, attrs, selfClosing);
    }
  }

  lemma ClosesLeaf(
    b: Builder, b1: Builder, b2: Builder, tag: string, attrs: map<string, string>, selfClosing: bool)
    requires Shape(b) && Shape(b1) && Shape(b2) && OneMore(b, b1, tag, attrs)
    requires b2 == if VoidTag(tag) then b1 else HandleEnd(b1, tag)
    ensures Grown(b, b2) && |NewChildren(b, b2)| == 1
    ensures IsTree(b2.nodes, |b.nodes|, NewChildren(b, b2)[0], Leaf(tag, attrs, selfClosing))
  {
    hide HandleEnd, VoidTag;
    if !VoidTag(tag) {
      EndClosesInnermost(b1, tag);
      assert Innermost(b1, tag, |b.stack|);
    }
    assert b2.stack == b.stack && b2.nodes == b1.nodes;
    assert NewChildren(b, b2) == [Elem(|b.nodes|)];
  }

  // Feeding the events of well-nested markup succeeds exactly when it fits under the cap, leaves open what was open,
  // and puts the markup, node by node, under the innermost open element.
  lemma {:induction false} TreeGrows(b: Builder, t: Tree)
    requires Shape(b) && |b.stack| <= MAX_DOM_DEPTH + 1 && WellNested(Parent(b), t)
    ensures var r := FeedFrom(b, TreeEvents(t));
      && (r.Some? <==> Fits(b, TreeHeight(t)))
      && (r.Some? ==> Grown(b, r.value) && |NewChildren(b, r.value)| == 1
                      && IsTree(r.value.nodes, |b.nodes|, NewChildren(b, r.value)[0], t))
    decreases t
  {
    match t
    case Text(data) =>
      FeedOne(b, Data(data));
    case Leaf(tag, attrs, selfClosing) =>
      LeafGrows(b, tag, attrs, selfClosing);
    case Element(tag, attrs, children) =>
      hide FeedFrom, HandleStart, HandleEnd, Grown, OneMore, AreForest, IsTree, VoidTag, ImpliesClose, TreeEvents,
        ForestEvents, ForestHeight, Parent, NewChildren;
      ElementEvents(b, tag, attrs, children);
      StartsElement(b, tag, attrs);
      if HandleStart(b, tag, attrs).Some? {
        var b1 := HandleStart(b, tag, attrs).value;
        ForestGrows(b1, children);
        if FeedFrom(b1, ForestEvents(children)).Some? {
          EndsElement(b, b1, FeedFrom(b1, ForestEvents(children)).value, tag, attrs, children);
        }
      }
  }

  lemma {:induction false} ForestGrows(b: Builder, f: Forest)
    requires Shape(b) && |b.stack| <= MAX_DOM_DEPTH + 1 && AllWellNested(Parent(b), f)
    ensures var r := FeedFrom(b, ForestEvents(f));
      && (r.Some? <==> Fits(b, ForestHeight(f)))
      && (r.Some? ==> Grown(b, r.value) && AreForest(r.value.nodes, |b.nodes|, NewChildren(b, r.value), f))
    decreases f
  {
    match f
    case Empty =>
    case Then(before, last) =>
      hide FeedFrom, Grown, AreForest, IsTree, WellNested, TreeEvents, Parent, NewChildren;
      FeedSplits(b, ForestEvents(before), TreeEvents(last));
      ForestGrows(b, before);
      if FeedFrom(b, ForestEvents(before)).Some? {
        var b1 := FeedFrom(b, ForestEvents(before)).value;
        SameParent(b, b1);
        TreeGrows(b1, last);
        if FeedFrom(b1, TreeEvents(last)).Some? {
          var b2 := FeedFrom(b1, TreeEvents(last)).value;
          Extended(b, b1, b2, before, last);
        }
      }
  }

  lemma SameParent(b: Builder, b1: Builder)
    requires Shape(b) && Grown(b, b1)
    ensures Shape(b1) && Parent(b1) == Parent(b) && |b1.stack| == |b.stack|
  {
  }

  lemma Extended(b: Builder, b1: Builder, b2: Builder, before: Forest, last: Tree)
    requires Shape(b) && Grown(b, b1) && Grown(b1, b2) && |NewChildren(b1, b2)| == 1
    requires AreForest(b1.nodes, |b.nodes|, NewChildren(b, b1), before)
    requires IsTree(b2.nodes, |b1.nodes|, NewChildren(b1, b2)[0], last)
    ensures Grown(b, b2) && AreForest(b2.nodes, |b.nodes|, NewChildren(b, b2), Then(before, last))
  {
    hide AreForest, IsTree;
    assert KeepsYoung(b1.nodes, b2.nodes, |b.nodes|);
    GrownTwice(b, b1, b2);
    var child := NewChildren(b1, b2)[0];
    assert NewChildren(b1, b2) == [child];
    ForestFrame(b1.nodes, b2.nodes, |b.nodes|, |b.nodes|, NewChildren(b, b1), before);
    assert KeepsYoung(b2.nodes, b2.nodes, |b1.nodes|);
    TreeFrame(b2.nodes, b2.nodes, |b1.nodes|, |b.nodes|, child, last);
    ForestThen(b2.nodes, |b.nodes|, NewChildren(b, b1), child, before, last);
  }

  // The root's children are the markup's trees, and nothing is left open.
  ghost predicate Rebuilds(b: Builder, f: Forest) {
    b.stack == [0] && b.nodes != [] && AreForest(b.nodes, 1, b.nodes[0].children, f)
  }

  // Well-nested markup is parsed exactly when it is not nested deeper than the cap, leaves nothing open, and is rebuilt
  // under the root, parent by parent.
  lemma WellNestedIsRebuilt(f: Forest)
    requires AllWellNested(None, f)
    ensures Feed(ForestEvents(f)).Some? <==> ForestHeight(f) <= 100
    ensures Feed(ForestEvents(f)).Some? ==> Rebuilds(Feed(ForestEvents(f)).value, f)
  {
    hide FeedFrom, AllWellNested, AreForest, ForestEvents, ForestHeight;
    FeedIsFeedFrom(ForestEvents(f));
    ForestGrows(NEW_BUILDER, f);
    if Feed(ForestEvents(f)).Some? {
      var b := Feed(ForestEvents(f)).value;
      assert NewChildren(NEW_BUILDER, b) == b.nodes[0].children;
    }
  }

  // Markup with every leaf written as an element without children.
  function PlainTree(t: Tree): Tree {
    match t
    case Text(data) => t
    case Leaf(tag, attrs, _) => Element(tag, attrs, Empty)
    case Element(tag, attrs, children) => Element(tag, attrs, PlainForest(children))
  }

  function PlainForest(f: Forest): Forest {
    match f
    case Empty => Empty
    case Then(before, last) => Then(PlainForest(before), PlainTree(last))
  }

  // What the nodes show is one markup only, up to how elements without children are written.
  lemma {:induction false} OneTree(nodes: seq<Node>, base: nat, child: Child, t: Tree, u: Tree)
    requires IsTree(nodes, base, child, t) && IsTree(nodes, base, child, u)
    ensures PlainTree(t) == PlainTree(u)
    decreases t
  {
    match t
    case Text(_) =>
    case Leaf(_, _, _) =>
      if u.Element? {
        NoChildrenNoForest(nodes, base, u.children);
      }
    case Element(_, _, children) =>
      if u.Element? {
        OneForest(nodes, base, nodes[child.node].children, children, u.children);
      } else {
        NoChildrenNoForest(nodes, base, children);
      }
  }

  lemma NoChildrenNoForest(nodes: seq<Node>, base: nat, f: Forest)
    requires AreForest(nodes, base, [], f)
    ensures f == Empty
  {
  }

  lemma {:induction false} OneForest(nodes: seq<Node>, base: nat, children: seq<Child>, f: Forest, g: Forest)
    requires AreForest(nodes, base, children, f) && AreForest(nodes, base, children, g)
    ensures PlainForest(f) == PlainForest(g)
    decreases f
  {
    match f
    case Empty =>
    case Then(before, last) =>
      OneForest(nodes, base, children[..|children| - 1], before, g.before);
      OneTree(nodes, base, children[|children| - 1], last, g.last);
  }

  // So well-nested markup that differs otherwise never parses to the same tree.
  lemma ParseIsInjective(f: Forest, g: Forest)
    requires AllWellNested(None, f) && AllWellNested(None, g)
    requires Feed(ForestEvents(f)).Some? && Feed(ForestEvents(f)) == Feed(ForestEvents(g))
    ensures PlainForest(f) == PlainForest(g)
  {
    hide Feed, AllWellNested, AreForest, ForestEvents, ForestHeight, PlainForest;
    WellNestedIsRebuilt(f);
    WellNestedIsRebuilt(g);
    var nodes := Feed(ForestEvents(f)).value.nodes;
    OneForest(nodes, 1, nodes[0].children, f, g);
  }

  // ---- what is reported as dropped ----

  // The events that start an element whose content is left out.
  function DroppedStarts(es: seq<Event>, tag: string): set<nat> {
    set k: nat | k < |es| && (es[k].Start? || es[k].StartEnd?) && es[k].tag == tag
      && tag in {"script", "style", "iframe", "object", "embed", "applet", "svg", "canvas", "audio", "video", "form",
                 "input", "button", "select", "textarea", "noscript", "template", "link", "meta", "base", "head"}
  }

  lemma DroppedByStart(b: Builder, started: string, attrs: map<string, string>, tag: string)
    requires Shape(b) && HandleStart(b, started, attrs).Some?
    ensures Tally(HandleStart(b, started, attrs).value.dropped, tag)
      == Tally(b.dropped, tag) + if started == tag && DroppedTag(tag) then 1 else 0
  {
    hide DroppedTag, VoidTag, ImpliesClose, OpenDepth, StepText, ChildPath, Counted;
  }

  lemma DroppedByEnd(b: Builder, tag: string)
    requires Shape(b)
    ensures HandleEnd(b, tag).dropped == b.dropped
  {
    hide FindOpen;
  }

  lemma DroppedByOne(b: Builder, e: Event, tag: string)
    requires Shape(b) && Handle(b, e).Some?
    ensures Tally(Handle(b, e).value.dropped, tag) == Tally(b.dropped, tag)
      + if (e.Start? || e.StartEnd?) && e.tag == tag && DroppedTag(tag) then 1 else 0
  {
    hide DroppedTag, VoidTag, HandleStart, HandleEnd, Tally;
    match e
    case Start(started, attrs) =>
      DroppedByStart(b, started, attrs, tag);
    case StartEnd(started, attrs) =>
      DroppedByStart(b, started, attrs, tag);
      DroppedByEnd(HandleStart(b, started, attrs).value, started);
    case End(ended) =>
      DroppedByEnd(b, ended);
    case Data(_) =>
  }

  // Each of these elements is counted as often as it starts.
  lemma {:induction false} DroppedAreCounted(es: seq<Event>, tag: string)
    requires Feed(es).Some?
    ensures Tally(Feed(es).value.dropped, tag) == |DroppedStarts(es, tag)|
  {
    if es == [] {
      assert DroppedStarts(es, tag) == {};
    } else {
      var n := |es| - 1;
      DroppedAreCounted(es[..n], tag);
      DroppedByOne(Feed(es[..n]).value, es[n], tag);
      DroppedNext(es, tag);
      hide Handle, DroppedStarts, Tally, DroppedTag;
    }
  }

  lemma DroppedNext(es: seq<Event>, tag: string)
    requires es != []
    ensures var e := es[|es| - 1];
      |DroppedStarts(es, tag)| == |DroppedStarts(es[..|es| - 1], tag)|
        + if (e.Start? || e.StartEnd?) && e.tag == tag && DroppedTag(tag) then 1 else 0
  {
    var n := |es| - 1;
    var before, after := DroppedStarts(es[..n], tag), DroppedStarts(es, tag);
    assert n !in before;
    var counted := (es[n].Start? || es[n].StartEnd?) && es[n].tag == tag && DroppedTag(tag);
    assert after == before + if counted then {n} else {};
  }
}

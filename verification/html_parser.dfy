/** The tree builder as the parser object runs it: nodes are objects whose children are updated in place. */
module HtmlParser {
  import opened Wrappers
  import opened Decimal
  import opened HtmlTree
  import opened HtmlNesting

  datatype DomChild = DomText(data: string) | DomElement(element: DomNode)

  class DomNode {
    const tag: string
    const attrs: map<string, string>
    const path: string
    var children: seq<DomChild>

    constructor (tag: string, attrs: map<string, string>, path: string)
      ensures this.tag == tag && this.attrs == attrs && this.path == path && children == []
    {
      this.tag, this.attrs, this.path := tag, attrs, path;
      children := [];
    }
  }

  ghost predicate ChildShows(c: DomChild, m: Child, nodes: seq<DomNode>) {
    match c
    case DomText(data) => m == Chars(data)
    case DomElement(element) => m.Elem? && m.node < |nodes| && nodes[m.node] == element
  }

  ghost predicate Shows(n: DomNode, m: Node, nodes: seq<DomNode>)
    reads n
  {
    && n.tag == m.tag && n.attrs == m.attrs && n.path == m.path
    && |n.children| == |m.children|
    && forall p | 0 <= p < |m.children| :: ChildShows(n.children[p], m.children[p], nodes)
  }

  // The node objects, in creation order, show the tree.
  ghost predicate TreeShown(nodes: seq<DomNode>, tree: seq<Node>)
    reads nodes
  {
    && |nodes| == |tree|
    && (forall i, j | 0 <= i < j < |nodes| :: nodes[i] != nodes[j])
    && (forall i | 0 <= i < |nodes| :: Shows(nodes[i], tree[i], nodes))
  }

  ghost predicate StackShown(stack: seq<DomNode>, nodes: seq<DomNode>, indices: seq<nat>) {
    && |stack| == |indices|
    && (forall k | 0 <= k < |stack| :: indices[k] < |nodes| && stack[k] == nodes[indices[k]])
  }

  lemma ShownTag(stack: seq<DomNode>, nodes: seq<DomNode>, b: Builder, k: nat)
    requires Shape(b) && TreeShown(nodes, b.nodes) && StackShown(stack, nodes, b.stack) && k < |stack|
    ensures stack[k].tag == b.nodes[b.stack[k]].tag && stack[k].path == b.nodes[b.stack[k]].path
  {
    assert Shows(nodes[b.stack[k]], b.nodes[b.stack[k]], nodes);
  }

  lemma ShownDistinct(nodes: seq<DomNode>, tree: seq<Node>)
    requires TreeShown(nodes, tree)
    ensures |nodes| == |tree| && forall i, j | 0 <= i < j < |nodes| :: nodes[i] != nodes[j]
  {
  }

  lemma PushShown(stack: seq<DomNode>, nodes: seq<DomNode>, indices: seq<nat>, node: DomNode)
    requires StackShown(stack, nodes, indices)
    ensures StackShown(stack, nodes + [node], indices)
    ensures StackShown(stack + [node], nodes + [node], indices + [|nodes|])
  {
  }

  lemma TakeShorter<T>(s: seq<T>, n: nat)
    requires 0 < n <= |s|
    ensures s[..n][..n - 1] == s[..n - 1]
  {
  }

  lemma CutShown(stack: seq<DomNode>, nodes: seq<DomNode>, b: Builder, depth: nat)
    requires Shape(b) && StackShown(stack, nodes, b.stack) && 1 <= depth <= |stack|
    ensures StackShown(stack[..depth], nodes, Cut(b, depth).stack)
  {
  }

  ghost function ChildrenOf(nodes: seq<DomNode>): seq<seq<DomChild>>
    reads nodes
  {
    seq(|nodes|, i requires 0 <= i < |nodes| reads nodes => nodes[i].children)
  }

  // The tree, shown by the nodes' constants and by the children they had at some moment.
  ghost predicate TreeShownBy(nodes: seq<DomNode>, had: seq<seq<DomChild>>, tree: seq<Node>) {
    && |nodes| == |had| == |tree|
    && (forall i, j | 0 <= i < j < |nodes| :: nodes[i] != nodes[j])
    && (forall i | 0 <= i < |nodes| :: ShowsBy(nodes[i], had[i], tree[i], nodes))
  }

  ghost predicate ShowsBy(n: DomNode, children: seq<DomChild>, m: Node, nodes: seq<DomNode>) {
    && n.tag == m.tag && n.attrs == m.attrs && n.path == m.path
    && |children| == |m.children|
    && forall p | 0 <= p < |m.children| :: ChildShows(children[p], m.children[p], nodes)
  }

  lemma RememberChildren(nodes: seq<DomNode>, tree: seq<Node>)
    requires TreeShown(nodes, tree)
    ensures TreeShownBy(nodes, ChildrenOf(nodes), tree)
  {
    forall i | 0 <= i < |nodes| ensures ShowsBy(nodes[i], ChildrenOf(nodes)[i], tree[i], nodes) {
      assert Shows(nodes[i], tree[i], nodes);
    }
  }

  // A node object that was there before, which may be the one that gained the child.
  lemma OldNodeShows(
    node: DomNode, had: seq<DomChild>, was: Node, now: Node, gained: seq<DomChild>, shown: seq<Child>,
    nodes: seq<DomNode>, nodes': seq<DomNode>)
    requires ShowsBy(node, had, was, nodes) && nodes <= nodes' && node.children == had + gained
    requires now == was.(children := was.children + shown)
    requires |gained| == |shown| && forall k | 0 <= k < |gained| :: ChildShows(gained[k], shown[k], nodes')
    ensures Shows(node, now, nodes')
  {
    forall p | 0 <= p < |now.children| ensures ChildShows(node.children[p], now.children[p], nodes') {
      if p < |was.children| {
        assert ChildShows(had[p], was.children[p], nodes);
      }
    }
  }

  lemma NewNodeShows(node: DomNode, leaf: Node, nodes: seq<DomNode>, nodes': seq<DomNode>)
    requires Shows(node, leaf, nodes) && leaf.children == []
    ensures Shows(node, leaf, nodes')
  {
  }

  lemma GrownNode(tree: seq<Node>, at: nat, shown: Child, leaf: seq<Node>, i: nat)
    requires at < |tree| && i < |tree| + |leaf|
    ensures var tree' := Grow(tree, at, shown, leaf);
      && |tree'| == |tree| + |leaf|
      && (i < |tree| ==> tree'[i] == tree[i].(children := tree[i].children + if i == at then [shown] else []))
      && (i >= |tree| ==> tree'[i] == leaf[i - |tree|])
  {
  }

  // One node object gained a child, and the objects show the tree that gained it.
  lemma AppendShows(
    nodes: seq<DomNode>, had: seq<seq<DomChild>>, tree: seq<Node>, at: nat, child: DomChild, shown: Child,
    added: seq<DomNode>, leaf: seq<Node>)
    requires TreeShownBy(nodes, had, tree) && at < |nodes|
    requires forall i | 0 <= i < |nodes| :: nodes[i].children == if i == at then had[i] + [child] else had[i]
    requires |added| == |leaf| <= 1 && forall n | n in added :: n !in nodes
    requires forall k | 0 <= k < |added| :: Shows(added[k], leaf[k], nodes) && leaf[k].children == []
    requires ChildShows(child, shown, nodes + added)
    ensures TreeShown(nodes + added, Grow(tree, at, shown, leaf))
  {
    hide Shows, ShowsBy, ChildShows, Grow;
    var nodes', tree' := nodes + added, Grow(tree, at, shown, leaf);
    forall i, j | 0 <= i < j < |nodes'| ensures nodes'[i] != nodes'[j] {
      assert j >= |nodes| ==> nodes'[j] in added;
    }
    GrownNode(tree, at, shown, leaf, at);
    forall i | 0 <= i < |nodes'| ensures Shows(nodes'[i], tree'[i], nodes') {
      GrownNode(tree, at, shown, leaf, i);
      if i < |nodes| {
        var gained, grown := if i == at then [child] else [], if i == at then [shown] else [];
        assert nodes[i].children == had[i] + gained;
        OldNodeShows(nodes[i], had[i], tree[i], tree'[i], gained, grown, nodes, nodes');
      } else {
        NewNodeShows(added[i - |nodes|], leaf[i - |nodes|], nodes, nodes');
      }
    }
  }

  // A new childless node shows a leaf with the same constants, and is the last of the nodes.
  lemma LeafShows(node: DomNode, leaf: Node, nodes: seq<DomNode>)
    requires node.tag == leaf.tag && node.attrs == leaf.attrs && node.path == leaf.path
    requires node.children == [] && leaf.children == []
    ensures Shows(node, leaf, nodes) && ChildShows(DomElement(node), Elem(|nodes|), nodes + [node])
  {
  }

  lemma AppendLeafShows(
    nodes: seq<DomNode>, had: seq<seq<DomChild>>, tree: seq<Node>, at: nat, node: DomNode, leaf: Node)
    requires TreeShownBy(nodes, had, tree) && at < |nodes| == |had| == |tree| && node !in nodes
    requires forall i | 0 <= i < |nodes| && i != at :: nodes[i].children == had[i]
    requires nodes[at].children == had[at] + [DomElement(node)]
    requires node.tag == leaf.tag && node.attrs == leaf.attrs && node.path == leaf.path
    requires node.children == [] && leaf.children == []
    ensures TreeShown(nodes + [node], Grow(tree, at, Elem(|tree|), [leaf]))
  {
    hide TreeShown, TreeShownBy, Grow, Shows, ChildShows;
    LeafShows(node, leaf, nodes);
    AppendShows(nodes, had, tree, at, DomElement(node), Elem(|tree|), [node], [leaf]);
  }

  lemma OpenDepthStep(b: Builder, depth: nat, tag: string)
    requires Shape(b) && 1 <= depth <= |b.stack|
    ensures OpenDepth(b, depth, tag)
      == if depth > 1 && ImpliesClose(b.nodes[b.stack[depth - 1]].tag, tag) then OpenDepth(b, depth - 1, tag) else depth
  {
    hide ImpliesClose;
  }

  lemma FindOpenStep(b: Builder, depth: nat, tag: string)
    requires Shape(b) && 1 <= depth <= |b.stack|
    ensures FindOpen(b, depth, tag)
      == if depth == 1 then 0
        else if b.nodes[b.stack[depth - 1]].tag == tag then depth - 1
        else FindOpen(b, depth - 1, tag)
  {
  }

  lemma EndOfFound(b: Builder, tag: string)
    requires Shape(b)
    ensures var d := FindOpen(b, |b.stack|, tag); HandleEnd(b, tag) == if d > 0 then Cut(b, d) else b
  {
  }

  class TreeParser {
    var stack: seq<DomNode>
    var counts: seq<map<string, nat>>
    var dropped: map<string, nat>
    // All nodes in creation order, and the tree they show.
    ghost var nodes: seq<DomNode>
    ghost var model: Builder

    ghost predicate Valid()
      reads this, nodes
    {
      && Shape(model)
      && TreeShown(nodes, model.nodes)
      && StackShown(stack, nodes, model.stack)
      && counts == model.counts && dropped == model.dropped
    }

    constructor ()
      ensures Valid() && fresh(nodes) && model == NEW_BUILDER
    {
      var document := new DomNode("document", map[], "");
      stack, counts, dropped := [document], [map[]], map[];
      nodes, model := [document], NEW_BUILDER;
    }

    // Creates the element under the innermost open one.
    method AttachElement(tag: string, attrs: map<string, string>, rank: nat) returns (node: DomNode)
      requires |stack| > 0
      modifies stack[|stack| - 1]
      ensures fresh(node) && node.children == []
      ensures node.tag == tag && node.attrs == attrs
      ensures node.path == ChildPath(stack[|stack| - 1].path, StepText(tag, rank))
      ensures stack[|stack| - 1].children == old(stack[|stack| - 1].children) + [DomElement(node)]
    {
      hide Show;
      var parent := stack[|stack| - 1];
      var step := tag + "[" + Show(rank) + "]";
      node := new DomNode(tag, attrs, if parent.path == "" then step else parent.path + ">" + step);
      parent.children := parent.children + [DomElement(node)];
    }

    // The same, seen from the tree the objects show.
    method AttachShown(tag: string, attrs: map<string, string>, rank: nat) returns (node: DomNode)
      requires Shape(model) && TreeShown(nodes, model.nodes) && StackShown(stack, nodes, model.stack)
      modifies nodes
      ensures fresh(node) && Shape(model)
      ensures var at := model.stack[|model.stack| - 1];
        at < |model.nodes| && TreeShown(nodes + [node], Grow(model.nodes, at, Elem(|model.nodes|),
          [Node(tag, attrs, [], ChildPath(model.nodes[at].path, StepText(tag, rank)))]))
    {
      hide *;
      BeforeAttaching();
      ghost var at, had := model.stack[|model.stack| - 1], ChildrenOf(nodes);
      ghost var leaf := Node(tag, attrs, [], ChildPath(model.nodes[at].path, StepText(tag, rank)));
      node := AttachElement(tag, attrs, rank);
      AppendLeafShows(nodes, had, model.nodes, at, node, leaf);
    }

    lemma BeforeAttaching()
      requires Shape(model) && TreeShown(nodes, model.nodes) && StackShown(stack, nodes, model.stack)
      ensures var at := model.stack[|model.stack| - 1];
        && |stack| == |model.stack| > 0 && at < |nodes| == |model.nodes| && stack[|stack| - 1] == nodes[at]
        && nodes[at].path == model.nodes[at].path
        && forall i | 0 <= i < |nodes| && i != at :: nodes[i] != nodes[at]
      ensures TreeShownBy(nodes, ChildrenOf(nodes), model.nodes) && |ChildrenOf(nodes)| == |nodes|
      ensures forall i | 0 <= i < |nodes| :: ChildrenOf(nodes)[i] == nodes[i].children
    {
      ShownTag(stack, nodes, model, |stack| - 1);
      ShownDistinct(nodes, model.nodes);
      RememberChildren(nodes, model.nodes);
      hide TreeShown, TreeShownBy;
    }

    // The innermost count, raised, is the new element's rank among its same-tag siblings.
    method CountElement(tag: string) returns (rank: nat)
      requires |counts| > 0
      modifies `counts
      ensures rank == Tally(old(counts)[|old(counts)| - 1], tag) + 1
      ensures counts == Counted(old(counts), tag)
    {
      var top := counts[|counts| - 1];
      rank := (if tag in top then top[tag] else 0) + 1;
      counts := counts[|counts| - 1 := top + map[tag := rank]];
    }

    method PushElement(node: DomNode, tag: string)
      modifies `stack, `counts
      ensures stack == if VoidTag(tag) then old(stack) else old(stack) + [node]
      ensures counts == if VoidTag(tag) then old(counts) else old(counts) + [map[]]
    {
      if !VoidTag(tag) {
        stack := stack + [node];
        counts := counts + [map[]];
      }
    }

    method AppendElement(tag: string, attrs: map<string, string>) returns (node: DomNode)
      requires Valid()
      modifies this, nodes
      ensures Valid() && fresh(node) && nodes == old(nodes) + [node]
      ensures model == AddNode(old(model), tag, attrs)
    {
      hide *;
      StackSize();
      ghost var b, before, after := model, stack, AddNode(model, tag, attrs);
      ShownDistinct(nodes, b.nodes);
      var rank := CountElement(tag);
      node := AttachShown(tag, attrs, rank);
      assert TreeShown(nodes + [node], after.nodes) by {
        AddNodeParts(b, tag, attrs);
      }
      PushElement(node, tag);
      assert StackShown(stack, nodes + [node], after.stack) && counts == after.counts && dropped == after.dropped by {
        AddNodeStack(b, tag, attrs);
        PushShown(before, nodes, b.stack, node);
      }
      Adopt(node, after);
    }

    ghost method Adopt(node: DomNode, after: Builder)
      requires Shape(after) && TreeShown(nodes + [node], after.nodes) && StackShown(stack, nodes + [node], after.stack)
      requires counts == after.counts && dropped == after.dropped
      modifies `nodes, `model
      ensures Valid() && nodes == old(nodes) + [node] && model == after
    {
      nodes, model := nodes + [node], after;
    }

    method PopWhileImplied(tag: string)
      requires Valid()
      modifies `stack, `counts
      ensures 1 <= |stack| <= |old(stack)| == |model.stack|
      ensures |stack| == OpenDepth(model, |model.stack|, tag)
      ensures stack == old(stack)[..|stack|] && counts == old(counts)[..|stack|]
    {
      ghost var entry, entryCounts := stack, counts;
      hide *;
      StackSize();
      while |stack| > 1 && ImpliesClose(stack[|stack| - 1].tag, tag)
        invariant 1 <= |stack| <= |entry| && stack == entry[..|stack|] && counts == entryCounts[..|stack|]
        invariant OpenDepth(model, |stack|, tag) == OpenDepth(model, |entry|, tag)
        decreases |stack|
      {
        ShownTag(entry, nodes, model, |stack| - 1);
        OpenDepthStep(model, |stack|, tag);
        TakeShorter(entry, |stack|);
        TakeShorter(entryCounts, |counts|);
        stack, counts := stack[..|stack| - 1], counts[..|counts| - 1];
      }
      ShownTag(entry, nodes, model, |stack| - 1);
      OpenDepthStep(model, |stack|, tag);
    }

    method PopImplied(tag: string)
      requires Valid()
      modifies `stack, `counts, `model
      ensures Valid()
      ensures model == Cut(old(model), OpenDepth(old(model), |old(model).stack|, tag))
    {
      hide OpenDepth, TreeShown;
      PopWhileImplied(tag);
      CutShown(old(stack), nodes, model, |stack|);
      model := Cut(model, |stack|);
    }

    // False when nesting passes the cap, which ends the parse.
    method HandleStartTag(tag: string, attrs: map<string, string>) returns (ok: bool)
      requires Valid()
      modifies this, nodes
      ensures Valid() && forall n | n in nodes && n !in old(nodes) :: fresh(n)
      ensures ok <==> HandleStart(old(model), tag, attrs).Some?
      ensures ok ==> model == HandleStart(old(model), tag, attrs).value
    {
      hide DroppedTag, ImpliesClose, TreeShown, StackShown, AddNode, OpenDepth, Cut;
      if DroppedTag(tag) {
        dropped := dropped[tag := (if tag in dropped then dropped[tag] else 0) + 1];
        model := model.(dropped := dropped);
      }
      PopImplied(tag);
      assert |stack| == |model.stack| by {
        StackSize();
      }
      if |stack| > MAX_DOM_DEPTH {
        return false;
      }
      var _ := AppendElement(tag, attrs);
      return true;
    }

    lemma StackSize()
      requires Valid()
      ensures |stack| == |model.stack| == |counts| == |model.counts| >= 1
      ensures Shape(model) && TreeShown(nodes, model.nodes) && StackShown(stack, nodes, model.stack)
      ensures counts == model.counts && dropped == model.dropped && |nodes| == |model.nodes|
    {
    }

    method HandleEndTag(tag: string)
      requires Valid()
      modifies this
      ensures Valid() && nodes == old(nodes) && model == HandleEnd(old(model), tag)
      ensures forall k: nat | Innermost(old(model), tag, k) :: ClosedFrom(old(model), model, k)
      ensures (forall k | 0 < k < |old(model).stack| :: OpenTag(old(model), k) != tag) ==> model == old(model)
    {
      EndClosesInnermost(model, tag);
      hide TreeShown, StackShown, FindOpen, Cut, Shape, HandleEnd, Innermost, ClosedFrom, OpenTag;
      EndOfFound(model, tag);
      StackSize();
      var depth := |stack| - 1;
      while depth > 0
        invariant 0 <= depth < |stack| && unchanged(this)
        invariant FindOpen(model, depth + 1, tag) == FindOpen(model, |stack|, tag)
      {
        ShownTag(stack, nodes, model, depth);
        FindOpenStep(model, depth + 1, tag);
        if stack[depth].tag == tag {
          CloseFrom(depth);
          return;
        }
        depth := depth - 1;
      }
      FindOpenStep(model, 1, tag);
    }

    method CloseFrom(depth: nat)
      requires Valid() && 1 <= depth <= |stack|
      modifies `stack, `counts, `model
      ensures Valid() && model == Cut(old(model), depth)
    {
      CutShown(stack, nodes, model, depth);
      hide TreeShown, StackShown;
      stack, counts, model := stack[..depth], counts[..depth], Cut(model, depth);
    }

    method HandleStartEndTag(tag: string, attrs: map<string, string>) returns (ok: bool)
      requires Valid()
      modifies this, nodes
      ensures Valid() && forall n | n in nodes && n !in old(nodes) :: fresh(n)
      ensures ok <==> Handle(old(model), StartEnd(tag, attrs)).Some?
      ensures ok ==> model == Handle(old(model), StartEnd(tag, attrs)).value
    {
      ok := HandleStartTag(tag, attrs);
      if ok && !VoidTag(tag) {
        HandleEndTag(tag);
      }
    }

    method AddData(data: string)
      requires Valid()
      modifies nodes, `model
      ensures Valid() && nodes == old(nodes) && model == HandleData(old(model), data)
    {
      hide TreeShown, TreeShownBy;
      ghost var at := model.stack[|stack| - 1];
      ShownDistinct(nodes, model.nodes);
      RememberChildren(nodes, model.nodes);
      ghost var had := ChildrenOf(nodes);
      var top := stack[|stack| - 1];
      top.children := top.children + [DomText(data)];
      AppendShows(nodes, had, model.nodes, at, DomText(data), Chars(data), [], []);
      assert nodes + [] == nodes;
      assert Grow(model.nodes, at, Chars(data), []) == HandleData(model, data).nodes;
      model := HandleData(model, data);
    }
  }

  // A whole parse: the object ends up showing the tree the events describe, unless it stops at the cap.
  method Parse(es: seq<Event>) returns (parser: TreeParser, ok: bool)
    ensures parser.Valid()
    ensures ok <==> Feed(es).Some?
    ensures ok ==> parser.model == Feed(es).value
    ensures forall f | AllWellNested(None, f) && ForestEvents(f) == es ::
      (ok <==> ForestHeight(f) <= 100) && (ok ==> Rebuilds(parser.model, f))
  {
    WellNestedParses(es);
    hide HandleStart, HandleEnd, HandleData, TreeShown, StackShown, Shape, Rebuilds, AllWellNested, ForestEvents,
      ForestHeight, Innermost, ClosedFrom, OpenTag;
    parser := new TreeParser();
    ok := true;
    for k := 0 to |es|
      invariant parser.Valid() && fresh(parser) && fresh(parser.nodes)
      invariant ok && Feed(es[..k]) == Some(parser.model)
    {
      assert es[..k + 1][..k] == es[..k];
      match es[k] {
        case Start(tag, attrs) => ok := parser.HandleStartTag(tag, attrs);
        case StartEnd(tag, attrs) => ok := parser.HandleStartEndTag(tag, attrs);
        case End(tag) => parser.HandleEndTag(tag);
        case Data(data) => parser.AddData(data);
      }
      assert fresh(parser.nodes) by {
        assert forall n | n in parser.nodes :: fresh(n);
        assert forall i | 0 <= i < |parser.nodes| :: parser.nodes[i] in parser.nodes;
      }
      if !ok {
        RejectedStaysRejected(es, k + 1);
        return;
      }
    }
    assert es[..|es|] == es;
  }

  lemma WellNestedParses(es: seq<Event>)
    ensures forall f | AllWellNested(None, f) && ForestEvents(f) == es ::
      (Feed(es).Some? <==> ForestHeight(f) <= 100) && (Feed(es).Some? ==> Rebuilds(Feed(es).value, f))
  {
    forall f | AllWellNested(None, f) && ForestEvents(f) == es
      ensures (Feed(es).Some? <==> ForestHeight(f) <= 100) && (Feed(es).Some? ==> Rebuilds(Feed(es).value, f))
    {
      hide *;
      WellNestedIsRebuilt(f);
    }
  }

  lemma {:induction false} RejectedStaysRejected(es: seq<Event>, k: nat)
    requires k <= |es| && Feed(es[..k]).None?
    ensures Feed(es).None?
    decreases |es| - k
  {
    if k < |es| {
      assert es[..k + 1][..k] == es[..k];
      RejectedStaysRejected(es, k + 1);
    } else {
      assert es[..k] == es;
    }
  }
}

/** The addresses of HTML nodes as source locators. */
module HtmlLocators {
  import opened Decimal
  import opened CanonicalDocuments
  import opened Locators
  import opened HtmlTree

  // What a locator's value may not hold.
  predicate Forbidden(c: char) {
    c == '=' || c == '/' || c == '\n' || c == '\r'
  }

  predicate AllowedIn(s: string) {
    forall c | c in s :: !Forbidden(c)
  }

  // The address a node's block is given; text directly under the root goes under the root's tag.
  function DomPath(n: Node): string {
    if n.path == "" then "document" else n.path
  }

  function DomLocator(n: Node): SourceLocator {
    SourceLocator("html", [("dom", DomPath(n))])
  }

  // A node and all that it stands inside.
  ghost predicate OnPath(nodes: seq<Node>, i: nat, j: nat)
    decreases j
  {
    i == j || exists k: nat, p: nat | k < j :: ElemAt(nodes, k, p, j) && OnPath(nodes, i, k)
  }

  ghost predicate TagsAllowed(nodes: seq<Node>, j: nat)
    requires j < |nodes|
  {
    forall i: nat | 0 < i <= j && OnPath(nodes, i, j) :: AllowedIn(nodes[i].tag)
  }

  lemma StepAllowed(parent: string, tag: string, k: nat)
    ensures AllowedIn(ChildPath(parent, StepText(tag, k))) <==> AllowedIn(parent) && AllowedIn(tag)
  {
    ShowAvoids(k, '=');
    ShowAvoids(k, '/');
    ShowAvoids(k, '\n');
    ShowAvoids(k, '\r');
    hide Show;
    var step := StepText(tag, k);
    assert step == tag + "[" + Show(k) + "]";
    assert forall c | Forbidden(c) :: c in step <==> c in tag;
    assert forall c | Forbidden(c) :: c in ChildPath(parent, step) <==> c in parent || c in step;
  }

  lemma ChildAllowed(nodes: seq<Node>, k: nat, p: nat, j: nat)
    requires PathsFit(nodes) && ElemAt(nodes, k, p, j) && j < |nodes|
    ensures AllowedIn(nodes[j].path) <==> AllowedIn(nodes[k].path) && AllowedIn(nodes[j].tag)
  {
    assert PathFits(nodes, k, p, j);
    StepAllowed(nodes[k].path, nodes[j].tag, CountTag(nodes, nodes[k].children[..p + 1], nodes[j].tag));
  }

  lemma {:induction false} OnPathIsAbove(nodes: seq<Node>, i: nat, j: nat)
    requires OnPath(nodes, i, j)
    ensures i <= j
    decreases j
  {
    if i != j {
      var k: nat, p: nat :| k < j && ElemAt(nodes, k, p, j) && OnPath(nodes, i, k);
      OnPathIsAbove(nodes, i, k);
    }
  }

  lemma {:induction false} AllowedPathHasAllowedTags(nodes: seq<Node>, i: nat, j: nat)
    requires Rooted(nodes) && PathsFit(nodes)
    requires 0 < i <= j < |nodes| && OnPath(nodes, i, j) && AllowedIn(nodes[j].path)
    ensures AllowedIn(nodes[i].tag)
    decreases j
  {
    hide AllowedIn, PathsFit;
    if i == j {
      assert HasParent(nodes, j);
      var k: nat, p: nat :| ElemAt(nodes, k, p, j);
      ChildAllowed(nodes, k, p, j);
    } else {
      var k: nat, p: nat :| k < j && ElemAt(nodes, k, p, j) && OnPath(nodes, i, k);
      OnPathIsAbove(nodes, i, k);
      ChildAllowed(nodes, k, p, j);
      AllowedPathHasAllowedTags(nodes, i, k);
    }
  }

  lemma {:induction false} AllowedTagsMakeAllowedPath(nodes: seq<Node>, j: nat)
    requires Rooted(nodes) && PathsFit(nodes) && j < |nodes| && TagsAllowed(nodes, j)
    ensures AllowedIn(nodes[j].path)
    decreases j
  {
    if j > 0 {
      hide AllowedIn, PathsFit;
      assert HasParent(nodes, j);
      var k: nat, p: nat :| ElemAt(nodes, k, p, j);
      forall i: nat | 0 < i <= k && OnPath(nodes, i, k) ensures AllowedIn(nodes[i].tag) {
        assert OnPath(nodes, i, j);
      }
      AllowedTagsMakeAllowedPath(nodes, k);
      assert OnPath(nodes, j, j);
      ChildAllowed(nodes, k, p, j);
    }
  }

  lemma ValidDomLocator(n: Node)
    ensures ValidLocator(DomLocator(n)) <==> AllowedIn(n.path)
  {
    var l := DomLocator(n);
    assert l.path[0] == ("dom", DomPath(n));
    assert Addressable("html") && Addressable("dom") && Addressable("document");
    assert n.path != "" ==> (Addressable(n.path) <==> AllowedIn(n.path));
  }

  // A block's locator is refused, and the document with it, exactly when a tag on the way to its node holds a character
  // locators may not hold. The tokenizer lets an equals sign into a tag.
  lemma LocatorValidExactly(es: seq<Event>, j: nat)
    requires (forall e | e in es :: ValidEvent(e)) && Feed(es).Some? && j < |Feed(es).value.nodes|
    ensures var nodes := Feed(es).value.nodes;
      ValidLocator(DomLocator(nodes[j])) <==> TagsAllowed(nodes, j)
  {
    hide AllowedIn, ValidLocator, DomLocator, Feed, RightSpine, CountsFit, ImpliedClosesHappened, Shallow, OnPath;
    FeedKeepsInv(es);
    var nodes := Feed(es).value.nodes;
    ValidDomLocator(nodes[j]);
    if AllowedIn(nodes[j].path) {
      forall i: nat | 0 < i <= j && OnPath(nodes, i, j) ensures AllowedIn(nodes[i].tag) {
        AllowedPathHasAllowedTags(nodes, i, j);
      }
    }
    if TagsAllowed(nodes, j) {
      AllowedTagsMakeAllowedPath(nodes, j);
    }
  }

  lemma StepEnds(parent: string, tag: string, k: nat)
    ensures var path := ChildPath(parent, StepText(tag, k)); path != "" && path[|path| - 1] == ']'
  {
  }

  lemma NotTheRootPath(nodes: seq<Node>, j: nat)
    requires Rooted(nodes) && PathsFit(nodes) && 0 < j < |nodes|
    ensures nodes[j].path != "" && nodes[j].path != "document"
  {
    hide StepText, ChildPath, CountTag;
    assert HasParent(nodes, j);
    var i: nat, p: nat :| ElemAt(nodes, i, p, j);
    assert PathFits(nodes, i, p, j);
    var rank := CountTag(nodes, nodes[i].children[..p + 1], nodes[j].tag);
    StepEnds(nodes[i].path, nodes[j].tag, rank);
  }

  // Blocks of different nodes have different locator texts.
  lemma DomLocatorsAreDistinct(es: seq<Event>, i: nat, j: nat)
    requires (forall e | e in es :: ValidEvent(e)) && Feed(es).Some? && i < j < |Feed(es).value.nodes|
    requires var nodes := Feed(es).value.nodes; ValidLocator(DomLocator(nodes[i])) && ValidLocator(DomLocator(nodes[j]))
    ensures var nodes := Feed(es).value.nodes; Canonical(DomLocator(nodes[i])) != Canonical(DomLocator(nodes[j]))
  {
    hide Feed, RightSpine, CountsFit, ImpliedClosesHappened, Shallow, Canonical, ValidLocator, Rooted, PathsFit;
    FeedKeepsInv(es);
    ParsedTreeIsAddressable(es);
    var nodes := Feed(es).value.nodes;
    NotTheRootPath(nodes, j);
    if i > 0 {
      NotTheRootPath(nodes, i);
    }
    assert DomPath(nodes[i]) != DomPath(nodes[j]);
    var l, l' := DomLocator(nodes[i]), DomLocator(nodes[j]);
    assert l.path[0].1 != l'.path[0].1;
    LoaderLocatorsAreUnique(l, l');
  }
}

/** Searching the frozen documents. */
module FrozenIndex {
  import opened Wrappers
  import opened Text
  import opened Sorting
  import opened Segmentation
  import opened Contracts
  import opened Ingestion

  // ---- the score of a section ----

  predicate Contains(text: string, token: string) {
    exists k | 0 <= k <= |text| :: token <= text[k..]
  }

  function HeadingOf(fold: string -> string, s: Section): string {
    fold(Join(s.headingPath, " "))
  }

  function InHeading(fold: string -> string, s: Section, tokens: set<string>): set<string> {
    set t | t in tokens && Contains(HeadingOf(fold, s), t)
  }

  function InBodyOnly(fold: string -> string, s: Section, tokens: set<string>): set<string> {
    set t | t in tokens && !Contains(HeadingOf(fold, s), t) && Contains(fold(s.rawBlock), t)
  }

  // Two for every token of the query in the heading path, one for every other token in the text.
  function Score(fold: string -> string, s: Section, tokens: set<string>): nat {
    2 * |InHeading(fold, s, tokens)| + |InBodyOnly(fold, s, tokens)|
  }

  lemma ScoreOneMore(fold: string -> string, s: Section, tokens: set<string>, t: string)
    requires t !in tokens
    ensures Score(fold, s, tokens + {t}) == Score(fold, s, tokens)
      + if Contains(HeadingOf(fold, s), t) then 2 else if Contains(fold(s.rawBlock), t) then 1 else 0
  {
    hide Contains, HeadingOf;
    var more := tokens + {t};
    if Contains(HeadingOf(fold, s), t) {
      assert InHeading(fold, s, more) == InHeading(fold, s, tokens) + {t};
      assert InBodyOnly(fold, s, more) == InBodyOnly(fold, s, tokens);
    } else {
      assert InHeading(fold, s, more) == InHeading(fold, s, tokens);
      if Contains(fold(s.rawBlock), t) {
        assert InBodyOnly(fold, s, more) == InBodyOnly(fold, s, tokens) + {t};
      } else {
        assert InBodyOnly(fold, s, more) == InBodyOnly(fold, s, tokens);
      }
    }
  }

  // _score, whatever order the token set is gone through in.
  method ScoreSection(fold: string -> string, s: Section, tokens: set<string>) returns (score: nat)
    ensures score == Score(fold, s, tokens)
  {
    var body, heading := fold(s.rawBlock), HeadingOf(fold, s);
    hide *;
    score := 0;
    var left := tokens;
    ghost var done: set<string> := {};
    NoScore(fold, s);
    while left != {}
      invariant done !! left && done + left == tokens
      invariant score == Score(fold, s, done)
      decreases |left|
    {
      var token :| token in left;
      ScoreOneMore(fold, s, done, token);
      if Contains(heading, token) {
        score := score + 2;
      } else if Contains(body, token) {
        score := score + 1;
      }
      left, done := left - {token}, done + {token};
    }
    assert done == tokens;
  }

  lemma NoScore(fold: string -> string, s: Section)
    ensures Score(fold, s, {}) == 0
  {
    assert InHeading(fold, s, {}) == {} && InBodyOnly(fold, s, {}) == {};
  }

  // ---- hits ----

  datatype Hit = Hit(score: nat, document: FrozenDocument, section: Section)

  // Higher scores first, then document id, then section.
  predicate HitLe(a: Hit, b: Hit) {
    if a.score != b.score then a.score > b.score
    else if a.document.provenance.documentId != b.document.provenance.documentId
    then StringLe(a.document.provenance.documentId, b.document.provenance.documentId)
    else StringLe(a.section.anchor, b.section.anchor)
  }

  lemma HitLeOrders()
    ensures TotalPreorder(HitLe)
  {
    forall a: Hit, b: Hit ensures HitLe(a, b) || HitLe(b, a) {
      StringLeTotal(a.document.provenance.documentId, b.document.provenance.documentId);
      StringLeTotal(a.section.anchor, b.section.anchor);
    }
    forall a: Hit, b: Hit, c: Hit | HitLe(a, b) && HitLe(b, c) ensures HitLe(a, c) {
      HitLeTransitive(a, b, c);
    }
  }

  lemma HitLeTransitive(a: Hit, b: Hit, c: Hit)
    requires HitLe(a, b) && HitLe(b, c)
    ensures HitLe(a, c)
  {
    hide StringLe;
    if a.score == b.score == c.score {
      var x, y, z :=
        a.document.provenance.documentId, b.document.provenance.documentId, c.document.provenance.documentId;
      if x == y == z {
        StringLeTransitive(a.section.anchor, b.section.anchor, c.section.anchor);
      } else if x != y && y != z {
        StringLeTransitive(x, y, z);
        StringLeTotal(x, y);
      }
    }
  }

  function SectionHits(fold: string -> string, d: FrozenDocument, n: nat, tokens: set<string>): seq<Hit>
    requires n <= |d.sections|
  {
    if n == 0 then []
    else
      var score := Score(fold, d.sections[n - 1], tokens);
      SectionHits(fold, d, n - 1, tokens) + if score > 0 then [Hit(score, d, d.sections[n - 1])] else []
  }

  function Hits(fold: string -> string, ds: seq<FrozenDocument>, allowed: set<string>, tokens: set<string>): seq<Hit> {
    if ds == [] then []
    else
      var d := ds[|ds| - 1];
      Hits(fold, ds[..|ds| - 1], allowed, tokens)
      + if d.provenance.documentId in allowed then SectionHits(fold, d, |d.sections|, tokens) else []
  }

  ghost predicate IsHit(
    fold: string -> string, ds: seq<FrozenDocument>, allowed: set<string>, tokens: set<string>, x: Hit)
  {
    && x.document in ds && x.document.provenance.documentId in allowed && x.section in x.document.sections
    && x.score == Score(fold, x.section, tokens) && x.score > 0
  }

  lemma {:induction false} SectionHitsAre(
    fold: string -> string, d: FrozenDocument, n: nat, tokens: set<string>, x: Hit)
    requires n <= |d.sections|
    ensures x in SectionHits(fold, d, n, tokens)
      <==> x.document == d && x.section in d.sections[..n] && x.score == Score(fold, x.section, tokens) && x.score > 0
  {
    hide Score;
    if n > 0 {
      SectionHitsAre(fold, d, n - 1, tokens, x);
      assert d.sections[..n] == d.sections[..n - 1] + [d.sections[n - 1]];
    }
  }

  // The hits are exactly the scoring sections of the allowed documents.
  lemma {:induction false} HitsAre(
    fold: string -> string, ds: seq<FrozenDocument>, allowed: set<string>, tokens: set<string>, x: Hit)
    ensures x in Hits(fold, ds, allowed, tokens) <==> IsHit(fold, ds, allowed, tokens, x)
  {
    hide Score, SectionHits;
    if ds != [] {
      var n := |ds| - 1;
      HitsAre(fold, ds[..n], allowed, tokens, x);
      SectionHitsAre(fold, ds[n], |ds[n].sections|, tokens, x);
      assert ds[n].sections[..|ds[n].sections|] == ds[n].sections;
      assert ds == ds[..n] + [ds[n]];
    }
  }

  function Take(hits: seq<Hit>, limit: int): seq<Hit> {
    if limit <= 0 then [] else if limit < |hits| then hits[..limit] else hits
  }

  // What search selects among the hits of the listed documents.
  function Best(
    fold: string -> string, ds: seq<FrozenDocument>, allowed: set<string>, tokens: set<string>, limit: int): seq<Hit>
  {
    if tokens == {} then [] else Take(Sort(Hits(fold, ds, allowed, tokens), HitLe), limit)
  }

  // Every selected hit comes from an allowed source and scores, no hit left out sorts strictly before a selected
  // one, and hits are left out only when the limit is reached.
  lemma BestAreBest(
    fold: string -> string, ds: seq<FrozenDocument>, allowed: set<string>, tokens: set<string>, limit: int,
    x: Hit, y: Hit)
    requires tokens != {} && x in Best(fold, ds, allowed, tokens, limit)
    requires IsHit(fold, ds, allowed, tokens, y) && y !in Best(fold, ds, allowed, tokens, limit)
    ensures IsHit(fold, ds, allowed, tokens, x) && HitLe(x, y)
    ensures |Best(fold, ds, allowed, tokens, limit)| == limit
  {
    hide Hits, IsHit, HitLe, Sort;
    var hits := Hits(fold, ds, allowed, tokens);
    var sorted := Sort(hits, HitLe);
    HitLeOrders();
    SortSorts(hits, HitLe);
    SortPermutes(hits, HitLe);
    HitsAre(fold, ds, allowed, tokens, x);
    HitsAre(fold, ds, allowed, tokens, y);
    assert x in sorted;
    assert x in multiset(sorted) && x in multiset(hits);
    assert y in multiset(hits) && y in multiset(sorted);
    var i :| 0 <= i < |Take(sorted, limit)| && Take(sorted, limit)[i] == x;
    var j: nat :| 0 <= j < |sorted| && sorted[j] == y;
    if j < limit {
      TakenIsTaken(sorted, limit, j);
    }
    assert HitLe(sorted[i], sorted[j]);
  }

  lemma TakenIsTaken(hits: seq<Hit>, limit: int, j: nat)
    requires j < |hits| && j < limit
    ensures hits[j] in Take(hits, limit)
  {
    assert Take(hits, limit)[j] == hits[j];
  }

  lemma BestAreHits(
    fold: string -> string, ds: seq<FrozenDocument>, allowed: set<string>, tokens: set<string>, limit: int, x: Hit)
    requires x in Best(fold, ds, allowed, tokens, limit)
    ensures IsHit(fold, ds, allowed, tokens, x)
  {
    hide Hits, IsHit, HitLe, Sort;
    var hits := Hits(fold, ds, allowed, tokens);
    SortPermutes(hits, HitLe);
    assert x in Sort(hits, HitLe);
    assert x in multiset(hits) by {
      assert x in multiset(Sort(hits, HitLe));
    }
    HitsAre(fold, ds, allowed, tokens, x);
  }

  // ---- the index ----

  datatype Evidence = Evidence(reference: SourceReference, locator: string)

  function EvidenceOf(h: Hashes, x: Hit): Evidence {
    Evidence(
      ReferenceOf(h, x.document, x.section),
      if x.section.locator != "" then x.section.locator else "section:" + x.section.anchor)
  }

  predicate KeyLe(a: Key, b: Key) {
    if a.0 == b.0 then StringLe(a.1, b.1) else StringLe(a.0, b.0)
  }

  function Listed(documents: Documents, order: seq<Key>): seq<FrozenDocument>
    requires forall key | key in order :: key in documents
  {
    seq(|order|, k requires 0 <= k < |order| => assert order[k] in order; documents[order[k]])
  }

  lemma ListedAreIndexed(documents: Documents, order: seq<Key>, d: FrozenDocument)
    requires (forall key | key in order :: key in documents) && d in Listed(documents, order)
    ensures exists key | key in documents :: documents[key] == d
  {
    var ds := Listed(documents, order);
    var k :| 0 <= k < |ds| && ds[k] == d;
    assert order[k] in order;
  }

  // Every hit an index returns verifies against that index and comes from an allowed source.
  lemma EvidenceVerifies(
    h: Hashes, fold: string -> string, documents: Documents, order: seq<Key>, allowed: set<string>, tokens: set<string>,
    limit: int, x: Hit)
    requires Sound(h, documents) && forall key | key in order :: key in documents
    requires x in Best(fold, Listed(documents, order), allowed, tokens, limit)
    ensures Verifies(h, documents, EvidenceOf(h, x).reference)
    ensures EvidenceOf(h, x).reference.documentId in allowed
  {
    BestAreHits(fold, Listed(documents, order), allowed, tokens, limit, x);
    ListedAreIndexed(documents, order, x.document);
    hide Frozen, Best, Listed, Score;
    var k :| 0 <= k < |x.document.sections| && x.document.sections[k] == x.section;
    assert References(h, x.document)[k] == EvidenceOf(h, x).reference;
    VerifiesExactlyReferences(h, documents, EvidenceOf(h, x).reference);
  }

  class FrozenDocumentIndex {
    const h: Hashes
    var documents: Documents
    // The keys in the order they first came.
    var order: seq<Key>

    ghost predicate Valid()
      reads this
    {
      && Sound(h, documents)
      && (forall key :: key in order <==> key in documents)
      && (forall i, j | 0 <= i < j < |order| :: order[i] != order[j])
    }

    constructor (h: Hashes)
      ensures Valid() && this.h == h && documents == map[]
    {
      this.h := h;
      documents, order := map[], [];
    }

    method Add(d: FrozenDocument) returns (r: Result<(), GovernanceError>)
      requires Valid() && Frozen(h, d)
      modifies this
      ensures Valid()
      ensures r.Success? <==> Ingestion.Add(old(documents), d).Success?
      ensures documents == if r.Success? then Ingestion.Add(old(documents), d).value else old(documents)
    {
      hide Frozen;
      var key := Ingestion.KeyOf(d);
      if key in documents && documents[key].snapshotHash != d.snapshotHash {
        return Failure(Conflict);
      }
      if key !in documents {
        order := order + [key];
      }
      documents := documents + map[key := d];
      return Success(());
    }

    method Search(fold: string -> string, tokens: set<string>, allowed: set<string>, limit: int)
      returns (r: seq<Evidence>)
      requires Valid()
      ensures forall key | key in Sort(order, KeyLe) :: key in documents
      ensures var best := Best(fold, Listed(documents, Sort(order, KeyLe)), allowed, tokens, limit);
        |r| == |best| && forall k | 0 <= k < |r| :: r[k] == EvidenceOf(h, best[k])
    {
      hide Hits, Best, Sort, KeyLe, HitLe, EvidenceOf, Sound, Listed, Take;
      SortedKeysIndexed();
      var keys := Sort(order, KeyLe);
      if tokens == {} {
        NoBest(fold, Listed(documents, keys), allowed, limit);
        return [];
      }
      var scored := CollectHits(fold, Listed(documents, keys), allowed, tokens);
      var best := Take(Sort(scored, HitLe), limit);
      BestMeans(fold, Listed(documents, keys), allowed, tokens, limit);
      r := [];
      for k := 0 to |best|
        invariant |r| == k && forall j | 0 <= j < k :: r[j] == EvidenceOf(h, best[j])
      {
        r := r + [EvidenceOf(h, best[k])];
      }
    }

    lemma SortedKeysIndexed()
      requires Valid()
      ensures forall key | key in Sort(order, KeyLe) :: key in documents
    {
      hide Sort, KeyLe, Sound;
      SortPermutes(order, KeyLe);
      forall key | key in Sort(order, KeyLe) ensures key in documents {
        assert key in multiset(Sort(order, KeyLe));
        assert key in order;
      }
    }
  }

  lemma NoBest(fold: string -> string, ds: seq<FrozenDocument>, allowed: set<string>, limit: int)
    ensures Best(fold, ds, allowed, {}, limit) == []
  {
  }

  lemma BestMeans(
    fold: string -> string, ds: seq<FrozenDocument>, allowed: set<string>, tokens: set<string>, limit: int)
    requires tokens != {}
    ensures Best(fold, ds, allowed, tokens, limit) == Take(Sort(Hits(fold, ds, allowed, tokens), HitLe), limit)
  {
  }

  // The two nested loops of search.
  method CollectHits(fold: string -> string, ds: seq<FrozenDocument>, allowed: set<string>, tokens: set<string>)
    returns (scored: seq<Hit>)
    ensures scored == Hits(fold, ds, allowed, tokens)
  {
    hide Score;
    scored := [];
    assert ds[..0] == [];
    for i := 0 to |ds|
      invariant scored == Hits(fold, ds[..i], allowed, tokens)
    {
      assert ds[..i + 1][..i] == ds[..i];
      var d := ds[i];
      if d.provenance.documentId in allowed {
        ghost var before := scored;
        for k := 0 to |d.sections|
          invariant scored == before + SectionHits(fold, d, k, tokens)
        {
          var score := ScoreSection(fold, d.sections[k], tokens);
          if score > 0 {
            scored := scored + [Hit(score, d, d.sections[k])];
          }
        }
      }
    }
    assert ds[..|ds|] == ds;
  }
}

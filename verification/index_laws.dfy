/** The score and the ranking of search hits. */
module IndexLaws {
  import opened Sorting
  import opened Segmentation
  import opened Ingestion
  import opened FrozenIndex

  predicate OccursAt(text: string, token: string, k: nat) {
    k + |token| <= |text| && text[k..k + |token|] == token
  }

  ghost predicate Occurs(text: string, token: string) {
    exists k: nat :: OccursAt(text, token, k)
  }

  lemma ContainsExactly(text: string, token: string)
    ensures Contains(text, token) <==> Occurs(text, token)
  {
    if Contains(text, token) {
      var k :| 0 <= k <= |text| && token <= text[k..];
      assert text[k..k + |token|] == text[k..][..|token|] == token;
      assert OccursAt(text, token, k);
    }
    if k: nat :| OccursAt(text, token, k) {
      assert text[k..][..|token|] == text[k..k + |token|];
      assert token <= text[k..];
    }
  }

  ghost predicate Heads(fold: string -> string, s: Section, token: string) {
    Occurs(HeadingOf(fold, s), token)
  }

  ghost predicate Bodies(fold: string -> string, s: Section, token: string) {
    Occurs(fold(s.rawBlock), token)
  }

  // A token counts once for occurring at all, and once more for occurring in the heading path.
  lemma ScoreCounts(fold: string -> string, s: Section, tokens: set<string>)
    ensures Score(fold, s, tokens)
      == |set t | t in tokens && Heads(fold, s, t)|
        + |set t | t in tokens && (Heads(fold, s, t) || Bodies(fold, s, t))|
  {
    hide Contains, Occurs;
    forall t ensures Contains(HeadingOf(fold, s), t) <==> Heads(fold, s, t) {
      ContainsExactly(HeadingOf(fold, s), t);
    }
    forall t ensures Contains(fold(s.rawBlock), t) <==> Bodies(fold, s, t) {
      ContainsExactly(fold(s.rawBlock), t);
    }
    var heading, body := InHeading(fold, s, tokens), InBodyOnly(fold, s, tokens);
    assert heading == set t | t in tokens && Heads(fold, s, t);
    assert heading !! body;
    assert heading + body == set t | t in tokens && (Heads(fold, s, t) || Bodies(fold, s, t));
  }

  // Higher scores first; then by document id, and within one document id by anchor.
  predicate Outranks(a: Hit, b: Hit) {
    || a.score > b.score
    || (a.score == b.score
        && var x, y := a.document.provenance.documentId, b.document.provenance.documentId;
           if x == y then StringLe(a.section.anchor, b.section.anchor) else StringLe(x, y))
  }

  lemma OutranksExactly(a: Hit, b: Hit)
    ensures HitLe(a, b) <==> Outranks(a, b)
  {
    hide StringLe;
  }

  // The hits come ranked, each outranks every hit left out, and as many come as there are or the limit allows.
  lemma BestAreRanked(
    fold: string -> string, ds: seq<FrozenDocument>, allowed: set<string>, tokens: set<string>, limit: int)
    requires tokens != {}
    ensures var best, hits := Best(fold, ds, allowed, tokens, limit), Hits(fold, ds, allowed, tokens);
      && (forall i, j | 0 <= i < j < |best| :: Outranks(best[i], best[j]))
      && (forall x, y | x in best && IsHit(fold, ds, allowed, tokens, y) && y !in best :: Outranks(x, y))
      && |best| == (if limit <= 0 then 0 else if limit < |hits| then limit else |hits|)
  {
    hide Hits, IsHit, HitLe, Sort, Outranks;
    var best, hits := Best(fold, ds, allowed, tokens, limit), Hits(fold, ds, allowed, tokens);
    HitLeOrders();
    SortSorts(hits, HitLe);
    SortPermutes(hits, HitLe);
    SameSize(Sort(hits, HitLe), hits);
    forall i, j | 0 <= i < j < |best| ensures Outranks(best[i], best[j]) {
      assert HitLe(Sort(hits, HitLe)[i], Sort(hits, HitLe)[j]);
      OutranksExactly(best[i], best[j]);
    }
    forall x, y | x in best && IsHit(fold, ds, allowed, tokens, y) && y !in best ensures Outranks(x, y) {
      BestAreBest(fold, ds, allowed, tokens, limit, x, y);
      OutranksExactly(x, y);
    }
  }

  // No document and no section of one is listed twice, as an index holds them.
  ghost predicate NoRepeats(ds: seq<FrozenDocument>) {
    && (forall i, j | 0 <= i < j < |ds| :: ds[i] != ds[j])
    && (forall i, k, l | 0 <= i < |ds| && 0 <= k < l < |ds[i].sections| :: ds[i].sections[k] != ds[i].sections[l])
  }

  ghost predicate AllDiffer(hits: seq<Hit>) {
    forall i, j | 0 <= i < j < |hits| :: hits[i] != hits[j]
  }

  lemma {:induction false} SectionHitsDiffer(fold: string -> string, d: FrozenDocument, n: nat, tokens: set<string>)
    requires n <= |d.sections| && forall k, l | 0 <= k < l < |d.sections| :: d.sections[k] != d.sections[l]
    ensures AllDiffer(SectionHits(fold, d, n, tokens))
  {
    hide Score;
    if n > 0 {
      SectionHitsDiffer(fold, d, n - 1, tokens);
      var x := Hit(Score(fold, d.sections[n - 1], tokens), d, d.sections[n - 1]);
      SectionHitsAre(fold, d, n - 1, tokens, x);
      assert d.sections[n - 1] !in d.sections[..n - 1];
    }
  }

  // So every hit is listed once: the section scores, or it does not.
  lemma {:induction false} HitsDiffer(
    fold: string -> string, ds: seq<FrozenDocument>, allowed: set<string>, tokens: set<string>)
    requires NoRepeats(ds)
    ensures AllDiffer(Hits(fold, ds, allowed, tokens))
  {
    hide SectionHits, Score;
    if ds != [] {
      var n := |ds| - 1;
      var d := ds[n];
      HitsDiffer(fold, ds[..n], allowed, tokens);
      SectionHitsDiffer(fold, d, |d.sections|, tokens);
      var before, last := Hits(fold, ds[..n], allowed, tokens), SectionHits(fold, d, |d.sections|, tokens);
      assert d !in ds[..n];
      forall x | x in before ensures x !in last {
        HitsAre(fold, ds[..n], allowed, tokens, x);
        SectionHitsAre(fold, d, |d.sections|, tokens, x);
      }
      JoinedDiffer(before, last);
    }
  }

  lemma JoinedDiffer(a: seq<Hit>, b: seq<Hit>)
    requires AllDiffer(a) && AllDiffer(b) && forall x | x in a :: x !in b
    ensures AllDiffer(a + b)
    ensures a + [] == a
  {
    forall i, j | 0 <= i < j < |a + b| ensures (a + b)[i] != (a + b)[j] {
      if i < |a| <= j {
        assert (a + b)[i] in a && (a + b)[j] in b;
      }
    }
  }

  // What a hit cites: its document version, its section and the hash of the section's text, and where it stands.
  lemma EvidenceExactly(h: Hashes, x: Hit)
    ensures var e := EvidenceOf(h, x);
      && e.reference.documentId == x.document.provenance.documentId
      && e.reference.documentVersion == x.document.provenance.documentVersion
      && e.reference.section == x.section.anchor && e.reference.contentHash == h.content(x.section.rawBlock)
      && (x.section.locator != "" ==> e.locator == x.section.locator)
      && (x.section.locator == "" ==> "section:" <= e.locator && e.locator[8..] == x.section.anchor)
  {
  }

  // Documents are gone through by id, then by version.
  lemma DocumentOrderExactly(a: Key, b: Key)
    ensures FrozenIndex.KeyLe(a, b) <==> if a.0 == b.0 then StringLe(a.1, b.1) else StringLe(a.0, b.0)
  {
  }
}

/** Frozen documents, re-ingestion, and the index whose hits must verify. */
module Ingestion {
  import opened Wrappers
  import opened Segmentation
  import opened Contracts

  // What was frozen with which parser and profile.
  datatype Provenance = Provenance(
    documentId: string, documentVersion: string, detectedFormat: string,
    parserProfile: string, parserVersion: string, profileId: string, profileVersion: string)

  // The value the snapshot hash is computed from: provenance, and section and content hash of every section.
  datatype Snapshot = Snapshot(provenance: Provenance, sections: seq<(string, string)>)

  datatype FrozenDocument = FrozenDocument(
    provenance: Provenance, sourceType: SourceType, sections: seq<Section>, snapshotHash: string)

  // content_hash, which digests the normal form of a text but of which nothing is used here, and the semantic hash of a
  // snapshot.
  datatype Hashes = Hashes(content: string -> string, semantic: Snapshot -> string)

  function SnapshotOf(h: Hashes, provenance: Provenance, sections: seq<Section>): Snapshot {
    Snapshot(provenance, seq(|sections|, k requires 0 <= k < |sections| =>
      (sections[k].anchor, h.content(sections[k].rawBlock))))
  }

  // The construction at the end of ingest_canonical.
  function Freeze(h: Hashes, provenance: Provenance, sourceType: SourceType, sections: seq<Section>): FrozenDocument {
    FrozenDocument(provenance, sourceType, sections, h.semantic(SnapshotOf(h, provenance, sections)))
  }

  ghost predicate Frozen(h: Hashes, d: FrozenDocument) {
    d.snapshotHash == h.semantic(SnapshotOf(h, d.provenance, d.sections))
  }

  // No two snapshots share a hash.
  ghost predicate Injective(h: Hashes) {
    forall a, b | h.semantic(a) == h.semantic(b) :: a == b
  }

  function ReferenceOf(h: Hashes, d: FrozenDocument, s: Section): SourceReference {
    SourceReference(d.provenance.documentId, d.provenance.documentVersion, s.anchor, h.content(s.rawBlock))
  }

  // source_references
  function References(h: Hashes, d: FrozenDocument): seq<SourceReference> {
    seq(|d.sections|, k requires 0 <= k < |d.sections| => ReferenceOf(h, d, d.sections[k]))
  }

  // Frozen documents with one snapshot hash have the same references.
  lemma SameSnapshotSameReferences(h: Hashes, a: FrozenDocument, b: FrozenDocument)
    requires Injective(h) && Frozen(h, a) && Frozen(h, b) && a.snapshotHash == b.snapshotHash
    ensures a.provenance == b.provenance && References(h, a) == References(h, b)
  {
    var sa, sb := SnapshotOf(h, a.provenance, a.sections), SnapshotOf(h, b.provenance, b.sections);
    assert sa == sb;
    assert |sa.sections| == |a.sections| && |sb.sections| == |b.sections|;
    forall k | 0 <= k < |a.sections| ensures References(h, a)[k] == References(h, b)[k] {
      assert sa.sections[k] == sb.sections[k];
    }
  }

  // reingest_document and reingest_upload, after the candidate was ingested: the frozen document is never replaced.
  function Reingest(frozen: FrozenDocument, candidate: FrozenDocument): Result<FrozenDocument, GovernanceError> {
    if (candidate.provenance.documentId, candidate.provenance.documentVersion)
      != (frozen.provenance.documentId, frozen.provenance.documentVersion)
    then Failure(Validation)
    else if candidate.snapshotHash != frozen.snapshotHash then Failure(Conflict)
    else Success(frozen)
  }

  // Re-ingestion succeeds exactly when the parser, the profile and every section's anchor and text hash are
  // unchanged, and then past references still point at what they pointed at.
  lemma ReingestSucceedsExactly(h: Hashes, frozen: FrozenDocument, candidate: FrozenDocument)
    requires Injective(h) && Frozen(h, frozen) && Frozen(h, candidate)
    ensures Reingest(frozen, candidate).Success?
      <==> candidate.provenance == frozen.provenance && References(h, candidate) == References(h, frozen)
    ensures Reingest(frozen, candidate).Success? ==> Reingest(frozen, candidate).value == frozen
  {
    if candidate.snapshotHash == frozen.snapshotHash {
      SameSnapshotSameReferences(h, candidate, frozen);
    }
    if candidate.provenance == frozen.provenance && References(h, candidate) == References(h, frozen) {
      SameReferencesSameSnapshot(h, candidate, frozen);
    }
  }

  lemma SameReferencesSameSnapshot(h: Hashes, a: FrozenDocument, b: FrozenDocument)
    requires a.provenance == b.provenance && References(h, a) == References(h, b)
    ensures SnapshotOf(h, a.provenance, a.sections) == SnapshotOf(h, b.provenance, b.sections)
  {
    assert |References(h, a)| == |a.sections| && |References(h, b)| == |b.sections|;
    forall k | 0 <= k < |a.sections|
      ensures a.sections[k].anchor == b.sections[k].anchor
        && h.content(a.sections[k].rawBlock) == h.content(b.sections[k].rawBlock)
    {
      assert References(h, a)[k] == References(h, b)[k];
    }
  }

  // ---- the index ----

  type Key = (string, string)

  function KeyOf(d: FrozenDocument): Key {
    (d.provenance.documentId, d.provenance.documentVersion)
  }

  type Documents = map<Key, FrozenDocument>

  // add: the same key may come again only with the same snapshot.
  function Add(documents: Documents, d: FrozenDocument): Result<Documents, GovernanceError> {
    if KeyOf(d) in documents && documents[KeyOf(d)].snapshotHash != d.snapshotHash
    then Failure(Conflict)
    else Success(documents + map[KeyOf(d) := d])
  }

  predicate Verifies(h: Hashes, documents: Documents, r: SourceReference) {
    && (r.documentId, r.documentVersion) in documents
    && var d := documents[(r.documentId, r.documentVersion)];
      exists k | 0 <= k < |d.sections| ::
        d.sections[k].anchor == r.section && h.content(d.sections[k].rawBlock) == r.contentHash
  }

  // Every document sits under its own key and carries its own snapshot hash.
  ghost predicate Sound(h: Hashes, documents: Documents) {
    forall key | key in documents :: KeyOf(documents[key]) == key && Frozen(h, documents[key])
  }

  // A run of add calls; a refused one leaves the index as it was.
  function AddAll(documents: Documents, ds: seq<FrozenDocument>): Documents {
    if ds == [] then documents
    else
      var before := AddAll(documents, ds[..|ds| - 1]);
      match Add(before, ds[|ds| - 1])
      case Success(after) => after
      case Failure(_) => before
  }

  lemma VerifiesExactlyReferences(h: Hashes, documents: Documents, r: SourceReference)
    requires Sound(h, documents)
    ensures Verifies(h, documents, r)
      <==> exists key | key in documents :: r in References(h, documents[key])
  {
    hide Frozen;
    if Verifies(h, documents, r) {
      var key := (r.documentId, r.documentVersion);
      var d := documents[key];
      var k :| 0 <= k < |d.sections|
        && d.sections[k].anchor == r.section && h.content(d.sections[k].rawBlock) == r.contentHash;
      assert References(h, d)[k] == r;
    }
    if key :| key in documents && r in References(h, documents[key]) {
      var d := documents[key];
      var k :| 0 <= k < |d.sections| && References(h, d)[k] == r;
      assert r == ReferenceOf(h, d, d.sections[k]);
    }
  }

  lemma AddKeepsReferences(h: Hashes, documents: Documents, d: FrozenDocument)
    requires Injective(h) && Sound(h, documents) && Frozen(h, d)
    ensures var r := Add(documents, d); r.Success? ==>
      && Sound(h, r.value)
      && forall key | key in documents :: key in r.value && References(h, r.value[key]) == References(h, documents[key])
  {
    hide Frozen, References, Injective;
    if KeyOf(d) in documents && documents[KeyOf(d)].snapshotHash == d.snapshotHash {
      SameSnapshotSameReferences(h, documents[KeyOf(d)], d);
    }
  }

  lemma {:induction false} RunKeepsReferences(h: Hashes, documents: Documents, ds: seq<FrozenDocument>)
    requires Injective(h) && Sound(h, documents) && forall d | d in ds :: Frozen(h, d)
    ensures var after := AddAll(documents, ds);
      && Sound(h, after)
      && forall key | key in documents :: key in after && References(h, after[key]) == References(h, documents[key])
  {
    hide Frozen, References, Injective, Add, Sound;
    if ds != [] {
      var before := AddAll(documents, ds[..|ds| - 1]);
      RunKeepsReferences(h, documents, ds[..|ds| - 1]);
      AddKeepsReferences(h, before, ds[|ds| - 1]);
    }
  }

  // A reference that verified once verifies after every later run, refused additions included.
  lemma VerifiedStaysVerified(h: Hashes, documents: Documents, ds: seq<FrozenDocument>, r: SourceReference)
    requires Injective(h) && Sound(h, documents) && forall d | d in ds :: Frozen(h, d)
    requires Verifies(h, documents, r)
    ensures Verifies(h, AddAll(documents, ds), r)
  {
    hide Frozen, References, Injective, AddAll, Sound, Verifies;
    RunKeepsReferences(h, documents, ds);
    VerifiesExactlyReferences(h, documents, r);
    VerifiesExactlyReferences(h, AddAll(documents, ds), r);
  }
}

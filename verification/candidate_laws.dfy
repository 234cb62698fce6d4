/** What a candidate keeps of the proposal and the evidence it was made from. */
module CandidateLaws {
  import opened Wrappers
  import opened Text
  import opened Contracts
  import opened Mappings
  import opened RuleRegistries
  import opened Candidates

  // ---- limitations ----

  // A limitation the proposal states.
  ghost predicate Stated(p: Proposal, x: string) {
    "limitations" in p && p["limitations"].Array? && Listed(p["limitations"].items, x)
  }

  ghost predicate Listed(items: seq<Payload>, x: string) {
    exists item | item in items :: item.Text? && x == Strip(item.text)
  }

  predicate StatesNothing(p: Proposal) {
    "limitations" in p ==> p["limitations"] == Null || p["limitations"] == Array([])
  }

  function NoteOf(r: SourceReference): string {
    "frozen source extraction requires human confirmation: " + r.documentId + "@" + r.documentVersion + "#" + r.section
  }

  // A note asking to confirm a piece of evidence.
  ghost predicate Noted(evidence: seq<Binding>, x: string) {
    exists b | b in evidence :: b.confidence != HighConfidence && x == NoteOf(b.reference)
  }

  ghost predicate NoRepeats(s: seq<string>) {
    forall i, j | 0 <= i < j < |s| :: s[i] != s[j]
  }

  lemma {:induction false} DistinctKeeps(s: seq<string>)
    ensures NoRepeats(Distinct(s)) && forall x :: x in Distinct(s) <==> x in s
    ensures Distinct(s) == [] <==> s == []
  {
    if s != [] {
      DistinctKeeps(s[..|s| - 1]);
      assert s == s[..|s| - 1] + [s[|s| - 1]];
    }
  }

  lemma {:induction false} NotesAre(evidence: seq<Binding>)
    ensures forall x :: x in ReviewNotes(evidence) <==> Noted(evidence, x)
  {
    if evidence != [] {
      NotesAre(evidence[1..]);
      assert evidence == [evidence[0]] + evidence[1..];
      forall x ensures x in ReviewNotes(evidence) <==> Noted(evidence, x) {
        FirstNote(evidence, x);
      }
    }
  }

  lemma FirstNote(evidence: seq<Binding>, x: string)
    requires evidence != [] && (x in ReviewNotes(evidence[1..]) <==> Noted(evidence[1..], x))
    ensures x in ReviewNotes(evidence) <==> Noted(evidence, x)
  {
    var first, rest := evidence[0], evidence[1..];
    assert evidence == [first] + rest;
    assert Noted(evidence, x) <==>
      (first.confidence != HighConfidence && x == NoteOf(first.reference)) || Noted(rest, x);
  }

  lemma TextsAre(items: seq<Payload>, texts: seq<string>, x: string)
    requires (forall item | item in items :: item.Text?) && |texts| == |items|
    requires forall k | 0 <= k < |items| :: items[k].Text? && texts[k] == Strip(items[k].text)
    ensures x in texts <==> Listed(items, x)
  {
    hide Strip;
    if item :| item in items && item.Text? && x == Strip(item.text) {
      var k :| 0 <= k < |items| && items[k] == item;
      assert texts[k] == x;
    }
    if k :| 0 <= k < |texts| && texts[k] == x {
      assert items[k] in items;
    }
  }

  lemma StatedAre(p: Proposal)
    requires var r := LimitationsOf(if "limitations" in p then p["limitations"] else Null); r.Success?
    ensures var r := LimitationsOf(if "limitations" in p then p["limitations"] else Null);
      && (forall x :: x in r.value <==> Stated(p, x))
      && (r.value == [] <==> StatesNothing(p))
  {
    hide Strip, Blank, Distinct, Listed;
    if "limitations" in p && p["limitations"].Array? {
      var items := p["limitations"].items;
      forall k | 0 <= k < |items| ensures items[k].Text? {
        assert items[k] in items;
      }
      var texts := StrippedTexts(items);
      DistinctKeeps(texts);
      forall x ensures x in texts <==> Listed(items, x) {
        TextsAre(items, texts, x);
      }
    }
  }

  // A candidate's limitations are the stated ones and one note for each piece of evidence that is not of high
  // confidence, each once. So it is open to approval exactly when nothing was stated and all evidence is certain.
  lemma LimitationsExactly(
    fp: RuleFields -> string, m: MappingState, candidateId: string, p: Proposal, evidence: seq<Binding>)
    requires BuildCandidate(fp, m, candidateId, p, evidence).Success?
    ensures var c := BuildCandidate(fp, m, candidateId, p, evidence).value;
      && NoRepeats(c.limitations)
      && (forall x :: x in c.limitations <==> Stated(p, x) || Noted(evidence, x))
      && (CanBeApproved(c) <==> StatesNothing(p) && forall b | b in evidence :: b.confidence == HighConfidence)
  {
    hide CommonType, BuildFields, LimitationsOf, ReviewNotes, Distinct, Stated, Noted, StatesNothing, Blank, NoRepeats;
    var c := BuildCandidate(fp, m, candidateId, p, evidence).value;
    var stated := LimitationsOf(if "limitations" in p then p["limitations"] else Null).value;
    StatedAre(p);
    NotesAre(evidence);
    DistinctKeeps(stated + ReviewNotes(evidence));
    CertainEvidence(evidence);
  }

  lemma CertainEvidence(evidence: seq<Binding>)
    ensures (forall b | b in evidence :: !ReviewRequired(b)) ==> ReviewNotes(evidence) == []
  {
    NotesAre(evidence);
    if ReviewNotes(evidence) != [] {
      assert ReviewNotes(evidence)[0] in ReviewNotes(evidence);
    }
  }

  // ---- fields ----

  function EvaluationName(e: EvaluationType): string {
    match e
    case Iac => "IAC"
    case Aws => "AWS"
    case Hybrid => "HYBRID"
    case Manual => "MANUAL"
  }

  function SeverityName(s: Severity): string {
    match s
    case Critical => "CRITICAL"
    case High => "HIGH"
    case Medium => "MEDIUM"
    case Low => "LOW"
  }

  // The proposal gives the text under the name, and it is not blank.
  predicate Gives(p: Proposal, name: string, text: string) {
    name in p && p[name] == Payload.Text(text) && !Blank(text)
  }

  // The source an evidence section comes from is registered with the type.
  predicate TypedSource(m: MappingState, r: SourceReference, t: SourceType) {
    (r.documentId, r.documentVersion) in m.sources && m.sources[(r.documentId, r.documentVersion)] == t
  }

  // The fields a valid proposal stands for: its own texts, and the references and type of the evidence.
  ghost predicate StandsFor(m: MappingState, p: Proposal, evidence: seq<Binding>, f: RuleFields) {
    && Gives(p, "resource_type", f.resourceType)
    && Gives(p, "control_key", f.controlKey)
    && Gives(p, "evaluation_type", EvaluationName(f.evaluationType))
    && Gives(p, "severity", SeverityName(f.severity))
    && Gives(p, "requirement", f.requirement)
    && Gives(p, "remediation_type", f.remediationType)
    && |f.references| == |evidence| && (forall k | 0 <= k < |evidence| :: f.references[k] == evidence[k].reference)
    && (forall b | b in evidence :: TypedSource(m, b.reference, f.sourceType))
  }

  lemma TextOfExactly(p: Proposal, name: string)
    ensures forall text :: TextOf(p, name) == Some(text) <==> Gives(p, name, text)
  {
  }

  lemma EvaluationTypeExactly(p: Proposal)
    ensures forall e :: EvaluationTypeOf(p) == Some(e) <==> Gives(p, "evaluation_type", EvaluationName(e))
  {
    hide Blank;
    TextOfExactly(p, "evaluation_type");
  }

  lemma SeverityExactly(p: Proposal)
    ensures forall s :: SeverityOf(p) == Some(s) <==> Gives(p, "severity", SeverityName(s))
  {
    hide Blank;
    TextOfExactly(p, "severity");
  }

  lemma {:induction false} CommonTypeExactly(m: MappingState, evidence: seq<Binding>, t: SourceType)
    ensures CommonType(m, evidence) == Success(t)
      <==> evidence != [] && forall b | b in evidence :: TypedSource(m, b.reference, t)
  {
    if |evidence| > 1 {
      CommonTypeExactly(m, evidence[1..], t);
      assert evidence == [evidence[0]] + evidence[1..];
    } else if evidence != [] {
      assert evidence == [evidence[0]];
    }
  }

  lemma FieldsExactly(m: MappingState, t: SourceType, p: Proposal, evidence: seq<Binding>, f: RuleFields)
    requires evidence != [] && forall b | b in evidence :: TypedSource(m, b.reference, t)
    ensures BuildFields(t, p, evidence) == Success(f)
      <==> f.sourceType == t && StandsFor(m, p, evidence, f) && ValidFields(f)
  {
    TextOfExactly(p, "resource_type");
    TextOfExactly(p, "control_key");
    TextOfExactly(p, "requirement");
    TextOfExactly(p, "remediation_type");
    EvaluationTypeExactly(p);
    SeverityExactly(p);
    hide TextOf, EvaluationTypeOf, SeverityOf, Gives, ValidFields, EvaluationName, SeverityName, TypedSource;
    if StandsFor(m, p, evidence, f) {
      assert f.references == References(evidence);
    }
  }

  // ---- creation ----

  // What the service demands of a proposal.
  ghost predicate Proposable(m: MappingState, candidateId: string, p: Proposal, evidence: seq<Binding>, f: RuleFields) {
    && !Blank(candidateId) && evidence != []
    && (forall name | name in p ::
         name in {"resource_type", "control_key", "evaluation_type", "severity", "requirement", "remediation_type",
                  "limitations"})
    && StandsFor(m, p, evidence, f) && ValidFields(f)
    && (forall r | r in f.references :: MappingKey(r, f.resourceType, f.controlKey) in m.keys)
    && ("limitations" in p ==>
         p["limitations"] == Null
         || (p["limitations"].Array?
             && forall item | item in p["limitations"].items :: item.Text? && !Blank(item.text)))
  }

  // A candidate is built from exactly the proposals that stand for some fields, and holds them.
  lemma BuiltExactly(
    fp: RuleFields -> string, m: MappingState, candidateId: string, p: Proposal, evidence: seq<Binding>)
    ensures var r := BuildCandidate(fp, m, candidateId, p, evidence);
      && (r.Success? <==> exists f :: Proposable(m, candidateId, p, evidence, f))
      && (r.Success? ==>
          var c := r.value;
          && Proposable(m, candidateId, p, evidence, c.fields)
          && c.candidateId == candidateId && c.evidence == evidence
          && c.sourceType == c.fields.sourceType && c.fingerprint == fp(c.fields))
  {
    hide StandsFor, ValidFields, CommonType, BuildFields, Blank, Distinct, ReviewNotes, Strip, TypedSource;
    var r := BuildCandidate(fp, m, candidateId, p, evidence);
    if r.Success? {
      var c := r.value;
      CommonTypeExactly(m, evidence, c.sourceType);
      FieldsExactly(m, c.sourceType, p, evidence, c.fields);
      assert Proposable(m, candidateId, p, evidence, c.fields);
    }
    if f :| Proposable(m, candidateId, p, evidence, f) {
      SourcesAreTyped(m, p, evidence, f);
      CommonTypeExactly(m, evidence, f.sourceType);
      FieldsExactly(m, f.sourceType, p, evidence, f);
    }
  }

  lemma SourcesAreTyped(m: MappingState, p: Proposal, evidence: seq<Binding>, f: RuleFields)
    requires StandsFor(m, p, evidence, f)
    ensures forall b | b in evidence :: TypedSource(m, b.reference, f.sourceType)
  {
  }

  // A candidate that keeps all of the proposal and the evidence: fields, limitations, and what asks for confirmation.
  ghost predicate Keeps(
    fp: RuleFields -> string, m: MappingState, candidateId: string, p: Proposal, evidence: seq<Binding>, c: Candidate)
  {
    && Proposable(m, candidateId, p, evidence, c.fields)
    && c.candidateId == candidateId && c.evidence == evidence
    && c.sourceType == c.fields.sourceType && c.fingerprint == fp(c.fields)
    && NoRepeats(c.limitations) && forall x :: x in c.limitations <==> Stated(p, x) || Noted(evidence, x)
  }

  // Neither its id nor its content is taken.
  ghost predicate IsNew(fp: RuleFields -> string, s: Service, candidateId: string, c: Candidate) {
    candidateId !in s.candidates.candidates && fp(c.fields) !in s.candidates.fingerprints
  }

  ghost predicate Adds(s: Service, s': Service, candidateId: string, c: Candidate) {
    s' == s.(candidates := s.candidates.(
      candidates := s.candidates.candidates[candidateId := c],
      fingerprints := s.candidates.fingerprints[c.fingerprint := candidateId]))
  }

  // The service creates exactly the candidates that keep everything and are new, adds one such and touches nothing
  // else.
  lemma CreatesExactly(
    fp: RuleFields -> string, m: MappingState, s: Service, candidateId: string, p: Proposal, evidence: seq<Binding>)
    ensures var (s', r) := Create(fp, m, s, candidateId, p, evidence);
      && (r.Done? <==>
          exists c :: Keeps(fp, m, candidateId, p, evidence, c) && IsNew(fp, s, candidateId, c))
      && (r.Done? ==>
          exists c :: Keeps(fp, m, candidateId, p, evidence, c) && Adds(s, s', candidateId, c))
      && (r.Raised? ==> s' == s)
  {
    hide BuildCandidate, Proposable, Stated, Noted;
    BuiltExactly(fp, m, candidateId, p, evidence);
    CreateExactly(fp, m, s, candidateId, p, evidence);
    var built := BuildCandidate(fp, m, candidateId, p, evidence);
    if built.Success? {
      LimitationsExactly(fp, m, candidateId, p, evidence);
      assert Keeps(fp, m, candidateId, p, evidence, built.value);
    }
    forall c | Keeps(fp, m, candidateId, p, evidence, c)
      ensures built.Success? && c.fields == built.value.fields
    {
      assert Proposable(m, candidateId, p, evidence, c.fields);
      OneProposable(m, candidateId, p, evidence, c.fields, built.value.fields);
    }
  }

  lemma OneProposable(
    m: MappingState, candidateId: string, p: Proposal, evidence: seq<Binding>, f: RuleFields, g: RuleFields)
    requires Proposable(m, candidateId, p, evidence, f) && Proposable(m, candidateId, p, evidence, g)
    ensures f == g
  {
    hide ValidFields, Blank;
    SourcesAreTyped(m, p, evidence, f);
    SourcesAreTyped(m, p, evidence, g);
    EvaluationTypeExactly(p);
    SeverityExactly(p);
    hide EvaluationTypeOf, SeverityOf, EvaluationName, SeverityName;
    assert evidence[0] in evidence;
  }

  // Creating stores the built candidate under its id and content, if neither is taken, and touches nothing else.
  lemma CreateExactly(
    fp: RuleFields -> string, m: MappingState, s: Service, candidateId: string, p: Proposal, evidence: seq<Binding>)
    ensures var (s', r) := Create(fp, m, s, candidateId, p, evidence);
      var built := BuildCandidate(fp, m, candidateId, p, evidence);
      && (r.Done? <==>
          && built.Success? && candidateId !in s.candidates.candidates
          && fp(built.value.fields) !in s.candidates.fingerprints)
      && (r.Done? ==>
          && s'.candidates.candidates == s.candidates.candidates[candidateId := built.value]
          && s'.candidates.fingerprints == s.candidates.fingerprints[fp(built.value.fields) := candidateId])
      && (r.Raised? ==> s'.candidates == s.candidates)
      && s'.candidates.approved == s.candidates.approved && s'.rules == s.rules
  {
    BuiltExactly(fp, m, candidateId, p, evidence);
    hide BuildCandidate, Proposable;
  }

  // A candidate whose proposal stated a limitation, or with evidence that is not certain, is never approved, whatever
  // is called later.
  lemma LimitedIsNeverApproved(
    hash: ContentHash, fp: RuleFields -> string, m: MappingState, s: Service, candidateId: string, p: Proposal,
    evidence: seq<Binding>, calls: seq<(MappingState, ServiceOp)>)
    requires ServiceInv(hash, s) && Create(fp, m, s, candidateId, p, evidence).1.Done?
    requires !StatesNothing(p) || exists b | b in evidence :: b.confidence != HighConfidence
    ensures candidateId !in ServeAll(hash, fp, Create(fp, m, s, candidateId, p, evidence).0, calls).candidates.approved
  {
    hide ServiceInv, BuildCandidate, Create, ServeAll, CanBeApproved, StatesNothing;
    var s' := Create(fp, m, s, candidateId, p, evidence).0;
    var t := ServeAll(hash, fp, s', calls);
    CreateExactly(fp, m, s, candidateId, p, evidence);
    LimitationsExactly(fp, m, candidateId, p, evidence);
    CreateKeepsInv(m, hash, fp, s, candidateId, p, evidence);
    ServiceRunGrows(hash, fp, s', calls);
    ApprovedIsOpen(hash, t, candidateId);
    assert s'.candidates.candidates[candidateId] == BuildCandidate(fp, m, candidateId, p, evidence).value;
  }

  lemma ApprovedIsOpen(hash: ContentHash, s: Service, candidateId: string)
    requires ServiceInv(hash, s)
    ensures candidateId in s.candidates.approved ==>
      candidateId in s.candidates.candidates && CanBeApproved(s.candidates.candidates[candidateId])
  {
    hide CanBeApproved;
    assert ApprovedAsStored(s, candidateId);
  }
}

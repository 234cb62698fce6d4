/** Rule candidates: untrusted proposals bound to server-held evidence, reviewed, and activated as Rules. */
module Candidates {
  import opened Wrappers
  import opened Text
  import opened Contracts
  import opened Mappings
  import opened RuleRegistries

  datatype Confidence = HighConfidence | MediumConfidence | LowConfidence

  // A frozen section, held by the server.
  datatype Binding = Binding(reference: SourceReference, locator: string, excerpt: string, confidence: Confidence)

  datatype Candidate = Candidate(
    candidateId: string,
    sourceType: SourceType,
    evidence: seq<Binding>,
    fields: RuleFields,
    limitations: seq<string>,
    fingerprint: string)

  predicate ReviewRequired(b: Binding) {
    !b.confidence.HighConfidence?
  }

  predicate CanBeApproved(c: Candidate) {
    c.limitations == [] && forall b | b in c.evidence :: !ReviewRequired(b)
  }

  // The structured output a candidate is proposed with.
  datatype Payload = Text(text: string) | Array(items: seq<Payload>) | Null | Other

  type Proposal = map<string, Payload>

  const PROPOSAL_FIELDS: set<string> := {
    "resource_type", "control_key", "evaluation_type", "severity", "requirement", "remediation_type", "limitations"}

  function TextOf(p: Proposal, name: string): Option<string> {
    if name in p && p[name].Text? && !Blank(p[name].text) then Some(p[name].text) else None
  }

  function EvaluationTypeOf(p: Proposal): Option<EvaluationType> {
    match TextOf(p, "evaluation_type")
    case Some("IAC") => Some(Iac)
    case Some("AWS") => Some(Aws)
    case Some("HYBRID") => Some(Hybrid)
    case Some("MANUAL") => Some(Manual)
    case _ => None
  }

  function SeverityOf(p: Proposal): Option<Severity> {
    match TextOf(p, "severity")
    case Some("CRITICAL") => Some(Critical)
    case Some("HIGH") => Some(High)
    case Some("MEDIUM") => Some(Medium)
    case Some("LOW") => Some(Low)
    case _ => None
  }

  // dict.fromkeys: the first occurrence of each string.
  function Distinct(s: seq<string>): seq<string> {
    if s == [] then []
    else
      var init, last := Distinct(s[..|s| - 1]), s[|s| - 1];
      if last in init then init else init + [last]
  }

  function StrippedTexts(items: seq<Payload>): seq<string>
    requires forall i | i in items :: i.Text?
  {
    seq(|items|, k requires 0 <= k < |items| => assert items[k] in items; Strip(items[k].text))
  }

  function LimitationsOf(p: Payload): Result<seq<string>, GovernanceError> {
    match p
    case Null => Success([])
    case Array(items) =>
      if forall i | i in items :: i.Text? && !Blank(i.text)
      then Success(Distinct(StrippedTexts(items)))
      else Failure(Contract)
    case _ => Failure(Contract)
  }

  function ReviewNotes(evidence: seq<Binding>): seq<string> {
    if evidence == [] then []
    else
      var r := evidence[0].reference;
      (if ReviewRequired(evidence[0])
       then ["frozen source extraction requires human confirmation: "
         + r.documentId + "@" + r.documentVersion + "#" + r.section]
       else [])
      + ReviewNotes(evidence[1..])
  }

  function References(evidence: seq<Binding>): seq<SourceReference> {
    seq(|evidence|, k requires 0 <= k < |evidence| => evidence[k].reference)
  }

  // The one source type of the evidence, if it has one.
  function CommonType(m: MappingState, evidence: seq<Binding>): Result<SourceType, GovernanceError> {
    if evidence == [] then Failure(Contract)
    else
      var t :- SourceTypeOf(m, evidence[0].reference);
      if |evidence| == 1 then Success(t)
      else
        var rest :- CommonType(m, evidence[1..]);
        if t == rest then Success(t) else Failure(Contract)
  }

  function BuildFields(t: SourceType, p: Proposal, evidence: seq<Binding>): Result<RuleFields, GovernanceError> {
    var resourceType, controlKey := TextOf(p, "resource_type"), TextOf(p, "control_key");
    var evaluationType, severity := EvaluationTypeOf(p), SeverityOf(p);
    var requirement, remediationType := TextOf(p, "requirement"), TextOf(p, "remediation_type");
    if resourceType.None? || controlKey.None? || evaluationType.None? || severity.None?
      || requirement.None? || remediationType.None?
    then Failure(Contract)
    else
      var f := RuleFields(
        t, References(evidence), resourceType.value, controlKey.value,
        evaluationType.value, severity.value, requirement.value, remediationType.value);
      if ValidFields(f) then Success(f) else Failure(Contract)
  }

  function BuildCandidate(
    hash: RuleFields -> string, m: MappingState, candidateId: string, p: Proposal, evidence: seq<Binding>)
    : Result<Candidate, GovernanceError>
  {
    if Blank(candidateId) || !(p.Keys <= PROPOSAL_FIELDS) || evidence == [] then Failure(Contract)
    else
      var t :- CommonType(m, evidence);
      var f :- BuildFields(t, p, evidence);
      if exists r | r in f.references :: MappingKey(r, f.resourceType, f.controlKey) !in m.keys then Failure(NotFound)
      else
        var stated :- LimitationsOf(if "limitations" in p then p["limitations"] else Null);
        Success(Candidate(candidateId, t, evidence, f, Distinct(stated + ReviewNotes(evidence)), hash(f)))
  }

  datatype CandidateStores = CandidateStores(
    candidates: map<string, Candidate>,
    fingerprints: map<string, string>,
    approved: map<string, Identity>)

  function AddCandidate(s: CandidateStores, c: Candidate): (CandidateStores, Outcome) {
    if c.candidateId in s.candidates || c.fingerprint in s.fingerprints then (s, Raised(Conflict))
    else
      (s.(candidates := s.candidates[c.candidateId := c],
        fingerprints := s.fingerprints[c.fingerprint := c.candidateId]), Done)
  }

  function BindApproved(s: CandidateStores, candidateId: string, id: Identity): (CandidateStores, Outcome) {
    if candidateId !in s.candidates then (s, Raised(NotFound))
    else if candidateId in s.approved then (s, Raised(Conflict))
    else (s.(approved := s.approved[candidateId := id]), Done)
  }

  // Candidates and rules as the application service sees them.
  datatype Service = Service(candidates: CandidateStores, rules: Stores)

  // A Rule with server-owned identity and the candidate's stored fields.
  function RuleFrom(ruleId: string, version: int, f: RuleFields): Result<Rule, GovernanceError> {
    if IsRuleId(ruleId) && version >= 1 && ValidFields(f)
    then Success(Rule(ruleId, version, Active, f))
    else Failure(Contract)
  }

  // Assign version, activate, bind: three steps, each of which may raise.
  ghost function Approve(
    m: MappingState, hash: ContentHash, s: Service, candidateId: string, ruleId: string, actor: string, at: string)
    : (Service, Outcome)
  {
    if candidateId !in s.candidates.candidates then (s, Raised(NotFound))
    else if candidateId in s.candidates.approved then (s, Raised(Validation))
    else if !CanBeApproved(s.candidates.candidates[candidateId]) then (s, Raised(Validation))
    else
      match RuleFrom(ruleId, NextVersion(s.rules.rules, ruleId), s.candidates.candidates[candidateId].fields)
      case Failure(e) => (s, Raised(e))
      case Success(rule) =>
        var (rules, activated) := Activate(m, hash, s.rules, rule, actor, at);
        var s1 := s.(rules := rules);
        if activated.Raised? then (s1, activated)
        else
          var (candidates, bound) := BindApproved(s.candidates, candidateId, rule.Identity());
          (s1.(candidates := candidates), bound)
  }

  // An invalid proposal and a duplicate both leave the stores alone.
  function Create(
    hash: RuleFields -> string, m: MappingState, s: Service, candidateId: string, p: Proposal, evidence: seq<Binding>)
    : (Service, Outcome)
  {
    match BuildCandidate(hash, m, candidateId, p, evidence)
    case Failure(e) => (s, Raised(e))
    case Success(c) =>
      var (candidates, added) := AddCandidate(s.candidates, c);
      (s.(candidates := candidates), added)
  }

  datatype ServiceOp =
    | CreateOp(candidateId: string, proposal: Proposal, evidence: seq<Binding>)
    | ApproveOp(candidateId: string, ruleId: string, actor: string, at: string)
    | RegistryOp(op: Op)

  ghost function Serve(
    m: MappingState, hash: ContentHash, fp: RuleFields -> string, s: Service, op: ServiceOp): (Service, Outcome)
  {
    match op
    case CreateOp(id, p, evidence) => Create(fp, m, s, id, p, evidence)
    case ApproveOp(id, ruleId, actor, at) => Approve(m, hash, s, id, ruleId, actor, at)
    case RegistryOp(op) =>
      var (rules, outcome) := Call(m, hash, s.rules, op);
      (s.(rules := rules), outcome)
  }

  // Any service calls, interleaved with direct calls of the rule registry and changes of the mappings.
  ghost function ServeAll(
    hash: ContentHash, fp: RuleFields -> string, s: Service, calls: seq<(MappingState, ServiceOp)>): Service
  {
    if calls == [] then s
    else
      var last := calls[|calls| - 1];
      Serve(last.0, hash, fp, ServeAll(hash, fp, s, calls[..|calls| - 1]), last.1).0
  }

  const NEW_SERVICE := Service(CandidateStores(map[], map[], map[]), RuleRegistries.EMPTY)

  // An approved candidate has no open limitation and its rule was approved with exactly its stored fields.
  ghost predicate ApprovedAsStored(s: Service, candidateId: string) {
    candidateId in s.candidates.approved ==>
      var id := s.candidates.approved[candidateId];
      && candidateId in s.candidates.candidates
      && CanBeApproved(s.candidates.candidates[candidateId])
      && id in s.rules.snapshots
      && s.rules.snapshots[id].rule == Rule(id.0, id.1, Active, s.candidates.candidates[candidateId].fields)
  }

  ghost predicate OneRuleEach(s: Service) {
    forall a, b | a in s.candidates.approved && b in s.candidates.approved && a != b ::
      s.candidates.approved[a] != s.candidates.approved[b]
  }

  // Candidates are stored under their own id, and no two share a fingerprint.
  ghost predicate CandidatesIndexed(s: CandidateStores) {
    && (forall c | c in s.candidates ::
         && s.candidates[c].candidateId == c
         && ValidFields(s.candidates[c].fields)
         && s.candidates[c].fields.references == References(s.candidates[c].evidence)
         && s.candidates[c].fingerprint in s.fingerprints
         && s.fingerprints[s.candidates[c].fingerprint] == c)
  }

  ghost predicate ServiceInv(hash: ContentHash, s: Service) {
    && Inv(hash, s.rules)
    && CandidatesIndexed(s.candidates)
    && (forall c :: ApprovedAsStored(s, c))
    && OneRuleEach(s)
  }

  lemma BuiltCandidateIsValid(
    fp: RuleFields -> string, m: MappingState, candidateId: string, p: Proposal, evidence: seq<Binding>)
    requires BuildCandidate(fp, m, candidateId, p, evidence).Success?
    ensures var c := BuildCandidate(fp, m, candidateId, p, evidence).value;
      && c.candidateId == candidateId && c.evidence == evidence && c.fingerprint == fp(c.fields)
      && ValidFields(c.fields) && c.fields.references == References(evidence)
      && forall r | r in c.fields.references :: MappingKey(r, c.fields.resourceType, c.fields.controlKey) in m.keys
  {
    hide ValidFields, TextOf, EvaluationTypeOf, SeverityOf, LimitationsOf;
  }

  // When approval succeeds, what it requires and what it leaves behind; when it raises, nothing changes.
  lemma ApproveIsAllOrNothing(
    m: MappingState, hash: ContentHash, s: Service, candidateId: string, ruleId: string, actor: string, at: string)
    ensures var (s', r) := Approve(m, hash, s, candidateId, ruleId, actor, at);
      && (r.Raised? ==> s' == s)
      && (r.Done? ==>
           var id := (ruleId, NextVersion(s.rules.rules, ruleId));
           && candidateId in s.candidates.candidates
           && candidateId !in s.candidates.approved
           && CanBeApproved(s.candidates.candidates[candidateId])
           && id !in s.rules.rules
           && s'.candidates == s.candidates.(approved := s.candidates.approved[candidateId := id])
           && s'.rules.rules
             == s.rules.rules[id := Rule(ruleId, id.1, Active, s.candidates.candidates[candidateId].fields)]
           && id in s'.rules.snapshots
           && s'.rules.snapshots[id].rule == s'.rules.rules[id])
  {
    hide SemanticContent, IsRuleId, ValidFields, CanBeApproved, CheckReferences;
  }

  lemma ServeKeepsInv(m: MappingState, hash: ContentHash, fp: RuleFields -> string, s: Service, op: ServiceOp)
    requires ServiceInv(hash, s)
    ensures ServiceInv(hash, Serve(m, hash, fp, s, op).0)
    ensures Serve(m, hash, fp, s, op).1.Raised? ==> Serve(m, hash, fp, s, op).0 == s
    ensures Later(s.rules, Serve(m, hash, fp, s, op).0.rules)
  {
    hide ServiceInv, Later, Approve, Create, Call;
    match op {
      case CreateOp(id, p, evidence) =>
        CreateKeepsInv(m, hash, fp, s, id, p, evidence);
        LaterThanItself(s.rules);
      case ApproveOp(id, ruleId, actor, at) =>
        ApproveKeepsInv(m, hash, s, id, ruleId, actor, at);
        ApproveIsAllOrNothing(m, hash, s, id, ruleId, actor, at);
      case RegistryOp(op) =>
        RegistryCallKeepsInv(m, hash, s, op);
    }
  }

  lemma RegistryCallKeepsInv(m: MappingState, hash: ContentHash, s: Service, op: Op)
    requires ServiceInv(hash, s)
    ensures var (rules, r) := Call(m, hash, s.rules, op);
      ServiceInv(hash, s.(rules := rules)) && (r.Raised? ==> rules == s.rules) && Later(s.rules, rules)
  {
    hide Call, CanBeApproved, ValidFields, Inv;
    CallIsAtomic(m, hash, s.rules, op);
    CallIsLater(m, hash, s.rules, op);
    forall c ensures ApprovedAsStored(s.(rules := Call(m, hash, s.rules, op).0), c) {
      assert ApprovedAsStored(s, c);
    }
  }

  lemma CreateKeepsInv(
    m: MappingState, hash: ContentHash, fp: RuleFields -> string, s: Service, candidateId: string, p: Proposal,
    evidence: seq<Binding>)
    requires ServiceInv(hash, s)
    ensures ServiceInv(hash, Create(fp, m, s, candidateId, p, evidence).0)
    ensures Create(fp, m, s, candidateId, p, evidence).1.Raised? ==> Create(fp, m, s, candidateId, p, evidence).0 == s
    ensures Create(fp, m, s, candidateId, p, evidence).0.rules == s.rules
  {
    hide BuildCandidate, Inv, ValidFields, CanBeApproved;
    var s' := Create(fp, m, s, candidateId, p, evidence).0;
    var built := BuildCandidate(fp, m, candidateId, p, evidence);
    if built.Success? {
      BuiltCandidateIsValid(fp, m, candidateId, p, evidence);
    }
    forall c ensures ApprovedAsStored(s', c) {
      assert ApprovedAsStored(s, c);
    }
  }

  lemma ApproveActivates(
    m: MappingState, hash: ContentHash, s: Service, candidateId: string, ruleId: string, actor: string, at: string)
    requires Approve(m, hash, s, candidateId, ruleId, actor, at).1.Done?
    ensures candidateId in s.candidates.candidates
    ensures var rule :=
      Rule(ruleId, NextVersion(s.rules.rules, ruleId), Active, s.candidates.candidates[candidateId].fields);
      Approve(m, hash, s, candidateId, ruleId, actor, at).0.rules
        == Call(m, hash, s.rules, ActivateOp(rule, actor, at)).0
  {
    hide Activate, IsRuleId, ValidFields, CanBeApproved, NextVersion;
  }

  lemma ApproveKeepsInv(
    m: MappingState, hash: ContentHash, s: Service, candidateId: string, ruleId: string, actor: string, at: string)
    requires ServiceInv(hash, s)
    ensures ServiceInv(hash, Approve(m, hash, s, candidateId, ruleId, actor, at).0)
    ensures Later(s.rules, Approve(m, hash, s, candidateId, ruleId, actor, at).0.rules)
  {
    hide Call, Approve, Inv, ValidFields, CanBeApproved, NextVersion;
    var (s', r) := Approve(m, hash, s, candidateId, ruleId, actor, at);
    ApproveIsAllOrNothing(m, hash, s, candidateId, ruleId, actor, at);
    if r.Done? {
      var rule := Rule(ruleId, NextVersion(s.rules.rules, ruleId), Active, s.candidates.candidates[candidateId].fields);
      ApproveActivates(m, hash, s, candidateId, ruleId, actor, at);
      CallIsAtomic(m, hash, s.rules, ActivateOp(rule, actor, at));
      CallIsLater(m, hash, s.rules, ActivateOp(rule, actor, at));
      forall c ensures ApprovedAsStored(s', c) {
        assert ApprovedAsStored(s, c);
      }
      forall c | c in s.candidates.approved ensures s.candidates.approved[c] != rule.Identity() {
        assert ApprovedAsStored(s, c);
        ApprovedIsRegistered(hash, s, c);
      }
    }
  }

  lemma ApprovedIsRegistered(hash: ContentHash, s: Service, c: string)
    requires ServiceInv(hash, s) && c in s.candidates.approved
    ensures s.candidates.approved[c] in s.rules.rules
  {
    assert ApprovedAsStored(s, c);
    assert Aligned(hash, s.rules, s.candidates.approved[c]);
  }

  // Over every run of the service: see ServiceInv for what holds of candidates and rules.
  lemma {:induction false} ServiceRunKeepsInv(
    hash: ContentHash, fp: RuleFields -> string, calls: seq<(MappingState, ServiceOp)>)
    ensures ServiceInv(hash, ServeAll(hash, fp, NEW_SERVICE, calls))
  {
    if calls != [] {
      var before, last := calls[..|calls| - 1], calls[|calls| - 1];
      ServiceRunKeepsInv(hash, fp, before);
      ServeKeepsInv(last.0, hash, fp, ServeAll(hash, fp, NEW_SERVICE, before), last.1);
    }
  }

  // s' came later than s: approvals of candidates are never withdrawn or rebound, and each newer one has a
  // version above every version its rule id already had.
  ghost predicate Grown(s: Service, s': Service) {
    && Later(s.rules, s'.rules)
    && (forall c | c in s.candidates.candidates ::
         c in s'.candidates.candidates && s'.candidates.candidates[c] == s.candidates.candidates[c])
    && (forall c | c in s.candidates.approved ::
         c in s'.candidates.approved && s'.candidates.approved[c] == s.candidates.approved[c])
    && (forall c, v | c in s'.candidates.approved && c !in s.candidates.approved
          && (s'.candidates.approved[c].0, v) in s.rules.rules :: v < s'.candidates.approved[c].1)
  }

  lemma ServeGrows(m: MappingState, hash: ContentHash, fp: RuleFields -> string, s: Service, op: ServiceOp)
    requires ServiceInv(hash, s)
    ensures Grown(s, Serve(m, hash, fp, s, op).0)
  {
    hide Later, ServiceInv, Approve, BuildCandidate, Call, Inv, CandidatesIndexed, NextVersion;
    ServeKeepsInv(m, hash, fp, s, op);
    if op.ApproveOp? {
      ApproveIsAllOrNothing(m, hash, s, op.candidateId, op.ruleId, op.actor, op.at);
    }
  }

  lemma GrownTransitive(s: Service, t: Service, u: Service)
    requires Grown(s, t) && Grown(t, u)
    ensures Grown(s, u)
  {
    LaterTransitive(s.rules, t.rules, u.rules);
    forall c, v | c in u.candidates.approved && c !in s.candidates.approved
        && (u.candidates.approved[c].0, v) in s.rules.rules
      ensures v < u.candidates.approved[c].1
    {
      if c in t.candidates.approved {
        assert u.candidates.approved[c] == t.candidates.approved[c];
      } else {
        assert (u.candidates.approved[c].0, v) in t.rules.rules;
      }
    }
  }

  lemma {:induction false} ServiceRunGrows(
    hash: ContentHash, fp: RuleFields -> string, s: Service, calls: seq<(MappingState, ServiceOp)>)
    requires ServiceInv(hash, s)
    ensures ServiceInv(hash, ServeAll(hash, fp, s, calls)) && Grown(s, ServeAll(hash, fp, s, calls))
  {
    if calls != [] {
      var before, last := calls[..|calls| - 1], calls[|calls| - 1];
      var t := ServeAll(hash, fp, s, before);
      ServiceRunGrows(hash, fp, s, before);
      ServeKeepsInv(last.0, hash, fp, t, last.1);
      ServeGrows(last.0, hash, fp, t, last.1);
      hide ServiceInv, Grown, Serve;
      GrownTransitive(s, t, ServeAll(hash, fp, s, calls));
    }
  }

  // Two candidates approved under one rule id at different times carry increasing versions.
  lemma LaterApprovalHasHigherVersion(
    hash: ContentHash, fp: RuleFields -> string, s: Service, calls: seq<(MappingState, ServiceOp)>,
    a: string, b: string)
    requires ServiceInv(hash, s) && a in s.candidates.approved && b !in s.candidates.approved
    requires var s' := ServeAll(hash, fp, s, calls);
      b in s'.candidates.approved && s'.candidates.approved[b].0 == s.candidates.approved[a].0
    ensures s.candidates.approved[a].1 < ServeAll(hash, fp, s, calls).candidates.approved[b].1
  {
    ServiceRunGrows(hash, fp, s, calls);
    ApprovedIsRegistered(hash, s, a);
    hide ServiceInv, ServeAll, Later;
    assert s.candidates.approved[a] == (s.candidates.approved[a].0, s.candidates.approved[a].1);
  }

  // Exactly when a reviewer's approval goes through. An approval that was registered ahead of its rule, under
  // the version the service would assign, blocks it.
  lemma ApproveSucceedsExactly(
    m: MappingState, hash: ContentHash, s: Service, candidateId: string, ruleId: string, actor: string, at: string)
    requires ServiceInv(hash, s) && candidateId in s.candidates.candidates
    ensures var c, version := s.candidates.candidates[candidateId], NextVersion(s.rules.rules, ruleId);
      Approve(m, hash, s, candidateId, ruleId, actor, at).1.Done? <==>
        && candidateId !in s.candidates.approved && CanBeApproved(c)
        && IsRuleId(ruleId) && Prefix(c.fields.sourceType) <= ruleId && version >= 1
        && !Blank(actor) && !Blank(at)
        && (ruleId, version) !in s.rules.approvals
        && forall r | r in c.fields.references :: Supported(m, c.fields, r)
  {
    hide SemanticContent, IsRuleId, ValidFields, CanBeApproved, CheckReferences, Supported, Blank;
    var c := s.candidates.candidates[candidateId];
    CheckReferencesExactly(m, c.fields, c.fields.references);
  }

  // An approval of the version the service would assign next, registered ahead of its rule, makes every approval
  // under that rule id raise.
  lemma TakenVersionBlocks(
    m: MappingState, hash: ContentHash, s: Service, candidateId: string, ruleId: string, actor: string, at: string)
    requires ServiceInv(hash, s) && (ruleId, NextVersion(s.rules.rules, ruleId)) in s.rules.approvals
    ensures Approve(m, hash, s, candidateId, ruleId, actor, at).1.Raised?
  {
    hide ServiceInv, IsRuleId, CanBeApproved, Supported, Blank;
    if candidateId in s.candidates.candidates {
      ApproveSucceedsExactly(m, hash, s, candidateId, ruleId, actor, at);
    }
  }

  // A reviewer's approval that would go through no longer does once somebody registers that approval directly.
  lemma ApprovalAheadBlocks(
    m: MappingState, hash: ContentHash, fp: RuleFields -> string, s: Service,
    candidateId: string, ruleId: string, actor: string, at: string, approval: RuleApproval)
    requires ServiceInv(hash, s) && Approve(m, hash, s, candidateId, ruleId, actor, at).1.Done?
    requires approval.Identity() == (ruleId, NextVersion(s.rules.rules, ruleId))
    ensures var (s', r) := Serve(m, hash, fp, s, RegistryOp(AddApprovalOp(approval)));
      && r.Done? && ServiceInv(hash, s')
      && (ruleId, NextVersion(s'.rules.rules, ruleId)) in s'.rules.approvals
      && Approve(m, hash, s', candidateId, ruleId, actor, at).1.Raised?
  {
    hide ServiceInv, Approve, IsRuleId, CanBeApproved, Supported, Blank, NextVersion;
    ApproveIsAllOrNothing(m, hash, s, candidateId, ruleId, actor, at);
    ApproveSucceedsExactly(m, hash, s, candidateId, ruleId, actor, at);
    ServeKeepsInv(m, hash, fp, s, RegistryOp(AddApprovalOp(approval)));
    var s' := Serve(m, hash, fp, s, RegistryOp(AddApprovalOp(approval))).0;
    assert s'.rules.rules == s.rules.rules;
    TakenVersionBlocks(m, hash, s', candidateId, ruleId, actor, at);
  }

  lemma SameVersionsSameNext(rules: map<Identity, Rule>, rules': map<Identity, Rule>, ruleId: string)
    requires forall v :: (ruleId, v) in rules <==> (ruleId, v) in rules'
    ensures NextVersion(rules, ruleId) == NextVersion(rules', ruleId)
  {
    hide NextVersion;
    var n, n' := NextVersion(rules, ruleId), NextVersion(rules', ruleId);
    assert (ruleId, n - 1) in rules ==> n - 1 < n';
    assert (ruleId, n' - 1) in rules' ==> n' - 1 < n;
  }

  // And it stays so: whatever is called afterwards, with whatever mappings, no candidate can be approved under that
  // rule id as long as nobody registers a rule under it.
  lemma BlockedForGood(
    hash: ContentHash, fp: RuleFields -> string, s: Service, calls: seq<(MappingState, ServiceOp)>, ruleId: string,
    m: MappingState, candidateId: string, actor: string, at: string)
    requires ServiceInv(hash, s) && (ruleId, NextVersion(s.rules.rules, ruleId)) in s.rules.approvals
    requires forall v | (ruleId, v) in ServeAll(hash, fp, s, calls).rules.rules :: (ruleId, v) in s.rules.rules
    ensures Approve(m, hash, ServeAll(hash, fp, s, calls), candidateId, ruleId, actor, at).1.Raised?
  {
    hide ServiceInv, Approve, ServeAll, NextVersion;
    var t := ServeAll(hash, fp, s, calls);
    ServiceRunGrows(hash, fp, s, calls);
    SameVersionsSameNext(s.rules.rules, t.rules.rules, ruleId);
    TakenVersionBlocks(m, hash, t, candidateId, ruleId, actor, at);
  }
}

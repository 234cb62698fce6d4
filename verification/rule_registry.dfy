/** The Rule registry: four linked stores, written in the order the operations write them.

    An operation maps the stores to the stores it leaves behind and to its outcome. When an exception would
    interrupt it half way, the stores it leaves behind are the half-written ones: that no call ever does
    this is a theorem, not a convention of the model. */
module RuleRegistries {
  import opened Extremes
  import opened Wrappers
  import opened Text
  import opened Contracts
  import opened Mappings

  datatype Snapshot = Snapshot(rule: Rule, approval: RuleApproval)

  datatype AuditAction = ApprovedAndActivated | DeprecatedAction

  datatype AuditEntry = AuditEntry(
    ruleId: string, version: int, action: AuditAction, actor: string, occurredAt: string,
    ruleContentHash: string, reason: Option<string>)

  datatype Stores = Stores(
    rules: map<Identity, Rule>,
    approvals: map<Identity, RuleApproval>,
    snapshots: map<Identity, Snapshot>,
    audit: seq<AuditEntry>)

  type ContentHash = RuleFields -> string

  function HashOf(hash: ContentHash, rule: Rule): string {
    hash(SemanticContent(rule))
  }

  function MakeSnapshot(hash: ContentHash, rule: Rule, approval: RuleApproval): Result<Snapshot, GovernanceError> {
    if rule.Identity() != approval.Identity() then Failure(Validation)
    else if approval.ruleContentHash != HashOf(hash, rule) then Failure(Validation)
    else Success(Snapshot(rule, approval))
  }

  function CheckReference(m: MappingState, f: RuleFields, r: SourceReference): Option<GovernanceError> {
    if MappingKey(r, f.resourceType, f.controlKey) !in m.keys then Some(NotFound)
    else
      match SourceTypeOf(m, r)
      case Failure(e) => Some(e)
      case Success(t) => if t != f.sourceType then Some(Validation) else None
  }

  function CheckReferences(m: MappingState, f: RuleFields, rs: seq<SourceReference>): Option<GovernanceError> {
    if rs == [] then None
    else
      var e := CheckReference(m, f, rs[0]);
      if e.Some? then e else CheckReferences(m, f, rs[1..])
  }

  // A reference the mappings support for a rule: mapped for its resource and control, of a source of its type.
  predicate Supported(m: MappingState, f: RuleFields, r: SourceReference) {
    MappingKey(r, f.resourceType, f.controlKey) in m.keys && SourceTypeOf(m, r) == Success(f.sourceType)
  }

  lemma {:induction false} CheckReferencesExactly(m: MappingState, f: RuleFields, rs: seq<SourceReference>)
    ensures CheckReferences(m, f, rs).None? <==> forall r | r in rs :: Supported(m, f, r)
  {
    if rs != [] {
      CheckReferencesExactly(m, f, rs[1..]);
      assert rs[0] in rs;
    }
  }

  function Prefix(t: SourceType): string {
    if t.Global? then "GLOBAL-" else "CUSTOMER-"
  }

  function ValidateRule(
    m: MappingState, hash: ContentHash, s: Stores, rule: Rule, given: Option<RuleApproval>): Option<GovernanceError>
  {
    if rule.Identity() in s.rules then Some(Conflict)
    else if !(Prefix(rule.fields.sourceType) <= rule.ruleId) then Some(Validation)
    else
      var e := CheckReferences(m, rule.fields, rule.fields.references);
      if e.Some? then e
      else
        var approval :=
          if given.Some? then given
          else if rule.Identity() in s.approvals then Some(s.approvals[rule.Identity()])
          else None;
        if approval.None? then Some(Validation)
        else if approval.value.ruleContentHash != HashOf(hash, rule) then Some(Validation)
        else None
  }

  datatype Outcome = Done | Raised(error: GovernanceError)

  function AddApproval(s: Stores, approval: RuleApproval): (Stores, Outcome) {
    if approval.Identity() in s.approvals then (s, Raised(Conflict))
    else (s.(approvals := s.approvals[approval.Identity() := approval]), Done)
  }

  function AddRule(m: MappingState, hash: ContentHash, s: Stores, rule: Rule): (Stores, Outcome) {
    var id, e := rule.Identity(), ValidateRule(m, hash, s, rule, None);
    if e.Some? then (s, Raised(e.value))
    else
      var s1 := s.(rules := s.rules[id := rule]);
      if id !in s1.approvals then (s1, Raised(NotFound))
      else
        match MakeSnapshot(hash, rule.(status := Active), s1.approvals[id])
        case Failure(e) => (s1, Raised(e))
        case Success(snapshot) => (s1.(snapshots := s1.snapshots[id := snapshot]), Done)
  }

  function ApprovalFor(
    hash: ContentHash, rule: Rule, actor: string, at: string): Result<RuleApproval, GovernanceError>
  {
    if IsRuleId(rule.ruleId) && rule.version >= 1 && !Blank(actor) && !Blank(at)
    then Success(RuleApproval(rule.ruleId, rule.version, HashOf(hash, rule), actor, at))
    else Failure(Contract)
  }

  function Activate(
    m: MappingState, hash: ContentHash, s: Stores, rule: Rule, actor: string, at: string): (Stores, Outcome)
  {
    var id := rule.Identity();
    if !rule.status.Active? then (s, Raised(Validation))
    else if id in s.approvals then (s, Raised(Conflict))
    else
      match ApprovalFor(hash, rule, actor, at)
      case Failure(e) => (s, Raised(e))
      case Success(approval) =>
        var e := ValidateRule(m, hash, s, rule, Some(approval));
        if e.Some? then (s, Raised(e.value))
        else
          match MakeSnapshot(hash, rule, approval)
          case Failure(e) => (s, Raised(e))
          case Success(snapshot) =>
            var entry := AuditEntry(rule.ruleId, rule.version, ApprovedAndActivated, actor, at,
              approval.ruleContentHash, None);
            var s' := Stores(
              s.rules[id := rule], s.approvals[id := approval], s.snapshots[id := snapshot], s.audit + [entry]);
            (s', Done)
  }

  function ActiveRule(s: Stores, id: Identity): Result<Rule, GovernanceError> {
    if id !in s.rules then Failure(NotFound)
    else if !s.rules[id].status.Active? then Failure(Validation)
    else Success(s.rules[id])
  }

  function Deprecate(s: Stores, id: Identity, actor: string, at: string, reason: string): (Stores, Outcome) {
    if Blank(actor) || Blank(at) || Blank(reason) then (s, Raised(Validation))
    else
      match ActiveRule(s, id)
      case Failure(e) => (s, Raised(e))
      case Success(rule) =>
        var s1 := s.(rules := s.rules[rule.Identity() := rule.(status := Deprecated)]);
        if id !in s1.approvals then (s1, Raised(NotFound))
        else
          var entry := AuditEntry(id.0, id.1, DeprecatedAction, actor, at, s1.approvals[id].ruleContentHash,
            Some(reason));
          (s1.(audit := s1.audit + [entry]), Done)
  }

  datatype Op =
    | AddApprovalOp(approval: RuleApproval)
    | AddRuleOp(rule: Rule)
    | ActivateOp(rule: Rule, actor: string, at: string)
    | DeprecateOp(id: Identity, actor: string, at: string, reason: string)

  // One call, made while the mappings are m.
  function Call(m: MappingState, hash: ContentHash, s: Stores, op: Op): (Stores, Outcome) {
    match op
    case AddApprovalOp(approval) => AddApproval(s, approval)
    case AddRuleOp(rule) => AddRule(m, hash, s, rule)
    case ActivateOp(rule, b, at) => Activate(m, hash, s, rule, b, at)
    case DeprecateOp(id, b, at, reason) => Deprecate(s, id, b, at, reason)
  }

  // Any calls in any order, succeeding or not, the mappings changing freely in between.
  function Run(hash: ContentHash, s: Stores, calls: seq<(MappingState, Op)>): Stores {
    if calls == [] then s
    else
      var last := calls[|calls| - 1];
      Call(last.0, hash, Run(hash, s, calls[..|calls| - 1]), last.1).0
  }

  const EMPTY := Stores(map[], map[], map[], [])

  // The stores agree on one identity: a registered rule has its approval and its snapshot, the snapshot is
  // the rule as approved, and the approval binds the rule's content.
  ghost predicate Aligned(hash: ContentHash, s: Stores, id: Identity) {
    && (id in s.rules <==> id in s.snapshots)
    && (id in s.approvals ==> s.approvals[id].Identity() == id)
    && (id in s.rules ==>
         && s.rules[id].Identity() == id
         && id in s.approvals
         && s.snapshots[id] == Snapshot(s.rules[id].(status := Active), s.approvals[id])
         && s.approvals[id].ruleContentHash == HashOf(hash, s.rules[id]))
  }

  ghost predicate Inv(hash: ContentHash, s: Stores) {
    forall id :: Aligned(hash, s, id)
  }

  lemma StatusIsNotContent(hash: ContentHash, rule: Rule, status: RuleStatus)
    ensures HashOf(hash, rule.(status := status)) == HashOf(hash, rule)
  {
  }

  // A call that raises leaves all four stores as they were, and every call keeps them aligned.
  lemma CallIsAtomic(m: MappingState, hash: ContentHash, s: Stores, op: Op)
    requires Inv(hash, s)
    ensures Inv(hash, Call(m, hash, s, op).0)
    ensures Call(m, hash, s, op).1.Raised? ==> Call(m, hash, s, op).0 == s
  {
    hide SemanticContent, ValidateRule;
    var s' := Call(m, hash, s, op).0;
    var touched := match op
      case AddApprovalOp(approval) => approval.Identity()
      case AddRuleOp(rule) => rule.Identity()
      case ActivateOp(rule, _, _) => rule.Identity()
      case DeprecateOp(id, _, _, _) => id;
    assert Aligned(hash, s, touched);
    match op {
      case AddApprovalOp(approval) =>
      case AddRuleOp(rule) =>
        StatusIsNotContent(hash, rule, Active);
        ValidatedRuleIsNew(m, hash, s, rule, None);
      case ActivateOp(rule, b, at) =>
        if ApprovalFor(hash, rule, b, at).Success? {
          ValidatedRuleIsNew(m, hash, s, rule, Some(ApprovalFor(hash, rule, b, at).value));
        }
      case DeprecateOp(id, _, _, _) =>
        if id in s.rules {
          StatusIsNotContent(hash, s.rules[id], Deprecated);
        }
    }
    forall id ensures Aligned(hash, s', id) {
      assert Aligned(hash, s, id);
    }
  }

  lemma ValidatedRuleIsNew(m: MappingState, hash: ContentHash, s: Stores, rule: Rule, given: Option<RuleApproval>)
    ensures ValidateRule(m, hash, s, rule, given).None? ==>
      && rule.Identity() !in s.rules
      && (given.None? ==>
           && rule.Identity() in s.approvals
           && s.approvals[rule.Identity()].ruleContentHash == HashOf(hash, rule))
  {
  }

  lemma {:induction false} RunKeepsInv(hash: ContentHash, s: Stores, calls: seq<(MappingState, Op)>)
    requires Inv(hash, s)
    ensures Inv(hash, Run(hash, s, calls))
  {
    if calls != [] {
      var before := calls[..|calls| - 1];
      RunKeepsInv(hash, s, before);
      CallIsAtomic(calls[|calls| - 1].0, hash, Run(hash, s, before), calls[|calls| - 1].1);
    }
  }

  // What a registered rule was checked for.
  ghost predicate RuleSupported(m: MappingState, rule: Rule) {
    && Prefix(rule.fields.sourceType) <= rule.ruleId
    && forall r | r in rule.fields.references :: Supported(m, rule.fields, r)
  }

  ghost predicate AllSupported(m: MappingState, s: Stores) {
    forall id | id in s.rules :: RuleSupported(m, s.rules[id])
  }

  // The mappings of a run only grow, up to m.
  ghost predicate Growing(calls: seq<(MappingState, Op)>, m: MappingState) {
    && (forall i, j | 0 <= i < j < |calls| :: Extends(calls[i].0, calls[j].0))
    && (forall i | 0 <= i < |calls| :: Extends(calls[i].0, m))
  }

  lemma SupportGrows(m: MappingState, m': MappingState, s: Stores)
    requires Extends(m, m') && AllSupported(m, s)
    ensures AllSupported(m', s)
  {
    forall id, r | id in s.rules && r in s.rules[id].fields.references
      ensures Supported(m', s.rules[id].fields, r)
    {
      assert RuleSupported(m, s.rules[id]) && Supported(m, s.rules[id].fields, r);
    }
  }

  lemma ValidatedIsSupported(
    m: MappingState, hash: ContentHash, s: Stores, rule: Rule, given: Option<RuleApproval>)
    requires ValidateRule(m, hash, s, rule, given).None?
    ensures RuleSupported(m, rule) && RuleSupported(m, rule.(status := Active))
  {
    CheckReferencesExactly(m, rule.fields, rule.fields.references);
  }

  lemma CallKeepsSupport(m: MappingState, hash: ContentHash, s: Stores, op: Op)
    requires AllSupported(m, s)
    ensures AllSupported(m, Call(m, hash, s, op).0)
  {
    hide SemanticContent, ValidateRule, RuleSupported, HashOf, Blank, IsRuleId;
    match op
    case AddApprovalOp(_) =>
    case AddRuleOp(rule) =>
      if ValidateRule(m, hash, s, rule, None).None? {
        ValidatedIsSupported(m, hash, s, rule, None);
      }
    case ActivateOp(rule, b, at) =>
      var approval := ApprovalFor(hash, rule, b, at);
      if approval.Success? && ValidateRule(m, hash, s, rule, Some(approval.value)).None? {
        ValidatedIsSupported(m, hash, s, rule, Some(approval.value));
      }
    case DeprecateOp(id, _, _, _) =>
      if id in s.rules {
        DeprecatedIsSupported(m, s.rules[id]);
      }
  }

  lemma DeprecatedIsSupported(m: MappingState, rule: Rule)
    requires RuleSupported(m, rule)
    ensures RuleSupported(m, rule.(status := Deprecated))
  {
  }

  // What the mapping registry only growing is for: after every run, each registered rule, deprecated ones included,
  // is still supported by the mappings.
  lemma {:induction false} RulesStaySupported(hash: ContentHash, calls: seq<(MappingState, Op)>, m: MappingState)
    requires Growing(calls, m)
    ensures AllSupported(m, Run(hash, EMPTY, calls))
  {
    if calls != [] {
      var before, last := calls[..|calls| - 1], calls[|calls| - 1];
      assert Extends(last.0, m);
      hide Call, AllSupported, Extends;
      RulesStaySupported(hash, before, last.0);
      CallKeepsSupport(last.0, hash, Run(hash, EMPTY, before), last.1);
      SupportGrows(last.0, m, Run(hash, EMPTY, calls));
    } else {
      NothingToSupport(m);
    }
  }

  lemma NothingToSupport(m: MappingState)
    ensures AllSupported(m, EMPTY)
  {
  }

  // What is once recorded stays: approvals and snapshots never change, rules only lose their ACTIVE status.
  ghost predicate Later(s: Stores, s': Stores) {
    && (forall id | id in s.snapshots :: id in s'.snapshots && s'.snapshots[id] == s.snapshots[id])
    && (forall id | id in s.approvals :: id in s'.approvals && s'.approvals[id] == s.approvals[id])
    && (forall id | id in s.rules ::
         && id in s'.rules
         && (s'.rules[id] == s.rules[id] || s'.rules[id] == s.rules[id].(status := Deprecated)))
    && s.audit <= s'.audit
  }

  lemma CallIsLater(m: MappingState, hash: ContentHash, s: Stores, op: Op)
    requires Inv(hash, s)
    ensures Later(s, Call(m, hash, s, op).0)
  {
    hide Later, AddApproval, AddRule, Activate, Deprecate, Inv;
    match op
    case AddApprovalOp(approval) =>
      AddApprovalIsLater(s, approval);
    case AddRuleOp(rule) =>
      AddRuleIsLater(m, hash, s, rule);
    case ActivateOp(rule, b, at) =>
      ActivateIsLater(m, hash, s, rule, b, at);
    case DeprecateOp(id, b, at, reason) =>
      DeprecateIsLater(hash, s, id, b, at, reason);
  }

  lemma AddApprovalIsLater(s: Stores, approval: RuleApproval)
    ensures Later(s, AddApproval(s, approval).0)
  {
  }

  lemma AddRuleIsLater(m: MappingState, hash: ContentHash, s: Stores, rule: Rule)
    requires Inv(hash, s)
    ensures Later(s, AddRule(m, hash, s, rule).0)
  {
    hide SemanticContent, ValidateRule, HashOf;
    assert Aligned(hash, s, rule.Identity());
    ValidatedRuleIsNew(m, hash, s, rule, None);
  }

  lemma ActivateIsLater(m: MappingState, hash: ContentHash, s: Stores, rule: Rule, actor: string, at: string)
    requires Inv(hash, s)
    ensures Later(s, Activate(m, hash, s, rule, actor, at).0)
  {
    hide SemanticContent, ValidateRule, HashOf, ApprovalFor;
    assert Aligned(hash, s, rule.Identity());
    var approval := ApprovalFor(hash, rule, actor, at);
    if approval.Success? {
      ValidatedRuleIsNew(m, hash, s, rule, Some(approval.value));
    }
  }

  lemma DeprecateIsLater(hash: ContentHash, s: Stores, id: Identity, actor: string, at: string, reason: string)
    requires Inv(hash, s)
    ensures Later(s, Deprecate(s, id, actor, at, reason).0)
  {
    hide SemanticContent, HashOf, Blank;
    assert Aligned(hash, s, id);
  }

  lemma {:induction false} RunIsLater(hash: ContentHash, s: Stores, calls: seq<(MappingState, Op)>)
    requires Inv(hash, s)
    ensures Later(s, Run(hash, s, calls))
  {
    if calls != [] {
      var before, last := calls[..|calls| - 1], calls[|calls| - 1];
      RunIsLater(hash, s, before);
      RunKeepsInv(hash, s, before);
      CallIsLater(last.0, hash, Run(hash, s, before), last.1);
      LaterTransitive(s, Run(hash, s, before), Run(hash, s, calls));
    }
  }

  lemma LaterThanItself(s: Stores)
    ensures Later(s, s)
  {
  }

  lemma LaterTransitive(s: Stores, t: Stores, u: Stores)
    requires Later(s, t) && Later(t, u)
    ensures Later(s, u)
  {
  }

  // ---- what each call does, store by store ----

  ghost predicate SameElsewhere<V>(before: map<Identity, V>, after: map<Identity, V>, id: Identity) {
    forall other | other != id ::
      && (other in after <==> other in before)
      && (other in before ==> after[other] == before[other])
  }

  // One approval more.
  ghost predicate Approves(s: Stores, s': Stores, approval: RuleApproval) {
    var id := (approval.ruleId, approval.version);
    && id !in s.approvals && id in s'.approvals && s'.approvals[id] == approval
    && SameElsewhere(s.approvals, s'.approvals, id)
    && s'.rules == s.rules && s'.snapshots == s.snapshots && s'.audit == s.audit
  }

  // One rule more, in the status it has, and a snapshot of it as ACTIVE with the approval already there.
  ghost predicate Restores(hash: ContentHash, s: Stores, s': Stores, rule: Rule) {
    var id := (rule.ruleId, rule.version);
    && id !in s.rules && id in s.approvals && s.approvals[id].ruleContentHash == hash(SemanticContent(rule))
    && id in s'.rules && s'.rules[id] == rule
    && id in s'.snapshots && s'.snapshots[id].approval == s.approvals[id]
    && s'.snapshots[id].rule == Rule(rule.ruleId, rule.version, Active, rule.fields)
    && SameElsewhere(s.rules, s'.rules, id) && SameElsewhere(s.snapshots, s'.snapshots, id)
    && s'.approvals == s.approvals && s'.audit == s.audit
  }

  // One rule, one approval bound to its content, one snapshot of both and one audit entry more.
  ghost predicate Activates(hash: ContentHash, s: Stores, s': Stores, rule: Rule, actor: string, at: string) {
    var id, digest := (rule.ruleId, rule.version), hash(SemanticContent(rule));
    && id !in s.rules && id !in s.approvals && id !in s.snapshots
    && id in s'.rules && s'.rules[id] == rule && rule.status == Active
    && id in s'.approvals && s'.approvals[id] == RuleApproval(rule.ruleId, rule.version, digest, actor, at)
    && id in s'.snapshots && s'.snapshots[id].rule == rule && s'.snapshots[id].approval == s'.approvals[id]
    && SameElsewhere(s.rules, s'.rules, id) && SameElsewhere(s.approvals, s'.approvals, id)
    && SameElsewhere(s.snapshots, s'.snapshots, id)
    && |s'.audit| == |s.audit| + 1 && s'.audit[..|s.audit|] == s.audit
    && var entry := s'.audit[|s.audit|];
    && entry.ruleId == rule.ruleId && entry.version == rule.version && entry.action == ApprovedAndActivated
    && entry.actor == actor && entry.occurredAt == at && entry.ruleContentHash == digest && entry.reason == None
  }

  // One ACTIVE rule becomes DEPRECATED, and one audit entry says so; approvals and snapshots stay.
  ghost predicate Deprecates(s: Stores, s': Stores, id: Identity, actor: string, at: string, reason: string) {
    && id in s.rules && s.rules[id].status == Active && id in s.approvals
    && id in s'.rules && s'.rules[id].status == Deprecated
    && s'.rules[id].ruleId == s.rules[id].ruleId && s'.rules[id].version == s.rules[id].version
    && s'.rules[id].fields == s.rules[id].fields
    && SameElsewhere(s.rules, s'.rules, id)
    && s'.approvals == s.approvals && s'.snapshots == s.snapshots
    && |s'.audit| == |s.audit| + 1 && s'.audit[..|s.audit|] == s.audit
    && var entry := s'.audit[|s.audit|];
    && entry.ruleId == id.0 && entry.version == id.1 && entry.action == DeprecatedAction
    && entry.actor == actor && entry.occurredAt == at && entry.reason == Some(reason)
    && entry.ruleContentHash == s.approvals[id].ruleContentHash
  }

  // A rule whose type, references and identity the registry accepts.
  ghost predicate WellFounded(m: MappingState, rule: Rule) {
    && (rule.fields.sourceType == Global ==> "GLOBAL-" <= rule.ruleId)
    && (rule.fields.sourceType == Customer ==> "CUSTOMER-" <= rule.ruleId)
    && forall r | r in rule.fields.references ::
      && MappingKey(r, rule.fields.resourceType, rule.fields.controlKey) in m.keys
      && (r.documentId, r.documentVersion) in m.sources
      && m.sources[(r.documentId, r.documentVersion)] == rule.fields.sourceType
  }

  lemma AddApprovalExactly(s: Stores, approval: RuleApproval)
    ensures var (s', r) := AddApproval(s, approval);
      && (r.Done? <==> (approval.ruleId, approval.version) !in s.approvals)
      && (r.Done? ==> Approves(s, s', approval))
      && (r.Raised? ==> r.error == Conflict && s' == s)
  {
  }

  lemma WellFoundedExactly(m: MappingState, rule: Rule)
    ensures WellFounded(m, rule) <==>
      Prefix(rule.fields.sourceType) <= rule.ruleId && CheckReferences(m, rule.fields, rule.fields.references).None?
  {
    CheckReferencesExactly(m, rule.fields, rule.fields.references);
  }

  lemma AddRuleExactly(m: MappingState, hash: ContentHash, s: Stores, rule: Rule)
    requires Inv(hash, s)
    ensures var (s', r) := AddRule(m, hash, s, rule);
      && (r.Done? <==>
          && (rule.ruleId, rule.version) !in s.rules && WellFounded(m, rule)
          && (rule.ruleId, rule.version) in s.approvals
          && s.approvals[(rule.ruleId, rule.version)].ruleContentHash == hash(SemanticContent(rule)))
      && (r.Done? ==> Restores(hash, s, s', rule))
      && (r.Raised? ==> s' == s)
  {
    WellFoundedExactly(m, rule);
    CallIsAtomic(m, hash, s, AddRuleOp(rule));
    StatusIsNotContent(hash, rule, Active);
    assert Aligned(hash, s, rule.Identity());
    hide SemanticContent, WellFounded, CheckReferences, Prefix, Inv;
  }

  lemma ActivateExactly(m: MappingState, hash: ContentHash, s: Stores, rule: Rule, actor: string, at: string)
    requires Inv(hash, s)
    ensures var (s', r) := Activate(m, hash, s, rule, actor, at);
      && (r.Done? <==>
          && rule.status == Active && (rule.ruleId, rule.version) !in s.approvals && WellFounded(m, rule)
          && IsRuleId(rule.ruleId) && rule.version >= 1 && !Blank(actor) && !Blank(at))
      && (r.Done? ==> Activates(hash, s, s', rule, actor, at))
      && (r.Raised? ==> s' == s)
  {
    WellFoundedExactly(m, rule);
    assert Aligned(hash, s, rule.Identity());
    hide SemanticContent, WellFounded, CheckReferences, Prefix, Inv, IsRuleId, Blank;
  }

  lemma DeprecateExactly(hash: ContentHash, s: Stores, id: Identity, actor: string, at: string, reason: string)
    requires Inv(hash, s)
    ensures var (s', r) := Deprecate(s, id, actor, at, reason);
      && (r.Done? <==>
          && !Blank(actor) && !Blank(at) && !Blank(reason)
          && id in s.rules && s.rules[id].status == Active)
      && (r.Done? ==> Deprecates(s, s', id, actor, at, reason))
      && (r.Raised? ==> s' == s)
  {
    assert Aligned(hash, s, id);
    hide SemanticContent, Blank, Inv;
  }

  function Versions(rules: map<Identity, Rule>, ruleId: string): set<int> {
    set id | id in rules.Keys && id.0 == ruleId :: id.1
  }

  // One above every registered version of the id, or 1.
  function NextVersion(rules: map<Identity, Rule>, ruleId: string): (n: int)
    ensures forall v | (ruleId, v) in rules :: v < n
    ensures if exists v :: (ruleId, v) in rules then (ruleId, n - 1) in rules else n == 1
  {
    var versions := Versions(rules, ruleId);
    assert forall v | (ruleId, v) in rules :: (ruleId, v).1 in versions;
    if versions == {} then 1 else Greatest(versions) + 1
  }

  class RuleRegistry {
    const hash: ContentHash
    const mappings: SourceControlMappingRegistry
    var rules: map<Identity, Rule>
    var approvals: map<Identity, RuleApproval>
    var snapshots: map<Identity, Snapshot>
    var audit: seq<AuditEntry>

    ghost function Contents(): Stores
      reads this
    {
      Stores(rules, approvals, snapshots, audit)
    }

    ghost predicate Valid()
      reads this
    {
      Inv(hash, Contents())
    }

    constructor (hash: ContentHash, mappings: SourceControlMappingRegistry)
      ensures this.hash == hash && this.mappings == mappings
      ensures Contents() == EMPTY && Valid()
    {
      this.hash, this.mappings := hash, mappings;
      rules, approvals, snapshots, audit := map[], map[], map[], [];
    }

    method AddApproval(approval: RuleApproval) returns (r: Outcome)
      modifies this
      ensures (Contents(), r) == Call(mappings.state, hash, old(Contents()), AddApprovalOp(approval))
      ensures old(Valid()) ==> Valid() && (r.Raised? ==> Contents() == old(Contents()))
      ensures r.Done? ==> Approves(old(Contents()), Contents(), approval)
    {
      ghost var before := Contents();
      if Inv(hash, before) {
        CallIsAtomic(mappings.state, hash, before, AddApprovalOp(approval));
      }
      AddApprovalExactly(before, approval);
      if approval.Identity() in approvals {
        return Raised(Conflict);
      }
      approvals := approvals[approval.Identity() := approval];
      return Done;
    }

    method Validate(rule: Rule, given: Option<RuleApproval>) returns (e: Option<GovernanceError>)
      ensures e == ValidateRule(mappings.state, hash, Contents(), rule, given)
    {
      if rule.Identity() in rules {
        return Some(Conflict);
      }
      if !(Prefix(rule.fields.sourceType) <= rule.ruleId) {
        return Some(Validation);
      }
      var references := rule.fields.references;
      for k := 0 to |references|
        invariant CheckReferences(mappings.state, rule.fields, references)
          == CheckReferences(mappings.state, rule.fields, references[k..])
      {
        var problem := CheckReference(mappings.state, rule.fields, references[k]);
        if problem.Some? {
          return problem;
        }
      }
      var approval := given;
      if approval.None? && rule.Identity() in approvals {
        approval := Some(approvals[rule.Identity()]);
      }
      if approval.None? || approval.value.ruleContentHash != HashOf(hash, rule) {
        return Some(Validation);
      }
      return None;
    }

    // Writes the rule before it builds the snapshot.
    method Add(rule: Rule) returns (r: Outcome)
      modifies this
      ensures (Contents(), r) == Call(mappings.state, hash, old(Contents()), AddRuleOp(rule))
      ensures old(Valid()) ==> Valid() && (r.Raised? ==> Contents() == old(Contents()))
      ensures old(Valid()) && r.Done? ==> Restores(hash, old(Contents()), Contents(), rule)
    {
      ghost var before := Contents();
      if Inv(hash, before) {
        CallIsAtomic(mappings.state, hash, before, AddRuleOp(rule));
        AddRuleExactly(mappings.state, hash, before, rule);
      }
      var problem := Validate(rule, None);
      if problem.Some? {
        return Raised(problem.value);
      }
      rules := rules[rule.Identity() := rule];
      if rule.Identity() !in approvals {
        return Raised(NotFound);
      }
      var snapshot := MakeSnapshot(hash, rule.(status := Active), approvals[rule.Identity()]);
      if snapshot.Failure? {
        return Raised(snapshot.error);
      }
      snapshots := snapshots[rule.Identity() := snapshot.value];
      return Done;
    }

    method Activate(rule: Rule, actor: string, at: string) returns (r: Outcome)
      modifies this
      ensures (Contents(), r) == Call(mappings.state, hash, old(Contents()), ActivateOp(rule, actor, at))
      ensures old(Valid()) ==> Valid() && (r.Raised? ==> Contents() == old(Contents()))
      ensures old(Valid()) && r.Done? ==> Activates(hash, old(Contents()), Contents(), rule, actor, at)
    {
      ghost var before := Contents();
      if Inv(hash, before) {
        CallIsAtomic(mappings.state, hash, before, ActivateOp(rule, actor, at));
        ActivateExactly(mappings.state, hash, before, rule, actor, at);
      }
      if !rule.status.Active? {
        return Raised(Validation);
      }
      if rule.Identity() in approvals {
        return Raised(Conflict);
      }
      var approval := ApprovalFor(hash, rule, actor, at);
      if approval.Failure? {
        return Raised(approval.error);
      }
      var problem := Validate(rule, Some(approval.value));
      if problem.Some? {
        return Raised(problem.value);
      }
      var snapshot := MakeSnapshot(hash, rule, approval.value);
      if snapshot.Failure? {
        return Raised(snapshot.error);
      }
      approvals := approvals[rule.Identity() := approval.value];
      rules := rules[rule.Identity() := rule];
      snapshots := snapshots[rule.Identity() := snapshot.value];
      audit := audit + [AuditEntry(
        rule.ruleId, rule.version, ApprovedAndActivated, actor, at, approval.value.ruleContentHash, None)];
      return Done;
    }

    // Writes the status before it looks the approval up.
    method Deprecate(id: Identity, actor: string, at: string, reason: string) returns (r: Outcome)
      modifies this
      ensures (Contents(), r) == Call(mappings.state, hash, old(Contents()), DeprecateOp(id, actor, at, reason))
      ensures old(Valid()) ==> Valid() && (r.Raised? ==> Contents() == old(Contents()))
      ensures old(Valid()) && r.Done? ==> Deprecates(old(Contents()), Contents(), id, actor, at, reason)
    {
      ghost var before := Contents();
      if Inv(hash, before) {
        CallIsAtomic(mappings.state, hash, before, DeprecateOp(id, actor, at, reason));
        DeprecateExactly(hash, before, id, actor, at, reason);
      }
      if Blank(actor) || Blank(at) || Blank(reason) {
        return Raised(Validation);
      }
      if id !in rules {
        return Raised(NotFound);
      }
      if !rules[id].status.Active? {
        return Raised(Validation);
      }
      rules := rules[rules[id].Identity() := rules[id].(status := Deprecated)];
      if id !in approvals {
        return Raised(NotFound);
      }
      audit := audit + [AuditEntry(
        id.0, id.1, DeprecatedAction, actor, at, approvals[id].ruleContentHash, Some(reason))];
      return Done;
    }

    method GetNextVersion(ruleId: string) returns (n: int)
      ensures n == NextVersion(rules, ruleId)
    {
      var unseen, highest, found := rules.Keys, 0, false;
      while unseen != {}
        invariant unseen <= rules.Keys
        invariant forall id | id in rules.Keys - unseen && id.0 == ruleId :: found && id.1 <= highest
        invariant found ==> (ruleId, highest) in rules
        invariant !found ==> highest == 0
      {
        var id :| id in unseen;
        if id.0 == ruleId && (!found || highest < id.1) {
          highest, found := id.1, true;
        }
        unseen := unseen - {id};
      }
      if found {
        assert (ruleId, highest).1 in Versions(rules, ruleId);
      }
      return highest + 1;
    }
  }
}

/** Policy profiles and the Effective Rule Sets built from them. */
module EffectiveRules {
  import opened Wrappers
  import opened Sorting
  import opened Sums
  import opened Contracts
  import opened Mappings
  import opened RuleRegistries

  datatype PolicyProfile = PolicyProfile(profileId: string, version: int, pins: seq<Identity>)

  datatype Phase = Initial | PreDeploy | PostDeploy | ManualReview

  predicate InPhase(phase: Phase, e: EvaluationType) {
    match phase
    case Initial => e.Iac?
    case PreDeploy => !e.Manual?
    case PostDeploy => !e.Manual?
    case ManualReview => e.Manual?
  }

  // The value the rule set hash is computed from.
  datatype Projection = Projection(
    profileId: string, profileVersion: int, phase: Phase, settingsHash: string, rules: seq<Rule>)

  datatype EffectiveRuleSet = EffectiveRuleSet(content: Projection, ruleSetHash: string)

  // The rule order: id first, then version.
  predicate RuleLe(a: Rule, b: Rule) {
    if a.ruleId == b.ruleId then a.version <= b.version else StringLe(a.ruleId, b.ruleId)
  }

  lemma RuleLeOrders()
    ensures TotalPreorder(RuleLe)
    ensures forall a, b :: RuleLe(a, b) && RuleLe(b, a) ==> a.Identity() == b.Identity()
  {
    forall a: Rule, b: Rule
      ensures RuleLe(a, b) || RuleLe(b, a)
      ensures RuleLe(a, b) && RuleLe(b, a) ==> a.Identity() == b.Identity()
    {
      StringLeTotal(a.ruleId, b.ruleId);
    }
    forall a: Rule, b: Rule, c: Rule | RuleLe(a, b) && RuleLe(b, c) ensures RuleLe(a, c) {
      if a.ruleId != b.ruleId && b.ruleId != c.ruleId {
        StringLeTransitive(a.ruleId, b.ruleId, c.ruleId);
        StringLeTotal(a.ruleId, b.ruleId);
      }
    }
  }

  function Pinned(s: Stores, pin: Identity, reproduce: bool): Result<Rule, GovernanceError> {
    if reproduce
    then if pin in s.snapshots then Success(s.snapshots[pin].rule) else Failure(NotFound)
    else ActiveRule(s, pin)
  }

  // The rules of the pins the phase evaluates, in pin order; the first missing pin ends the build.
  function Select(s: Stores, pins: seq<Identity>, phase: Phase, reproduce: bool): Result<seq<Rule>, GovernanceError> {
    if pins == [] then Success([])
    else
      var rule :- Pinned(s, pins[0], reproduce);
      var rest :- Select(s, pins[1..], phase, reproduce);
      Success(if InPhase(phase, rule.fields.evaluationType) then [rule] + rest else rest)
  }

  function BuildRuleSet(
    hash: Projection -> string, profile: PolicyProfile, phase: Phase, settingsHash: string, s: Stores, reproduce: bool)
    : Result<EffectiveRuleSet, GovernanceError>
  {
    var selected :- Select(s, profile.pins, phase, reproduce);
    var content := Projection(profile.profileId, profile.version, phase, settingsHash, Sort(selected, RuleLe));
    Success(EffectiveRuleSet(content, hash(content)))
  }

  function Reproduce(hash: Projection -> string, profile: PolicyProfile, phase: Phase, settingsHash: string, s: Stores)
    : Result<EffectiveRuleSet, GovernanceError>
  {
    BuildRuleSet(hash, profile, phase, settingsHash, s, true)
  }

  lemma {:induction false} SelectedIsReproduced(
    hash: ContentHash, s: Stores, s': Stores, pins: seq<Identity>, phase: Phase, reproduce: bool)
    requires Inv(hash, s) && Later(s, s')
    requires Select(s, pins, phase, reproduce).Success?
    ensures Select(s', pins, phase, true) == Select(s, pins, phase, reproduce)
  {
    if pins != [] {
      assert Aligned(hash, s, pins[0]);
      SelectedIsReproduced(hash, s, s', pins[1..], phase, reproduce);
    }
  }

  // Whatever was built or reproduced once is reproduced exactly, hash input included, after any later calls.
  lemma BuiltIsReproduced(
    ruleHash: ContentHash, setHash: Projection -> string, s: Stores, calls: seq<(MappingState, Op)>,
    profile: PolicyProfile, phase: Phase, settingsHash: string, reproduce: bool)
    requires Inv(ruleHash, s)
    requires BuildRuleSet(setHash, profile, phase, settingsHash, s, reproduce).Success?
    ensures Reproduce(setHash, profile, phase, settingsHash, Run(ruleHash, s, calls))
      == BuildRuleSet(setHash, profile, phase, settingsHash, s, reproduce)
  {
    RunIsLater(ruleHash, s, calls);
    SelectedIsReproduced(ruleHash, s, Run(ruleHash, s, calls), profile.pins, phase, reproduce);
  }

  lemma {:induction false} SelectSucceedsExactly(s: Stores, pins: seq<Identity>, phase: Phase, reproduce: bool)
    ensures Select(s, pins, phase, reproduce).Success? <==> forall p | p in pins :: Pinned(s, p, reproduce).Success?
  {
    if pins != [] {
      SelectSucceedsExactly(s, pins[1..], phase, reproduce);
      assert pins == [pins[0]] + pins[1..];
    }
  }

  // Which evaluations each phase runs.
  const EVALUATES: set<(Phase, EvaluationType)> := {
    (Initial, Iac),
    (PreDeploy, Iac), (PreDeploy, Aws), (PreDeploy, Hybrid),
    (PostDeploy, Iac), (PostDeploy, Aws), (PostDeploy, Hybrid),
    (Phase.ManualReview, Manual)}

  lemma InPhaseExactly(phase: Phase, e: EvaluationType)
    ensures InPhase(phase, e) <==> (phase, e) in EVALUATES
  {
    match phase {
      case Initial => case PreDeploy => case PostDeploy => case ManualReview =>
    }
  }

  // A pin a build accepts: with an approved snapshot to reproduce, of an ACTIVE rule to build anew.
  predicate Available(s: Stores, pin: Identity, reproduce: bool) {
    if reproduce then pin in s.snapshots else pin in s.rules && s.rules[pin].status == Active
  }

  // By rule id, then by version.
  ghost predicate InRuleOrder(rules: seq<Rule>) {
    forall i, j | 0 <= i < j < |rules| ::
      if rules[i].ruleId == rules[j].ruleId then rules[i].version <= rules[j].version
      else StringLe(rules[i].ruleId, rules[j].ruleId)
  }

  // A set is built exactly when every pin is available. It carries the profile, the phase and the settings it was built
  // for and the hash of them and its rules; a rule is in it exactly as often as a pin of the phase names it, in rule
  // order.
  lemma BuiltRulesAreThePinned(
    setHash: Projection -> string, s: Stores, profile: PolicyProfile, phase: Phase, settingsHash: string,
    reproduce: bool)
    ensures var r := BuildRuleSet(setHash, profile, phase, settingsHash, s, reproduce);
      && (r.Success? <==> forall p | p in profile.pins :: Available(s, p, reproduce))
      && (r.Success? ==>
           var content := r.value.content;
           && content.profileId == profile.profileId && content.profileVersion == profile.version
           && content.phase == phase && content.settingsHash == settingsHash
           && r.value.ruleSetHash == setHash(content)
           && InRuleOrder(content.rules)
           && forall rule :: multiset(content.rules)[rule]
                == if (phase, rule.fields.evaluationType) in EVALUATES
                   then |Naming(s, profile.pins, rule, reproduce)| else 0)
  {
    SelectSucceedsExactly(s, profile.pins, phase, reproduce);
    var selected := Select(s, profile.pins, phase, reproduce);
    if selected.Success? {
      RuleLeOrders();
      SortSorts(selected.value, RuleLe);
      SortPermutes(selected.value, RuleLe);
      RuleOrder(Sort(selected.value, RuleLe));
      forall rule
        ensures multiset(selected.value)[rule]
          == if (phase, rule.fields.evaluationType) in EVALUATES
             then |Naming(s, profile.pins, rule, reproduce)| else 0
      {
        PinCountCounts(s, profile.pins, rule, reproduce);
        InPhaseExactly(phase, rule.fields.evaluationType);
        SelectCounts(s, profile.pins, phase, reproduce, rule);
      }
    }
  }

  lemma RuleOrder(rules: seq<Rule>)
    requires Sorted(rules, RuleLe)
    ensures InRuleOrder(rules)
  {
    hide StringLe;
    forall i, j | 0 <= i < j < |rules|
      ensures if rules[i].ruleId == rules[j].ruleId then rules[i].version <= rules[j].version
        else StringLe(rules[i].ruleId, rules[j].ruleId)
    {
      assert RuleLe(rules[i], rules[j]);
    }
  }

  // The rule a pin names: as approved, or as registered.
  function Named(s: Stores, pin: Identity, reproduce: bool): Rule
    requires Available(s, pin, reproduce)
  {
    if reproduce then s.snapshots[pin].rule else s.rules[pin]
  }

  function Naming(s: Stores, pins: seq<Identity>, rule: Rule, reproduce: bool): set<nat> {
    set k: nat | k < |pins| && Available(s, pins[k], reproduce) && Named(s, pins[k], reproduce) == rule
  }

  lemma NamingNext(s: Stores, pins: seq<Identity>, rule: Rule, reproduce: bool)
    requires pins != []
    ensures |Naming(s, pins, rule, reproduce)| == |Naming(s, pins[..|pins| - 1], rule, reproduce)|
      + if Pinned(s, pins[|pins| - 1], reproduce) == Success(rule) then 1 else 0
  {
    var n := |pins| - 1;
    var before, after := Naming(s, pins[..n], rule, reproduce), Naming(s, pins, rule, reproduce);
    PinnedExactly(s, pins[n], rule, reproduce);
    hide Available, Pinned, Named;
    assert n !in before;
    assert after == before + if Pinned(s, pins[n], reproduce) == Success(rule) then {n} else {};
  }

  lemma PinnedExactly(s: Stores, pin: Identity, rule: Rule, reproduce: bool)
    ensures Pinned(s, pin, reproduce) == Success(rule)
      <==> Available(s, pin, reproduce) && Named(s, pin, reproduce) == rule
  {
  }

  // Counting pins: those that name the rule.
  lemma {:induction false} PinCountCounts(s: Stores, pins: seq<Identity>, rule: Rule, reproduce: bool)
    ensures PinCount(s, pins, rule, reproduce) == |Naming(s, pins, rule, reproduce)|
  {
    if pins != [] {
      var n := |pins| - 1;
      PinCountCounts(s, pins[..n], rule, reproduce);
      NamingNext(s, pins, rule, reproduce);
      hide Naming, Pinned;
    } else {
      assert Naming(s, pins, rule, reproduce) == {};
    }
  }

  function Resolves(s: Stores, rule: Rule, reproduce: bool): Identity -> nat {
    (pin: Identity) => if Pinned(s, pin, reproduce) == Success(rule) then 1 else 0
  }

  // How many pins resolve to the rule.
  function PinCount(s: Stores, pins: seq<Identity>, rule: Rule, reproduce: bool): nat {
    Sum(pins, Resolves(s, rule, reproduce))
  }

  lemma {:induction false} SelectCounts(s: Stores, pins: seq<Identity>, phase: Phase, reproduce: bool, rule: Rule)
    requires Select(s, pins, phase, reproduce).Success?
    ensures multiset(Select(s, pins, phase, reproduce).value)[rule]
      == if InPhase(phase, rule.fields.evaluationType) then PinCount(s, pins, rule, reproduce) else 0
  {
    hide Sum, Pinned, InPhase;
    var f := Resolves(s, rule, reproduce);
    if pins == [] {
      SumOfNone(f);
    } else {
      SelectCounts(s, pins[1..], phase, reproduce, rule);
      SumConcat([pins[0]], pins[1..], f);
      SumOfOne(pins[0], f);
      assert [pins[0]] + pins[1..] == pins;
    }
  }

  lemma SelectPermutes(s: Stores, pins: seq<Identity>, pins': seq<Identity>, phase: Phase, reproduce: bool)
    requires multiset(pins) == multiset(pins')
    ensures var a, b := Select(s, pins, phase, reproduce), Select(s, pins', phase, reproduce);
      (a.Success? <==> b.Success?) && (a.Success? ==> multiset(a.value) == multiset(b.value))
  {
    hide Select, Resolves;
    var a, b := Select(s, pins, phase, reproduce), Select(s, pins', phase, reproduce);
    SelectSucceedsExactly(s, pins, phase, reproduce);
    SelectSucceedsExactly(s, pins', phase, reproduce);
    assert forall p :: p in pins <==> p in multiset(pins);
    assert forall p :: p in pins' <==> p in multiset(pins');
    if a.Success? {
      forall rule ensures multiset(a.value)[rule] == multiset(b.value)[rule] {
        SelectCounts(s, pins, phase, reproduce, rule);
        SelectCounts(s, pins', phase, reproduce, rule);
        SumPermutes(pins, pins', Resolves(s, rule, reproduce));
      }
    }
  }

  // Reordering a profile's pins changes neither whether a set can be built nor the set.
  lemma PinOrderIsIrrelevant(
    ruleHash: ContentHash, setHash: Projection -> string, s: Stores,
    profile: PolicyProfile, pins: seq<Identity>, phase: Phase, settingsHash: string, reproduce: bool)
    requires Inv(ruleHash, s) && multiset(pins) == multiset(profile.pins)
    ensures var a := BuildRuleSet(setHash, profile, phase, settingsHash, s, reproduce);
      var b := BuildRuleSet(setHash, profile.(pins := pins), phase, settingsHash, s, reproduce);
      (a.Success? <==> b.Success?) && (a.Success? ==> a == b)
  {
    hide Inv, Select;
    var a, b := Select(s, profile.pins, phase, reproduce), Select(s, pins, phase, reproduce);
    SelectPermutes(s, profile.pins, pins, phase, reproduce);
    if a.Success? {
      SelectedTiesEqual(ruleHash, s, profile.pins, phase, reproduce);
      RuleLeOrders();
      SortIgnoresOrder(a.value, b.value, RuleLe);
    }
  }

  lemma {:induction false} SelectedTiesEqual(
    hash: ContentHash, s: Stores, pins: seq<Identity>, phase: Phase, reproduce: bool)
    requires Inv(hash, s) && Select(s, pins, phase, reproduce).Success?
    ensures forall r | r in Select(s, pins, phase, reproduce).value :: Pinned(s, r.Identity(), reproduce) == Success(r)
    ensures TiesEqual(Select(s, pins, phase, reproduce).value, RuleLe)
  {
    if pins != [] {
      assert Aligned(hash, s, pins[0]);
      SelectedTiesEqual(hash, s, pins[1..], phase, reproduce);
    }
    RuleLeOrders();
  }

  class PolicyProfileRegistry {
    const rules: RuleRegistry
    var profiles: map<Identity, PolicyProfile>

    constructor (rules: RuleRegistry)
      ensures this.rules == rules && profiles == map[]
    {
      this.rules := rules;
      profiles := map[];
    }

    // A profile is registered when its identity is new and every pin is ACTIVE at that moment.
    method Add(profile: PolicyProfile) returns (r: Outcome)
      modifies this
      ensures profiles
        == if r.Done? then old(profiles)[(profile.profileId, profile.version) := profile] else old(profiles)
      ensures r.Done? <==>
        && (profile.profileId, profile.version) !in old(profiles)
        && forall p | p in profile.pins :: p in rules.rules && rules.rules[p].status == Active
    {
      if (profile.profileId, profile.version) in profiles {
        return Raised(Conflict);
      }
      for k := 0 to |profile.pins|
        invariant forall j | 0 <= j < k ::
          profile.pins[j] in rules.rules && rules.rules[profile.pins[j]].status == Active
      {
        assert profile.pins[k] in profile.pins;
        if profile.pins[k] !in rules.rules {
          return Raised(NotFound);
        }
        if !rules.rules[profile.pins[k]].status.Active? {
          return Raised(Validation);
        }
      }
      profiles := profiles[(profile.profileId, profile.version) := profile];
      return Done;
    }
  }

  // A profile whose pins were all ACTIVE once can be reproduced at any later time, in every phase.
  lemma RegisteredProfileReproduces(
    ruleHash: ContentHash, setHash: Projection -> string, s: Stores, calls: seq<(MappingState, Op)>,
    profile: PolicyProfile, phase: Phase, settingsHash: string)
    requires Inv(ruleHash, s) && forall p | p in profile.pins :: p in s.rules && s.rules[p].status == Active
    ensures Reproduce(setHash, profile, phase, settingsHash, Run(ruleHash, s, calls)).Success?
  {
    SelectSucceedsExactly(s, profile.pins, phase, false);
    BuiltIsReproduced(ruleHash, setHash, s, calls, profile, phase, settingsHash, false);
  }

  // After a deprecation, whatever is called later: the rule stays DEPRECATED and is not deprecated twice, no profile
  // with the pin can be registered and no new set with it be built, but its approved version can still be reproduced.
  lemma DeprecationIsFinal(
    ruleHash: ContentHash, setHash: Projection -> string, s: Stores, id: Identity, actor: string, at: string,
    reason: string, calls: seq<(MappingState, Op)>, profile: PolicyProfile, phase: Phase, settingsHash: string)
    requires Inv(ruleHash, s) && Deprecate(s, id, actor, at, reason).1.Done? && id in profile.pins
    ensures var t := Run(ruleHash, Deprecate(s, id, actor, at, reason).0, calls);
      && id in t.rules && t.rules[id].status == Deprecated
      && Deprecate(t, id, actor, at, reason).1.Raised?
      && !Available(t, id, false)
      && BuildRuleSet(setHash, profile, phase, settingsHash, t, false).Failure?
      && Available(t, id, true) && t.snapshots[id].rule == s.rules[id]
      && ((forall p | p in profile.pins :: p in s.rules) ==>
          Reproduce(setHash, profile, phase, settingsHash, t).Success?)
  {
    hide BuildRuleSet, Inv, Run, Deprecate;
    var s' := Deprecate(s, id, actor, at, reason).0;
    var t := Run(ruleHash, s', calls);
    DeprecateExactly(ruleHash, s, id, actor, at, reason);
    AfterDeprecation(ruleHash, s, s', id, actor, at, reason, calls);
    DeprecateExactly(ruleHash, t, id, actor, at, reason);
    BuiltRulesAreThePinned(setHash, t, profile, phase, settingsHash, false);
    BuiltRulesAreThePinned(setHash, t, profile, phase, settingsHash, true);
    assert Reproduce(setHash, profile, phase, settingsHash, t)
      == BuildRuleSet(setHash, profile, phase, settingsHash, t, true);
  }

  lemma AfterDeprecation(
    ruleHash: ContentHash, s: Stores, s': Stores, id: Identity, actor: string, at: string, reason: string,
    calls: seq<(MappingState, Op)>)
    requires Inv(ruleHash, s) && Deprecate(s, id, actor, at, reason) == (s', Done)
    ensures var t := Run(ruleHash, s', calls);
      && Inv(ruleHash, t)
      && id in t.rules && t.rules[id].status == Deprecated
      && id in t.snapshots && t.snapshots[id].rule == s.rules[id]
      && forall p | p in s.rules :: p in t.snapshots
  {
    DeprecateExactly(ruleHash, s, id, actor, at, reason);
    CallIsAtomic(MappingState({}, map[], {}), ruleHash, s, DeprecateOp(id, actor, at, reason));
    RunKeepsInv(ruleHash, s', calls);
    RunIsLater(ruleHash, s', calls);
    hide Run, Deprecate, SemanticContent;
    forall p | p in s.rules ensures p in s'.snapshots {
      assert Aligned(ruleHash, s, p);
    }
    assert Aligned(ruleHash, s, id);
  }
}

/** The registry of candidates and the service that creates and approves them. */
module CandidateService {
  import opened Contracts
  import opened RuleRegistries
  import opened Candidates
  import opened CandidateLaws

  class RuleCandidateRegistry {
    var candidates: map<string, Candidate>
    var fingerprints: map<string, string>
    var approved: map<string, Identity>

    ghost function Contents(): CandidateStores
      reads this
    {
      CandidateStores(candidates, fingerprints, approved)
    }

    constructor ()
      ensures Contents() == NEW_SERVICE.candidates
    {
      candidates, fingerprints, approved := map[], map[], map[];
    }

    method Add(c: Candidate) returns (r: Outcome)
      modifies this
      ensures (Contents(), r) == AddCandidate(old(Contents()), c)
    {
      if c.candidateId in candidates {
        return Raised(Conflict);
      }
      if c.fingerprint in fingerprints {
        return Raised(Conflict);
      }
      candidates := candidates[c.candidateId := c];
      fingerprints := fingerprints[c.fingerprint := c.candidateId];
      return Done;
    }

    method BindApprovedRule(candidateId: string, id: Identity) returns (r: Outcome)
      modifies this
      ensures (Contents(), r) == BindApproved(old(Contents()), candidateId, id)
    {
      if candidateId !in candidates {
        return Raised(NotFound);
      }
      if candidateId in approved {
        return Raised(Conflict);
      }
      approved := approved[candidateId := id];
      return Done;
    }
  }

  class RuleCandidateApplicationService {
    const candidates: RuleCandidateRegistry
    const rules: RuleRegistry
    const fingerprint: RuleFields -> string

    ghost function Contents(): Service
      reads candidates, rules
    {
      Service(candidates.Contents(), rules.Contents())
    }

    ghost predicate Valid()
      reads candidates, rules
    {
      ServiceInv(rules.hash, Contents())
    }

    constructor (candidates: RuleCandidateRegistry, rules: RuleRegistry, fingerprint: RuleFields -> string)
      ensures this.candidates == candidates && this.rules == rules && this.fingerprint == fingerprint
    {
      this.candidates, this.rules, this.fingerprint := candidates, rules, fingerprint;
    }

    method CreateCandidate(candidateId: string, p: Proposal, evidence: seq<Binding>) returns (r: Outcome)
      modifies candidates
      ensures (Contents(), r)
        == Serve(rules.mappings.state, rules.hash, fingerprint, old(Contents()), CreateOp(candidateId, p, evidence))
      ensures old(Valid()) ==> Valid() && (r.Raised? ==> Contents() == old(Contents()))
      ensures r.Done? <==>
        exists c ::
          Keeps(fingerprint, rules.mappings.state, candidateId, p, evidence, c)
          && IsNew(fingerprint, old(Contents()), candidateId, c)
      ensures r.Done? ==>
        exists c ::
          Keeps(fingerprint, rules.mappings.state, candidateId, p, evidence, c)
          && Adds(old(Contents()), Contents(), candidateId, c)
    {
      hide ServiceInv, BuildCandidate, Keeps, IsNew, Adds;
      ghost var before := Contents();
      CreatesExactly(fingerprint, rules.mappings.state, before, candidateId, p, evidence);
      if ServiceInv(rules.hash, before) {
        ServeKeepsInv(rules.mappings.state, rules.hash, fingerprint, before, CreateOp(candidateId, p, evidence));
      }
      var built := BuildCandidate(fingerprint, rules.mappings.state, candidateId, p, evidence);
      if built.Failure? {
        return Raised(built.error);
      }
      r := candidates.Add(built.value);
    }

    method ApproveCandidate(candidateId: string, ruleId: string, actor: string, at: string) returns (r: Outcome)
      modifies candidates, rules
      ensures (Contents(), r)
        == Serve(rules.mappings.state, rules.hash, fingerprint, old(Contents()),
          ApproveOp(candidateId, ruleId, actor, at))
      ensures old(Valid()) ==> Valid() && (r.Raised? ==> Contents() == old(Contents()))
    {
      hide ServiceInv, CanBeApproved, RuleFrom, Activate, NextVersion;
      ghost var before := Contents();
      if ServiceInv(rules.hash, before) {
        ServeKeepsInv(rules.mappings.state, rules.hash, fingerprint, before, ApproveOp(candidateId, ruleId, actor, at));
      }
      if candidateId !in candidates.candidates {
        return Raised(NotFound);
      }
      var candidate := candidates.candidates[candidateId];
      if candidateId in candidates.approved {
        return Raised(Validation);
      }
      if !CanBeApproved(candidate) {
        return Raised(Validation);
      }
      var version := rules.GetNextVersion(ruleId);
      var rule := RuleFrom(ruleId, version, candidate.fields);
      if rule.Failure? {
        return Raised(rule.error);
      }
      r := rules.Activate(rule.value, actor, at);
      if r.Raised? {
        return;
      }
      r := candidates.BindApprovedRule(candidateId, rule.value.Identity());
    }
  }
}

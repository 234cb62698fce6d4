/** Governance contracts: the values the registries hold. */
module Contracts {
  import opened Text
  import opened Sorting

  datatype SourceType = Global | Customer

  datatype RuleStatus = Active | Deprecated

  datatype EvaluationType = Iac | Aws | Hybrid | Manual

  datatype Severity = Critical | High | Medium | Low

  datatype SourceReference = SourceReference(
    documentId: string, documentVersion: string, section: string, contentHash: string)

  // A Rule without its identity and lifecycle status.
  datatype RuleFields = RuleFields(
    sourceType: SourceType,
    references: seq<SourceReference>,
    resourceType: string,
    controlKey: string,
    evaluationType: EvaluationType,
    severity: Severity,
    requirement: string,
    remediationType: string)

  type Identity = (string, int)

  datatype Rule = Rule(ruleId: string, version: int, status: RuleStatus, fields: RuleFields) {
    function Identity(): Identity {
      (ruleId, version)
    }
  }

  datatype RuleApproval = RuleApproval(
    ruleId: string, version: int, ruleContentHash: string, approvedBy: string, approvedAt: string)
  {
    function Identity(): Identity {
      (ruleId, version)
    }
  }

  datatype GovernanceError = Validation | Conflict | NotFound | Contract

  predicate UpperAlnum(s: string) {
    s != [] && forall k | 0 <= k < |s| :: 'A' <= s[k] <= 'Z' || IsDigit(s[k])
  }

  // GLOBAL or CUSTOMER, two parts of capitals and digits, three digits; dashes between.
  predicate IsRuleId(s: string) {
    var parts := Split(s, '-');
    && |parts| == 4
    && (parts[0] == "GLOBAL" || parts[0] == "CUSTOMER")
    && UpperAlnum(parts[1]) && UpperAlnum(parts[2])
    && |parts[3]| == 3 && forall k | 0 <= k < 3 :: IsDigit(parts[3][k])
  }

  lemma RuleIdExactly(s: string)
    ensures IsRuleId(s) <==> exists scope, area, name, number ::
      scope in {"GLOBAL", "CUSTOMER"} && UpperAlnum(area) && UpperAlnum(name)
      && |number| == 3 && (forall k | 0 <= k < 3 :: IsDigit(number[k]))
      && s == RuleId(scope, area, name, number)
  {
    hide Split, Join;
    JoinOfSplit(s, '-');
    if IsRuleId(s) {
      var parts := Split(s, '-');
      assert parts == [parts[0], parts[1], parts[2], parts[3]];
      JoinedId(parts[0], parts[1], parts[2], parts[3]);
    }
    if scope, area, name, number :|
      scope in {"GLOBAL", "CUSTOMER"} && UpperAlnum(area) && UpperAlnum(name)
      && |number| == 3 && (forall k | 0 <= k < 3 :: IsDigit(number[k])) && s == RuleId(scope, area, name, number)
    {
      JoinedId(scope, area, name, number);
      SplitOfJoin([scope, area, name, number], '-');
    }
  }

  function RuleId(scope: string, area: string, name: string, number: string): string {
    scope + "-" + area + "-" + name + "-" + number
  }

  lemma JoinedTwo(first: string, rest: seq<string>)
    requires rest != []
    ensures Join([first] + rest, "-") == first + "-" + Join(rest, "-")
  {
    assert ([first] + rest)[1..] == rest;
  }

  lemma JoinedId(a: string, b: string, c: string, d: string)
    ensures Join([a, b, c, d], "-") == RuleId(a, b, c, d)
  {
    JoinedTwo(a, [b, c, d]);
    JoinedTwo(b, [c, d]);
    JoinedTwo(c, [d]);
    assert Join([d], "-") == d;
    hide Join;
    assert [a] + [b, c, d] == [a, b, c, d] && [b] + [c, d] == [b, c, d] && [c] + [d] == [c, d];
    assert a + "-" + (b + "-" + (c + "-" + d)) == a + "-" + b + "-" + c + "-" + d;
  }

  // A capital, then capitals, digits and underscores.
  predicate IsToken(s: string) {
    && s != [] && 'A' <= s[0] <= 'Z'
    && forall k | 0 < k < |s| :: 'A' <= s[k] <= 'Z' || IsDigit(s[k]) || s[k] == '_'
  }

  predicate ValidReference(r: SourceReference) {
    !Blank(r.documentId) && !Blank(r.documentVersion) && !Blank(r.section) && !Blank(r.contentHash)
  }

  predicate ValidFields(f: RuleFields) {
    && f.references != []
    && (forall r | r in f.references :: ValidReference(r))
    && (forall i, j | 0 <= i < j < |f.references| :: f.references[i] != f.references[j])
    && !Blank(f.resourceType) && !Blank(f.controlKey) && !Blank(f.requirement) && IsToken(f.remediationType)
  }

  function ReferenceKey(r: SourceReference): seq<string> {
    [r.documentId, r.documentVersion, r.section, r.contentHash]
  }

  predicate ReferenceLe(a: SourceReference, b: SourceReference) {
    TupleLe(ReferenceKey(a), ReferenceKey(b))
  }

  lemma ReferenceLeOrders()
    ensures TotalPreorder(ReferenceLe)
    ensures forall a, b :: ReferenceLe(a, b) && ReferenceLe(b, a) ==> a == b
  {
    forall a, b
      ensures ReferenceLe(a, b) || ReferenceLe(b, a)
      ensures ReferenceLe(a, b) && ReferenceLe(b, a) ==> a == b
    {
      TupleLeTotal(ReferenceKey(a), ReferenceKey(b));
      if ReferenceKey(a) == ReferenceKey(b) {
        assert ReferenceKey(a)[0] == a.documentId && ReferenceKey(a)[1] == a.documentVersion;
        assert ReferenceKey(a)[2] == a.section && ReferenceKey(a)[3] == a.contentHash;
      }
    }
    forall a, b, c | ReferenceLe(a, b) && ReferenceLe(b, c) ensures ReferenceLe(a, c) {
      TupleLeTransitive(ReferenceKey(a), ReferenceKey(b), ReferenceKey(c));
    }
  }

  // What an approval is bound to: the fields, with the references in canonical order.
  function SemanticContent(rule: Rule): RuleFields {
    rule.fields.(references := Sort(rule.fields.references, ReferenceLe))
  }

  // The content ignores identity, status and the order of the references, and nothing else.
  lemma ContentIgnoresExactly(a: Rule, b: Rule)
    ensures SemanticContent(a) == SemanticContent(b)
      <==>
      && multiset(a.fields.references) == multiset(b.fields.references)
      && a.fields == b.fields.(references := a.fields.references)
  {
    ReferenceLeOrders();
    SortPermutes(a.fields.references, ReferenceLe);
    SortPermutes(b.fields.references, ReferenceLe);
    if multiset(a.fields.references) == multiset(b.fields.references) {
      SortIgnoresOrder(a.fields.references, b.fields.references, ReferenceLe);
    }
  }
}

/** Policy sources, controls and the mappings rules are validated against. */
module Mappings {
  import opened Wrappers
  import opened Contracts

  datatype MappingKey = MappingKey(reference: SourceReference, resourceType: string, controlKey: string)

  datatype MappingState = MappingState(
    controls: set<string>,
    sources: map<(string, string), SourceType>,
    keys: set<MappingKey>)

  function SourceTypeOf(m: MappingState, r: SourceReference): Result<SourceType, GovernanceError> {
    if (r.documentId, r.documentVersion) in m.sources
    then Success(m.sources[(r.documentId, r.documentVersion)])
    else Failure(NotFound)
  }

  // All versions of a source keep one type, and every mapping has a known control and source.
  ghost predicate ValidMappings(m: MappingState) {
    && (forall id, v, w | (id, v) in m.sources && (id, w) in m.sources :: m.sources[(id, v)] == m.sources[(id, w)])
    && (forall k | k in m.keys :: k.controlKey in m.controls && SourceTypeOf(m, k.reference).Success?)
  }

  // Nothing registered is ever changed or taken back.
  ghost predicate Extends(m: MappingState, m': MappingState) {
    && m.controls <= m'.controls && m.keys <= m'.keys
    && forall k | k in m.sources :: k in m'.sources && m'.sources[k] == m.sources[k]
  }

  // A source has at most one type.
  lemma KnownTypes(m: MappingState, id: string, types: set<SourceType>)
    requires ValidMappings(m) && types == set k | k in m.sources.Keys && k.0 == id :: m.sources[k]
    ensures forall v, t | (id, v) in m.sources && t in types :: m.sources[(id, v)] == t
    ensures types == {} ==> forall v :: (id, v) !in m.sources
  {
    forall t, v | (id, v) in m.sources && t in types ensures m.sources[(id, v)] == t {
      var k :| k in m.sources.Keys && k.0 == id && m.sources[k] == t;
      assert (id, k.1) in m.sources;
    }
    forall v ensures types == {} ==> (id, v) !in m.sources {
      if (id, v) in m.sources {
        assert m.sources[(id, v)] in types;
      }
    }
  }

  class SourceControlMappingRegistry {
    var state: MappingState

    constructor ()
      ensures ValidMappings(state)
    {
      state := MappingState({}, map[], {});
    }

    method AddControl(key: string) returns (r: Result<(), GovernanceError>)
      requires ValidMappings(state)
      modifies this
      ensures ValidMappings(state) && Extends(old(state), state)
      ensures state == if r.Success? then old(state).(controls := old(state).controls + {key}) else old(state)
      ensures r.Success? <==> key !in old(state).controls
    {
      if key in state.controls {
        return Failure(Conflict);
      }
      state := state.(controls := state.controls + {key});
      return Success(());
    }

    method AddSource(id: string, version: string, sourceType: SourceType) returns (r: Result<(), GovernanceError>)
      requires ValidMappings(state)
      modifies this
      ensures ValidMappings(state) && Extends(old(state), state)
      ensures state
        == if r.Success? then old(state).(sources := old(state).sources[(id, version) := sourceType]) else old(state)
      ensures r.Success? <==>
        && (id, version) !in old(state).sources
        && forall v | (id, v) in old(state).sources :: old(state).sources[(id, v)] == sourceType
    {
      if (id, version) in state.sources {
        return Failure(Conflict);
      }
      var types := set k | k in state.sources.Keys && k.0 == id :: state.sources[k];
      if types != {} && sourceType !in types {
        return Failure(Validation);
      }
      KnownTypes(state, id, types);
      state := state.(sources := state.sources[(id, version) := sourceType]);
      return Success(());
    }

    method Add(key: MappingKey) returns (r: Result<(), GovernanceError>)
      requires ValidMappings(state)
      modifies this
      ensures ValidMappings(state) && Extends(old(state), state)
      ensures state == if r.Success? then old(state).(keys := old(state).keys + {key}) else old(state)
      ensures r.Success? <==>
        && key.controlKey in old(state).controls
        && SourceTypeOf(old(state), key.reference).Success?
        && key !in old(state).keys
    {
      if key.controlKey !in state.controls {
        return Failure(NotFound);
      }
      var source := SourceTypeOf(state, key.reference);
      if source.Failure? {
        return Failure(source.error);
      }
      if key in state.keys {
        return Failure(Conflict);
      }
      state := state.(keys := state.keys + {key});
      return Success(());
    }
  }
}

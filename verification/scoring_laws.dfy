/** What the scores mean, by counting evaluations. */
module ScoringLaws {
  import opened Wrappers
  import opened Sorting
  import opened Sums
  import opened Contracts
  import opened Scoring

  type Test = Evaluation -> bool

  // How many evaluations of a source pass a test.
  function Number(es: seq<Evaluation>, sourceId: string, sourceType: SourceType, test: Test): nat {
    |set i: nat | i < |es| && es[i].sourceId == sourceId && es[i].sourceType == sourceType && test(es[i])|
  }

  // Executed with the status.
  function With(status: EvaluationStatus): Test {
    (e: Evaluation) => !e.error && e.status == Some(status)
  }

  function WithAt(status: EvaluationStatus, severity: Severity): Test {
    (e: Evaluation) => !e.error && e.status == Some(status) && e.severity == severity
  }

  function Erroneous(): Test {
    (e: Evaluation) => e.error
  }

  // The evaluations of a source with a status: a CRITICAL one weighs 10, a HIGH one 5, a MEDIUM one 2, a LOW one 1.
  function Weighed(es: seq<Evaluation>, sourceId: string, sourceType: SourceType, status: EvaluationStatus): nat {
    10 * Number(es, sourceId, sourceType, WithAt(status, Critical))
    + 5 * Number(es, sourceId, sourceType, WithAt(status, High))
    + 2 * Number(es, sourceId, sourceType, WithAt(status, Medium))
    + 1 * Number(es, sourceId, sourceType, WithAt(status, Low))
  }

  // ---- sums are counts ----

  lemma {:induction false} SumCounts(es: seq<Evaluation>, key: Key, f: Evaluation -> nat, test: Test)
    requires forall e :: f(e) == if test(e) then 1 else 0
    ensures Sum(Own(es, key), f) == Number(es, key.0, key.1, test)
  {
    if es == [] {
      NumberOfNone(key, test);
    } else {
      var n := |es| - 1;
      SumCounts(es[..n], key, f, test);
      NumberNext(es[..n], es[n], key, test);
      assert es == es[..n] + [es[n]];
      hide Number;
      SumOfOwnNext(es[..n], es[n], key, f);
    }
  }

  lemma NumberOfNone(key: Key, test: Test)
    ensures Number([], key.0, key.1, test) == 0
  {
    var es: seq<Evaluation> := [];
    assert (set i: nat | i < |es| && es[i].sourceId == key.0 && es[i].sourceType == key.1 && test(es[i])) == {};
  }

  lemma NumberNext(es: seq<Evaluation>, e: Evaluation, key: Key, test: Test)
    ensures Number(es + [e], key.0, key.1, test)
      == Number(es, key.0, key.1, test) + if KeyOf(e) == key && test(e) then 1 else 0
  {
    var n := |es|;
    var before := set i: nat | i < n && es[i].sourceId == key.0 && es[i].sourceType == key.1 && test(es[i]);
    var es' := es + [e];
    var after := set i: nat | i < |es'| && es'[i].sourceId == key.0 && es'[i].sourceType == key.1 && test(es'[i]);
    assert n !in before;
    if KeyOf(e) == key && test(e) {
      assert after == before + {n};
    } else {
      assert after == before;
    }
  }

  lemma SumOfOwnNext(es: seq<Evaluation>, e: Evaluation, key: Key, f: Evaluation -> nat)
    ensures Sum(Own(es + [e], key), f) == Sum(Own(es, key), f) + if KeyOf(e) == key then f(e) else 0
  {
    assert (es + [e])[..|es|] == es;
    var own := Own(es, key);
    hide Own;
    if KeyOf(e) == key {
      assert (own + [e])[..|own|] == own;
    } else {
      assert own + [] == own;
    }
  }

  lemma {:induction false} SumWeighs(own: seq<Evaluation>, status: EvaluationStatus)
    ensures Sum(own, WeightOf(status))
      == 10 * Sum(own, At(status, Critical)) + 5 * Sum(own, At(status, High))
        + 2 * Sum(own, At(status, Medium)) + Sum(own, At(status, Low))
  {
    if own != [] {
      var n := |own| - 1;
      SumWeighs(own[..n], status);
      OneWeighs(own[n], status);
      hide WeightOf, At;
    }
  }

  function At(status: EvaluationStatus, severity: Severity): Evaluation -> nat {
    (e: Evaluation) => if !e.error && e.status == Some(status) && e.severity == severity then 1 else 0
  }

  lemma OneWeighs(e: Evaluation, status: EvaluationStatus)
    ensures WeightOf(status)(e)
      == 10 * At(status, Critical)(e) + 5 * At(status, High)(e) + 2 * At(status, Medium)(e) + At(status, Low)(e)
  {
    match e.severity {
      case Critical => case High => case Medium => case Low =>
    }
  }

  lemma WeightIsWeighed(es: seq<Evaluation>, key: Key, status: EvaluationStatus)
    ensures Sum(Own(es, key), WeightOf(status)) == Weighed(es, key.0, key.1, status)
  {
    SumCounts(es, key, At(status, Critical), WithAt(status, Critical));
    SumCounts(es, key, At(status, High), WithAt(status, High));
    SumCounts(es, key, At(status, Medium), WithAt(status, Medium));
    SumCounts(es, key, At(status, Low), WithAt(status, Low));
    hide Sum, Number, WeightOf, At, WithAt, Own;
    SumWeighs(Own(es, key), status);
  }

  lemma StatusIsCounted(es: seq<Evaluation>, key: Key, status: EvaluationStatus)
    ensures Sum(Own(es, key), Is(status)) == Number(es, key.0, key.1, With(status))
  {
    SumCounts(es, key, Is(status), With(status));
  }

  lemma ErrorsAreCounted(es: seq<Evaluation>, key: Key)
    ensures Sum(Own(es, key), IsError()) == Number(es, key.0, key.1, Erroneous())
  {
    SumCounts(es, key, IsError(), Erroneous());
  }

  // ---- the laws ----

  // The result of one source.
  ghost predicate Measures(s: SourceScore, round1: real -> real, es: seq<Evaluation>) {
    var id, t := s.key.0, s.key.1;
    var passed, failed := Weighed(es, id, t, Pass), Weighed(es, id, t, Fail);
    var decided := s.passCount + s.failCount;
    && s.passCount == Number(es, id, t, With(Pass))
    && s.failCount == Number(es, id, t, With(Fail))
    && s.manualCount == Number(es, id, t, With(ManualReview))
    && s.notApplicableCount == Number(es, id, t, With(NotApplicable))
    && s.errorCount == Number(es, id, t, Erroneous())
    && IsShare(s.score, round1, passed, passed + failed)
    && IsShare(s.coverage, round1, decided, decided + s.manualCount)
  }

  // A rounded percentage, or nothing of nothing.
  ghost predicate IsShare(r: Option<real>, round1: real -> real, part: nat, whole: nat) {
    && (r.None? <==> whole == 0)
    && (whole > 0 ==> r == Some(round1(100.0 * part as real / whole as real)))
  }

  lemma PercentIsShare(round1: real -> real, n: nat, d: nat)
    ensures IsShare(Percent(round1, n, d), round1, n, d)
  {
    assert n as real * 100.0 == 100.0 * n as real;
  }

  lemma MetricsMeasure(round1: real -> real, es: seq<Evaluation>, key: Key)
    ensures Metrics(round1, key, Own(es, key)).key == key
    ensures Measures(Metrics(round1, key, Own(es, key)), round1, es)
  {
    hide Own, Sum, Is, IsError, WeightOf, Percent, Number, Weighed, With, Erroneous, IsShare;
    var s := Metrics(round1, key, Own(es, key));
    StatusIsCounted(es, key, Pass);
    StatusIsCounted(es, key, Fail);
    StatusIsCounted(es, key, ManualReview);
    StatusIsCounted(es, key, NotApplicable);
    ErrorsAreCounted(es, key);
    WeightIsWeighed(es, key, Pass);
    WeightIsWeighed(es, key, Fail);
    var passed, failed := Weighed(es, key.0, key.1, Pass), Weighed(es, key.0, key.1, Fail);
    PercentIsShare(round1, passed, passed + failed);
    PercentIsShare(round1, s.passCount + s.failCount, s.passCount + s.failCount + s.manualCount);
  }

  // The sources in the order of their results.
  ghost predicate Ranked(keys: seq<Key>) {
    forall i, j | 0 <= i < j < |keys| ::
      if keys[i].0 == keys[j].0 then keys[i].1 == Customer && keys[j].1 == Global else StringLe(keys[i].0, keys[j].0)
  }

  lemma KeysListed(es: seq<Evaluation>)
    ensures var keys := Sort(KeysOf(es), KeyLe);
      && Ranked(keys)
      && forall key :: key in keys <==> exists e :: e in es && key == (e.sourceId, e.sourceType)
  {
    hide KeysOf, Sort, StringLe;
    var keys := Sort(KeysOf(es), KeyLe);
    SortedKeys(es);
    KeysAreOfEvaluations(es);
    SortPermutes(KeysOf(es), KeyLe);
    forall key ensures key in keys <==> exists e :: e in es && key == (e.sourceId, e.sourceType) {
      assert key in keys <==> key in multiset(keys);
      assert key in KeysOf(es) <==> key in multiset(KeysOf(es));
      if e :| e in es && key == (e.sourceId, e.sourceType) {
        var i :| 0 <= i < |es| && es[i] == e;
        assert KeyOf(es[i]) == key;
      }
      if i :| 0 <= i < |es| && KeyOf(es[i]) == key {
        assert es[i] in es;
      }
    }
    forall i, j | 0 <= i < j < |keys|
      ensures if keys[i].0 == keys[j].0 then keys[i].1 == Customer && keys[j].1 == Global
        else StringLe(keys[i].0, keys[j].0)
    {
      assert KeyLe(keys[i], keys[j]) && keys[i] != keys[j];
    }
  }

  function KeysOfScores(scores: seq<SourceScore>): seq<Key> {
    seq(|scores|, k requires 0 <= k < |scores| => scores[k].key)
  }

  // One result for each source that has evaluations, by source id and CUSTOMER
  // before GLOBAL, each measured by counting.
  ghost predicate MeasureAll(scores: seq<SourceScore>, round1: real -> real, es: seq<Evaluation>) {
    && (forall k | 0 <= k < |scores| :: Measures(scores[k], round1, es))
    && (forall key :: key in KeysOfScores(scores) <==> exists e :: e in es && key == (e.sourceId, e.sourceType))
    && Ranked(KeysOfScores(scores))
  }

  // What every accepted calculation returns.
  lemma ScoresMeasure(round1: real -> real, es: seq<Evaluation>, index: map<Identity, Rule>)
    requires Calculate(round1, es, index).Some?
    ensures MeasureAll(Calculate(round1, es, index).value, round1, es)
  {
    hide Acceptable, KeysOf, KeyLe, Sort, Own, Metrics, Measures, Ranked;
    var keys, scores := Sort(KeysOf(es), KeyLe), Calculate(round1, es, index).value;
    KeysListed(es);
    forall k | 0 <= k < |scores| ensures Measures(scores[k], round1, es) && scores[k].key == keys[k] {
      MetricsMeasure(round1, es, keys[k]);
    }
    assert KeysOfScores(scores) == keys;
  }

  // The last rule of an identity.
  predicate IsLast(rules: seq<Rule>, ruleId: string, version: int, j: nat) {
    && j < |rules| && rules[j].ruleId == ruleId && rules[j].version == version
    && forall l | j < l < |rules| :: rules[l].ruleId != ruleId || rules[l].version != version
  }

  // The rule an evaluation is pinned to agrees with it.
  ghost predicate Agrees(rules: seq<Rule>, e: Evaluation, j: nat) {
    && IsLast(rules, e.ruleId, e.ruleVersion, j)
    && rules[j].fields.severity == e.severity
    && rules[j].fields.sourceType == e.sourceType
    && exists r | r in rules[j].fields.references :: r.documentId == e.sourceId
  }

  lemma {:induction false} IndexIsLast(rules: seq<Rule>, ruleId: string, version: int) returns (j: nat)
    ensures (ruleId, version) in IndexOf(rules) ==>
      IsLast(rules, ruleId, version, j) && IndexOf(rules)[(ruleId, version)] == rules[j]
    ensures (ruleId, version) !in IndexOf(rules) ==> forall k: nat :: !IsLast(rules, ruleId, version, k)
  {
    j := 0;
    if rules != [] {
      var n := |rules| - 1;
      if rules[n].Identity() == (ruleId, version) {
        return n;
      }
      j := IndexIsLast(rules[..n], ruleId, version);
      forall k: nat ensures IsLast(rules, ruleId, version, k) <==> IsLast(rules[..n], ruleId, version, k) {
        assert forall l | 0 <= l < n :: rules[..n][l] == rules[l];
      }
    }
  }

  lemma PinnedExactly(rules: seq<Rule>, e: Evaluation)
    ensures PinnedRule(e, IndexOf(rules)).Some? <==> exists j: nat :: Agrees(rules, e, j)
  {
    var j := IndexIsLast(rules, e.ruleId, e.ruleVersion);
    hide IndexOf;
    if (e.ruleId, e.ruleVersion) in IndexOf(rules) {
      assert PinnedRule(e, IndexOf(rules)).Some? <==> Agrees(rules, e, j);
      if k: nat :| Agrees(rules, e, k) {
        OneIsLast(rules, e.ruleId, e.ruleVersion, j, k);
      }
    }
  }

  lemma OneIsLast(rules: seq<Rule>, ruleId: string, version: int, j: nat, k: nat)
    requires IsLast(rules, ruleId, version, j) && IsLast(rules, ruleId, version, k)
    ensures j == k
  {
  }

  // No resource, rule version and source is evaluated twice.
  predicate NoRepeat(es: seq<Evaluation>) {
    forall i, j | 0 <= i < j < |es| ::
      es[i].resourceId != es[j].resourceId || es[i].ruleId != es[j].ruleId
      || es[i].ruleVersion != es[j].ruleVersion || es[i].sourceId != es[j].sourceId
  }

  lemma DistinctExactly(es: seq<Evaluation>)
    ensures Distinct(es) <==> NoRepeat(es)
  {
    assert forall i, j | 0 <= i < j < |es| :: MetricIdentity(es[i]) != MetricIdentity(es[j]) <==>
      es[i].resourceId != es[j].resourceId || es[i].ruleId != es[j].ruleId
      || es[i].ruleVersion != es[j].ruleVersion || es[i].sourceId != es[j].sourceId;
  }

  // No repeats, and each evaluation in agreement with its pinned rule and, unless it failed to execute, with a status.
  ghost predicate Calculable(es: seq<Evaluation>, rules: seq<Rule>) {
    && NoRepeat(es)
    && forall i | 0 <= i < |es| :: (es[i].error || es[i].status.Some?) && exists j: nat :: Agrees(rules, es[i], j)
  }

  // That is exactly what is accepted.
  lemma AcceptedExactly(round1: real -> real, es: seq<Evaluation>, rules: seq<Rule>)
    ensures Calculate(round1, es, IndexOf(rules)).Some? <==> Calculable(es, rules)
  {
    hide Scores, PinnedRule, IndexOf, Agrees, Distinct, NoRepeat;
    DistinctExactly(es);
    forall i | 0 <= i < |es|
      ensures Scorable(es[i], IndexOf(rules))
        <==> (es[i].error || es[i].status.Some?) && exists j: nat :: Agrees(rules, es[i], j)
    {
      PinnedExactly(rules, es[i]);
    }
  }
}

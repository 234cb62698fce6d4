/** Scores and coverage per source, weighted by the pinned rules' severities. */
module Scoring {
  import opened Wrappers
  import opened Sorting
  import opened Sums
  import opened Contracts

  datatype EvaluationStatus = Pass | Fail | ManualReview | NotApplicable

  datatype Evaluation = Evaluation(
    resourceId: string, ruleId: string, ruleVersion: int, sourceId: string, sourceType: SourceType,
    severity: Severity, status: Option<EvaluationStatus>, error: bool)

  // Resource, rule and source: what identifies one metric.
  function MetricIdentity(e: Evaluation): (string, string, int, string) {
    (e.resourceId, e.ruleId, e.ruleVersion, e.sourceId)
  }

  type Key = (string, SourceType)

  function KeyOf(e: Evaluation): Key {
    (e.sourceId, e.sourceType)
  }

  function Weight(s: Severity): nat {
    match s
    case Critical => 10
    case High => 5
    case Medium => 2
    case Low => 1
  }

  // {rule.identity: rule}: a later rule replaces an earlier one.
  function IndexOf(rules: seq<Rule>): map<Identity, Rule> {
    if rules == [] then map[]
    else
      var last := rules[|rules| - 1];
      IndexOf(rules[..|rules| - 1]) + map[last.Identity() := last]
  }

  // _pinned_rule; None stands for the raised error.
  function PinnedRule(e: Evaluation, index: map<Identity, Rule>): Option<Rule> {
    var identity := (e.ruleId, e.ruleVersion);
    if identity !in index then None
    else
      var rule := index[identity];
      if e.severity != rule.fields.severity || e.sourceType != rule.fields.sourceType then None
      else if exists r | r in rule.fields.references :: r.documentId == e.sourceId then Some(rule)
      else None
  }

  // ---- the specification ----

  predicate Scorable(e: Evaluation, index: map<Identity, Rule>) {
    PinnedRule(e, index).Some? && (e.error || e.status.Some?)
  }

  predicate Distinct(es: seq<Evaluation>) {
    forall i, j | 0 <= i < j < |es| :: MetricIdentity(es[i]) != MetricIdentity(es[j])
  }

  predicate Acceptable(es: seq<Evaluation>, index: map<Identity, Rule>) {
    Distinct(es) && forall i | 0 <= i < |es| :: Scorable(es[i], index)
  }

  function Own(es: seq<Evaluation>, key: Key): seq<Evaluation> {
    if es == [] then []
    else
      var last := es[|es| - 1];
      Own(es[..|es| - 1], key) + if KeyOf(last) == key then [last] else []
  }

  function Is(status: EvaluationStatus): Evaluation -> nat {
    (e: Evaluation) => if !e.error && e.status == Some(status) then 1 else 0
  }

  function IsError(): Evaluation -> nat {
    (e: Evaluation) => if e.error then 1 else 0
  }

  function WeightOf(status: EvaluationStatus): Evaluation -> nat {
    (e: Evaluation) => if !e.error && e.status == Some(status) then Weight(e.severity) else 0
  }

  // Rounding to one decimal, binary floating point included: it keeps order and fixes 0 and 100.
  ghost predicate Rounding(round1: real -> real) {
    && (forall x: real, y: real | x <= y :: round1(x) <= round1(y))
    && round1(0.0) == 0.0 && round1(100.0) == 100.0
  }

  function Percent(round1: real -> real, numerator: nat, denominator: nat): Option<real> {
    if denominator == 0 then None else Some(round1(numerator as real * 100.0 / denominator as real))
  }

  datatype SourceScore = SourceScore(
    key: Key, score: Option<real>, coverage: Option<real>,
    passCount: nat, failCount: nat, manualCount: nat, notApplicableCount: nat, errorCount: nat)

  function Metrics(round1: real -> real, key: Key, own: seq<Evaluation>): SourceScore {
    var passed, failed, manual := Sum(own, Is(Pass)), Sum(own, Is(Fail)), Sum(own, Is(ManualReview));
    var passedWeight, failedWeight := Sum(own, WeightOf(Pass)), Sum(own, WeightOf(Fail));
    SourceScore(
      key,
      Percent(round1, passedWeight, passedWeight + failedWeight),
      Percent(round1, passed + failed, passed + failed + manual),
      passed, failed, manual, Sum(own, Is(NotApplicable)), Sum(own, IsError()))
  }

  // The keys in the order they first appear.
  function KeysOf(es: seq<Evaluation>): seq<Key> {
    if es == [] then []
    else
      var before, key := KeysOf(es[..|es| - 1]), KeyOf(es[|es| - 1]);
      if key in before then before else before + [key]
  }

  // CUSTOMER before GLOBAL.
  function TypeRank(t: SourceType): nat {
    if t.Customer? then 0 else 1
  }

  predicate KeyLe(a: Key, b: Key) {
    if a.0 == b.0 then TypeRank(a.1) <= TypeRank(b.1) else StringLe(a.0, b.0)
  }

  function Scores(round1: real -> real, es: seq<Evaluation>): seq<SourceScore> {
    var keys := Sort(KeysOf(es), KeyLe);
    seq(|keys|, k requires 0 <= k < |keys| => Metrics(round1, keys[k], Own(es, keys[k])))
  }

  // None stands for the raised error.
  function Calculate(round1: real -> real, es: seq<Evaluation>, index: map<Identity, Rule>): Option<seq<SourceScore>> {
    if Acceptable(es, index) then Some(Scores(round1, es)) else None
  }

  // ---- sums ----

  lemma {:induction false} OwnMultiplicity(es: seq<Evaluation>, key: Key, x: Evaluation)
    ensures multiset(Own(es, key))[x] == if KeyOf(x) == key then multiset(es)[x] else 0
  {
    if es != [] {
      var n := |es| - 1;
      OwnMultiplicity(es[..n], key, x);
      assert es == es[..n] + [es[n]];
    }
  }

  lemma OwnPermutes(a: seq<Evaluation>, b: seq<Evaluation>, key: Key)
    requires multiset(a) == multiset(b)
    ensures multiset(Own(a, key)) == multiset(Own(b, key))
  {
    hide Own;
    forall x ensures multiset(Own(a, key))[x] == multiset(Own(b, key))[x] {
      OwnMultiplicity(a, key, x);
      OwnMultiplicity(b, key, x);
    }
  }

  // A source's result does not depend on the order of its evaluations.
  lemma MetricsPermute(round1: real -> real, key: Key, a: seq<Evaluation>, b: seq<Evaluation>)
    requires multiset(a) == multiset(b)
    ensures Metrics(round1, key, a) == Metrics(round1, key, b)
  {
    hide Is, IsError, WeightOf, Sum;
    SumPermutes(a, b, Is(Pass));
    SumPermutes(a, b, Is(Fail));
    SumPermutes(a, b, Is(ManualReview));
    SumPermutes(a, b, Is(NotApplicable));
    SumPermutes(a, b, IsError());
    SumPermutes(a, b, WeightOf(Pass));
    SumPermutes(a, b, WeightOf(Fail));
  }

  lemma {:induction false} KeysAreOfEvaluations(es: seq<Evaluation>)
    ensures forall key :: key in KeysOf(es) <==> exists i | 0 <= i < |es| :: KeyOf(es[i]) == key
    ensures forall i, j | 0 <= i < j < |KeysOf(es)| :: KeysOf(es)[i] != KeysOf(es)[j]
  {
    if es != [] {
      var n := |es| - 1;
      var before, keys := KeysOf(es[..n]), KeysOf(es);
      KeysAreOfEvaluations(es[..n]);
      assert forall i | 0 <= i < n :: es[..n][i] == es[i];
      forall key ensures key in keys <==> exists i | 0 <= i < |es| :: KeyOf(es[i]) == key {
        assert key in keys <==> key in before || key == KeyOf(es[n]);
        if i :| 0 <= i < |es| && KeyOf(es[i]) == key {
          assert i < n ==> KeyOf(es[..n][i]) == key;
        }
      }
    }
  }

  lemma KeysPermute(a: seq<Evaluation>, b: seq<Evaluation>)
    requires multiset(a) == multiset(b)
    ensures multiset(KeysOf(a)) == multiset(KeysOf(b))
  {
    hide KeysOf;
    KeysAreOfEvaluations(a);
    KeysAreOfEvaluations(b);
    forall key: Key ensures multiset(KeysOf(a))[key] == multiset(KeysOf(b))[key] {
      SameKeys(a, b, key);
      SameKeys(b, a, key);
      DistinctMultiplicity(KeysOf(a), key);
      DistinctMultiplicity(KeysOf(b), key);
    }
  }

  lemma SameKeys(a: seq<Evaluation>, b: seq<Evaluation>, key: Key)
    requires multiset(a) == multiset(b)
    ensures (exists i | 0 <= i < |a| :: KeyOf(a[i]) == key) ==> exists i | 0 <= i < |b| :: KeyOf(b[i]) == key
  {
    if i :| 0 <= i < |a| && KeyOf(a[i]) == key {
      assert a[i] in multiset(b);
      var j :| 0 <= j < |b| && b[j] == a[i];
    }
  }

  lemma KeyLeOrders()
    ensures TotalPreorder(KeyLe)
    ensures forall a, b :: KeyLe(a, b) && KeyLe(b, a) ==> a == b
  {
    forall a: Key, b: Key
      ensures KeyLe(a, b) || KeyLe(b, a)
      ensures KeyLe(a, b) && KeyLe(b, a) ==> a == b
    {
      StringLeTotal(a.0, b.0);
    }
    forall a: Key, b: Key, c: Key | KeyLe(a, b) && KeyLe(b, c) ensures KeyLe(a, c) {
      if a.0 != b.0 && b.0 != c.0 {
        StringLeTransitive(a.0, b.0, c.0);
        StringLeTotal(a.0, b.0);
      }
    }
  }

  lemma AcceptableForgetsOrder(a: seq<Evaluation>, b: seq<Evaluation>, index: map<Identity, Rule>)
    requires multiset(a) == multiset(b) && Acceptable(a, index)
    ensures Acceptable(b, index)
  {
    hide Scorable, MetricIdentity;
    forall i | 0 <= i < |b| ensures Scorable(b[i], index) {
      assert b[i] in multiset(a);
      var j :| 0 <= j < |a| && a[j] == b[i];
    }
    forall i, j | 0 <= i < j < |b| ensures MetricIdentity(b[i]) != MetricIdentity(b[j]) {
      if MetricIdentity(b[i]) == MetricIdentity(b[j]) {
        TwiceIsTwice(a, b, i, j);
      }
    }
  }

  lemma TwiceIsTwice(a: seq<Evaluation>, b: seq<Evaluation>, i: nat, j: nat)
    requires multiset(a) == multiset(b) && Distinct(a) && i < j < |b|
    ensures MetricIdentity(b[i]) != MetricIdentity(b[j])
  {
    hide MetricIdentity;
    assert b[i] in multiset(a) && b[j] in multiset(a);
    var k :| 0 <= k < |a| && a[k] == b[i];
    var l :| 0 <= l < |a| && a[l] == b[j];
    if k == l {
      forall m, n | 0 <= m < n < |a| ensures a[m] != a[n] {
        assert MetricIdentity(a[m]) != MetricIdentity(a[n]);
      }
      DistinctMultiplicity(a, a[k]);
      TwoPlaces(b, i, j);
    }
  }

  // Scoring accepts or rejects, and scores, alike for every order of the evaluations.
  lemma OrderIsIrrelevant(
    round1: real -> real, a: seq<Evaluation>, b: seq<Evaluation>, index: map<Identity, Rule>)
    requires multiset(a) == multiset(b)
    ensures Calculate(round1, a, index) == Calculate(round1, b, index)
  {
    hide Acceptable, Metrics, KeysOf, Sort, KeyLe, Own;
    if Acceptable(a, index) {
      AcceptableForgetsOrder(a, b, index);
    } else if Acceptable(b, index) {
      AcceptableForgetsOrder(b, a, index);
    }
    KeysPermute(a, b);
    KeyLeOrders();
    SortIgnoresOrder(KeysOf(a), KeysOf(b), KeyLe);
    var keys := Sort(KeysOf(a), KeyLe);
    forall k | 0 <= k < |keys|
      ensures Metrics(round1, keys[k], Own(a, keys[k])) == Metrics(round1, keys[k], Own(b, keys[k]))
    {
      OwnPermutes(a, b, keys[k]);
      MetricsPermute(round1, keys[k], Own(a, keys[k]), Own(b, keys[k]));
    }
    assert Scores(round1, a) == Scores(round1, b);
  }

  // ---- nothing is counted twice or dropped ----

  function Counted(s: SourceScore): nat {
    s.passCount + s.failCount + s.manualCount + s.notApplicableCount + s.errorCount
  }

  function TotalCounted(scores: seq<SourceScore>): nat {
    if scores == [] then 0 else TotalCounted(scores[..|scores| - 1]) + Counted(scores[|scores| - 1])
  }

  lemma {:induction false} OutcomesCountOnce(own: seq<Evaluation>)
    requires forall i | 0 <= i < |own| :: own[i].error || own[i].status.Some?
    ensures Sum(own, Is(Pass)) + Sum(own, Is(Fail)) + Sum(own, Is(ManualReview)) + Sum(own, Is(NotApplicable))
      + Sum(own, IsError()) == |own|
  {
    if own != [] {
      OutcomesCountOnce(own[..|own| - 1]);
      OneOutcome(own[|own| - 1]);
      hide Is, IsError;
    }
  }

  lemma OneOutcome(e: Evaluation)
    requires e.error || e.status.Some?
    ensures Is(Pass)(e) + Is(Fail)(e) + Is(ManualReview)(e) + Is(NotApplicable)(e) + IsError()(e) == 1
  {
    if !e.error {
      match e.status.value
      case Pass =>
      case Fail =>
      case ManualReview =>
      case NotApplicable =>
    }
  }

  lemma {:induction false} OwnIsInside(es: seq<Evaluation>, key: Key)
    ensures forall e | e in Own(es, key) :: e in es && KeyOf(e) == key
  {
    if es != [] {
      OwnIsInside(es[..|es| - 1], key);
    }
  }

  function OwnTotal(es: seq<Evaluation>, keys: seq<Key>): nat {
    if keys == [] then 0 else OwnTotal(es, keys[..|keys| - 1]) + |Own(es, keys[|keys| - 1])|
  }

  lemma {:induction false} OwnTotalOfNone(keys: seq<Key>)
    ensures OwnTotal([], keys) == 0
  {
    if keys != [] {
      OwnTotalOfNone(keys[..|keys| - 1]);
    }
  }

  // One more evaluation adds one to the total, under the one key that is its own.
  lemma {:induction false} OwnTotalGrows(es: seq<Evaluation>, e: Evaluation, keys: seq<Key>)
    requires forall i, j | 0 <= i < j < |keys| :: keys[i] != keys[j]
    ensures OwnTotal(es + [e], keys) == OwnTotal(es, keys) + if KeyOf(e) in keys then 1 else 0
  {
    hide KeyOf;
    if keys != [] {
      var n := |keys| - 1;
      OwnTotalGrows(es, e, keys[..n]);
      assert (es + [e])[..|es|] == es;
      assert KeyOf(e) in keys <==> KeyOf(e) in keys[..n] || KeyOf(e) == keys[n];
      assert keys[n] !in keys[..n];
    }
  }

  lemma {:induction false} OwnTotalIsAll(es: seq<Evaluation>, keys: seq<Key>)
    requires forall i, j | 0 <= i < j < |keys| :: keys[i] != keys[j]
    requires forall i | 0 <= i < |es| :: KeyOf(es[i]) in keys
    ensures OwnTotal(es, keys) == |es|
  {
    hide KeyOf, OwnTotal;
    if es == [] {
      OwnTotalOfNone(keys);
    } else {
      var n := |es| - 1;
      OwnTotalIsAll(es[..n], keys);
      OwnTotalGrows(es[..n], es[n], keys);
      assert es == es[..n] + [es[n]];
    }
  }

  lemma {:induction false} TotalIsOwnTotal(
    round1: real -> real, es: seq<Evaluation>, keys: seq<Key>, scores: seq<SourceScore>)
    requires forall e | e in es :: e.error || e.status.Some?
    requires |scores| == |keys| && forall k | 0 <= k < |keys| :: scores[k] == Metrics(round1, keys[k], Own(es, keys[k]))
    ensures TotalCounted(scores) == OwnTotal(es, keys)
  {
    hide Own, Sum, Is, IsError, WeightOf, Percent;
    if keys != [] {
      var n := |keys| - 1;
      TotalIsOwnTotal(round1, es, keys[..n], scores[..n]);
      OwnIsInside(es, keys[n]);
      assert forall i | 0 <= i < |Own(es, keys[n])| :: Own(es, keys[n])[i] in Own(es, keys[n]);
      OutcomesCountOnce(Own(es, keys[n]));
    }
  }

  lemma SortedKeys(es: seq<Evaluation>)
    ensures var keys := Sort(KeysOf(es), KeyLe);
      && (forall i, j | 0 <= i < j < |keys| :: keys[i] != keys[j])
      && (forall i | 0 <= i < |es| :: KeyOf(es[i]) in keys)
      && Sorted(keys, KeyLe)
  {
    hide KeysOf, KeyOf, Sort, KeyLe;
    KeysAreOfEvaluations(es);
    KeyLeOrders();
    SortPermutes(KeysOf(es), KeyLe);
    SortSorts(KeysOf(es), KeyLe);
    var keys := Sort(KeysOf(es), KeyLe);
    forall i | 0 <= i < |es| ensures KeyOf(es[i]) in keys {
      assert KeyOf(es[i]) in KeysOf(es);
      assert KeyOf(es[i]) in multiset(keys);
    }
    forall i, j | 0 <= i < j < |keys| ensures keys[i] != keys[j] {
      DistinctMultiplicity(KeysOf(es), keys[i]);
      if keys[i] == keys[j] {
        TwoPlaces(keys, i, j);
      }
    }
  }

  // The counts over all sources add up to the number of evaluations.
  lemma CountsAddUp(round1: real -> real, es: seq<Evaluation>, index: map<Identity, Rule>)
    requires Calculate(round1, es, index).Some?
    ensures TotalCounted(Calculate(round1, es, index).value) == |es|
  {
    hide Metrics, KeysOf, Sort, KeyLe, Own, KeyOf, PinnedRule, MetricIdentity, TotalCounted, OwnTotal;
    SortedKeys(es);
    var keys := Sort(KeysOf(es), KeyLe);
    OwnTotalIsAll(es, keys);
    forall e | e in es ensures e.error || e.status.Some? {
      var i :| 0 <= i < |es| && es[i] == e;
      assert Scorable(es[i], index);
    }
    TotalIsOwnTotal(round1, es, keys, Scores(round1, es));
  }

  // ---- bounds, and what a changed verdict does ----

  lemma PercentIsBounded(round1: real -> real, numerator: nat, denominator: nat)
    requires Rounding(round1) && numerator <= denominator
    ensures var p := Percent(round1, numerator, denominator); p.Some? ==> 0.0 <= p.value <= 100.0
  {
    if denominator > 0 {
      var n, d := numerator as real, denominator as real;
      assert n <= d && d > 0.0;
      var x := n * 100.0 / d;
      assert n * 100.0 <= 100.0 * d;
      QuotientBounds(n * 100.0, d);
      assert round1(0.0) <= round1(x) <= round1(100.0);
    }
  }

  lemma FactorIsNonNegative(x: real, d: real)
    requires x * d >= 0.0 && d > 0.0
    ensures x >= 0.0
  {
  }

  lemma QuotientBounds(a: real, d: real)
    requires 0.0 <= a <= 100.0 * d && d > 0.0
    ensures 0.0 <= a / d <= 100.0
  {
    var q := a / d;
    assert q * d == a;
    assert (100.0 - q) * d == 100.0 * d - a;
    FactorIsNonNegative(q, d);
    FactorIsNonNegative(100.0 - q, d);
  }

  // Scores and coverages lie between 0 and 100.
  lemma ScoresAreBounded(round1: real -> real, es: seq<Evaluation>, index: map<Identity, Rule>, k: nat)
    requires Rounding(round1) && Calculate(round1, es, index).Some? && k < |Calculate(round1, es, index).value|
    ensures var s := Calculate(round1, es, index).value[k];
      && (s.score.Some? ==> 0.0 <= s.score.value <= 100.0)
      && (s.coverage.Some? ==> 0.0 <= s.coverage.value <= 100.0)
  {
    hide Acceptable, KeysOf, Sort, KeyLe, Own, KeyOf, Sum, Is, IsError, WeightOf, Percent, Rounding;
    var key := Sort(KeysOf(es), KeyLe)[k];
    var own := Own(es, key);
    var passed, failed, manual := Sum(own, Is(Pass)), Sum(own, Is(Fail)), Sum(own, Is(ManualReview));
    PercentIsBounded(round1, Sum(own, WeightOf(Pass)), Sum(own, WeightOf(Pass)) + Sum(own, WeightOf(Fail)));
    PercentIsBounded(round1, passed + failed, passed + failed + manual);
  }

  // The i-th evaluation, a FAIL, decided as PASS instead.
  function Passing(es: seq<Evaluation>, i: nat): seq<Evaluation>
    requires i < |es|
  {
    es[i := es[i].(status := Some(Pass))]
  }

  lemma {:induction false} OwnConcat(a: seq<Evaluation>, b: seq<Evaluation>, key: Key)
    ensures Own(a + b, key) == Own(a, key) + Own(b, key)
  {
    if b == [] {
      assert a + b == a;
    } else {
      OwnConcat(a, b[..|b| - 1], key);
      assert (a + b)[..|a + b| - 1] == a + b[..|b| - 1];
    }
  }

  lemma SumOfOwnSplit(es: seq<Evaluation>, i: nat, key: Key, f: Evaluation -> nat)
    requires i < |es|
    ensures Sum(Own(es, key), f)
      == Sum(Own(es[..i], key), f) + (if KeyOf(es[i]) == key then f(es[i]) else 0) + Sum(Own(es[i + 1..], key), f)
  {
    var one := if KeyOf(es[i]) == key then [es[i]] else [];
    OwnNext(es, i, key);
    assert es == es[..i + 1] + es[i + 1..];
    OwnConcat(es[..i + 1], es[i + 1..], key);
    hide Own;
    SumConcat(Own(es[..i + 1], key), Own(es[i + 1..], key), f);
    SumConcat(Own(es[..i], key), one, f);
    SumOfOne(es[i], f);
  }

  lemma OwnNext(es: seq<Evaluation>, i: nat, key: Key)
    requires i < |es|
    ensures Own(es[..i + 1], key) == Own(es[..i], key) + if KeyOf(es[i]) == key then [es[i]] else []
  {
    assert es[..i + 1][..i] == es[..i];
  }

  // Changing one evaluation without changing its key changes a source's sum by what that evaluation counts.
  lemma SumOfOwnUpdated(es: seq<Evaluation>, i: nat, e: Evaluation, key: Key, f: Evaluation -> nat)
    requires i < |es| && KeyOf(e) == KeyOf(es[i])
    ensures Sum(Own(es[i := e], key), f) + (if KeyOf(e) == key then f(es[i]) else 0)
      == Sum(Own(es, key), f) + (if KeyOf(e) == key then f(e) else 0)
  {
    hide Own, Sum, KeyOf;
    var es' := es[i := e];
    assert es'[..i] == es[..i] && es'[i + 1..] == es[i + 1..];
    SumOfOwnSplit(es, i, key, f);
    SumOfOwnSplit(es', i, key, f);
  }

  lemma {:induction false} KeysOfUpdated(es: seq<Evaluation>, i: nat, e: Evaluation)
    requires i < |es| && KeyOf(e) == KeyOf(es[i])
    ensures KeysOf(es[i := e]) == KeysOf(es)
  {
    hide KeyOf;
    var n := |es| - 1;
    if i < n {
      KeysOfUpdated(es[..n], i, e);
      assert es[i := e][..n] == es[..n][i := e];
    } else {
      assert es[i := e][..n] == es[..n];
    }
  }

  ghost predicate Failed(e: Evaluation) {
    !e.error && e.status == Some(Fail)
  }

  lemma PassingCounts(e: Evaluation)
    requires Failed(e)
    ensures var e' := e.(status := Some(Pass));
      && KeyOf(e') == KeyOf(e) && MetricIdentity(e') == MetricIdentity(e)
      && Is(Pass)(e) == 0 && Is(Fail)(e) == 1 && Is(Pass)(e') == 1 && Is(Fail)(e') == 0
      && Is(ManualReview)(e) == Is(ManualReview)(e')
      && WeightOf(Pass)(e) == 0 && WeightOf(Fail)(e) == Weight(e.severity)
      && WeightOf(Pass)(e') == Weight(e.severity) && WeightOf(Fail)(e') == 0
  {
  }

  lemma PassingStaysAcceptable(es: seq<Evaluation>, i: nat, index: map<Identity, Rule>)
    requires i < |es| && Failed(es[i]) && Acceptable(es, index)
    ensures Acceptable(Passing(es, i), index)
  {
    var es' := Passing(es, i);
    assert forall k | 0 <= k < |es| :: MetricIdentity(es'[k]) == MetricIdentity(es[k]);
    hide MetricIdentity;
    assert forall k | 0 <= k < |es| && k != i :: es'[k] == es[k];
    assert Scorable(es[i], index);
    assert PinnedRule(es'[i], index) == PinnedRule(es[i], index);
  }

  lemma QuotientGrows(a: real, b: real, d: real)
    requires a <= b && d > 0.0
    ensures a / d <= b / d
  {
    var p, q := a / d, b / d;
    assert p * d == a && q * d == b;
    assert (q - p) * d == b - a;
    FactorIsNonNegative(q - p, d);
  }

  lemma PercentGrows(round1: real -> real, a: nat, b: nat, d: nat)
    requires Rounding(round1) && a <= b && d > 0
    ensures Percent(round1, a, d).value <= Percent(round1, b, d).value
  {
    QuotientGrows(a as real * 100.0, b as real * 100.0, d as real);
  }

  // One source, before and after.
  ghost predicate NoWorse(before: SourceScore, after: SourceScore) {
    && after.key == before.key && after.coverage == before.coverage
    && (after.score.Some? <==> before.score.Some?)
    && (before.score.Some? ==> before.score.value <= after.score.value)
  }

  lemma PassingSums(es: seq<Evaluation>, i: nat, key: Key)
    requires i < |es| && Failed(es[i])
    ensures var own, own' := Own(es, key), Own(Passing(es, i), key);
      var mine := if KeyOf(es[i]) == key then 1 else 0;
      var weight := if KeyOf(es[i]) == key then Weight(es[i].severity) else 0;
      && Sum(own', Is(Pass)) == Sum(own, Is(Pass)) + mine
      && Sum(own, Is(Fail)) == Sum(own', Is(Fail)) + mine
      && Sum(own', Is(ManualReview)) == Sum(own, Is(ManualReview))
      && Sum(own', WeightOf(Pass)) == Sum(own, WeightOf(Pass)) + weight
      && Sum(own, WeightOf(Fail)) == Sum(own', WeightOf(Fail)) + weight
  {
    var e' := es[i].(status := Some(Pass));
    PassingCounts(es[i]);
    hide Own, Sum, Is, IsError, WeightOf, KeyOf, Weight, Failed;
    SumOfOwnUpdated(es, i, e', key, Is(Pass));
    SumOfOwnUpdated(es, i, e', key, Is(Fail));
    SumOfOwnUpdated(es, i, e', key, Is(ManualReview));
    SumOfOwnUpdated(es, i, e', key, WeightOf(Pass));
    SumOfOwnUpdated(es, i, e', key, WeightOf(Fail));
  }

  lemma PassingMetrics(round1: real -> real, es: seq<Evaluation>, i: nat, key: Key)
    requires Rounding(round1) && i < |es| && Failed(es[i])
    ensures NoWorse(Metrics(round1, key, Own(es, key)), Metrics(round1, key, Own(Passing(es, i), key)))
    ensures KeyOf(es[i]) == key ==>
      Metrics(round1, key, Own(Passing(es, i), key)).passCount == Metrics(round1, key, Own(es, key)).passCount + 1
  {
    hide Own, Sum, Is, IsError, WeightOf, KeyOf, Weight, Failed, Percent, Rounding, Passing;
    PassingSums(es, i, key);
    var own, own' := Own(es, key), Own(Passing(es, i), key);
    var p, p' := Sum(own, WeightOf(Pass)), Sum(own', WeightOf(Pass));
    var d := p + Sum(own, WeightOf(Fail));
    assert d == p' + Sum(own', WeightOf(Fail));
    PercentIsSome(round1, p, d);
    PercentIsSome(round1, p', d);
    if d > 0 {
      PercentGrows(round1, p, p', d);
    }
  }

  lemma PercentIsSome(round1: real -> real, n: nat, d: nat)
    ensures Percent(round1, n, d).Some? <==> d > 0
  {
  }

  // Turning a FAIL into a PASS never lowers a score, changes no coverage, and leaves every other source as it was.
  lemma PassingNeverLowers(round1: real -> real, es: seq<Evaluation>, i: nat, index: map<Identity, Rule>, k: nat)
    requires Rounding(round1) && i < |es| && Failed(es[i])
    requires Calculate(round1, es, index).Some? && k < |Calculate(round1, es, index).value|
    ensures Calculate(round1, Passing(es, i), index).Some?
    ensures var before, after := Calculate(round1, es, index).value, Calculate(round1, Passing(es, i), index).value;
      && |after| == |before| && NoWorse(before[k], after[k])
      && (before[k].key != KeyOf(es[i]) ==> after[k] == before[k])
  {
    hide Metrics, Own, Sort, KeyLe, KeysOf, Acceptable, NoWorse, Rounding;
    PassingCounts(es[i]);
    hide Is, WeightOf, KeyOf, Failed;
    PassingStaysAcceptable(es, i, index);
    KeysOfUpdated(es, i, es[i].(status := Some(Pass)));
    var key := Sort(KeysOf(es), KeyLe)[k];
    PassingMetrics(round1, es, i, key);
    MetricsKey(round1, key, Own(es, key));
    if key != KeyOf(es[i]) {
      OwnElsewhere(es, i, es[i].(status := Some(Pass)), key);
    }
  }

  lemma MetricsKey(round1: real -> real, key: Key, own: seq<Evaluation>)
    ensures Metrics(round1, key, own).key == key
  {
    hide Is, WeightOf, Percent, IsError;
  }

  lemma OwnElsewhere(es: seq<Evaluation>, i: nat, e: Evaluation, key: Key)
    requires i < |es| && KeyOf(e) == KeyOf(es[i]) != key
    ensures Own(es[i := e], key) == Own(es, key)
  {
    hide KeyOf, Own;
    var es' := es[i := e];
    assert es'[..i] == es[..i] && es'[i + 1..] == es[i + 1..];
    assert es == es[..i + 1] + es[i + 1..] && es' == es'[..i + 1] + es'[i + 1..];
    OwnConcat(es[..i + 1], es[i + 1..], key);
    OwnConcat(es'[..i + 1], es'[i + 1..], key);
    OwnNext(es, i, key);
    OwnNext(es', i, key);
  }
}

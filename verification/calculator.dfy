/** The calculation of all scores: grouping by source, then running counts and weights. */
module Calculator {
  import opened Wrappers
  import opened Sorting
  import opened Sums
  import opened Contracts
  import opened Scoring
  import opened ScoringLaws

  // Evaluations with the rules they are pinned to.
  type Items = seq<(Evaluation, Rule)>

  ghost predicate Binds(items: Items, own: seq<Evaluation>, index: map<Identity, Rule>) {
    && |items| == |own|
    && forall k | 0 <= k < |own| :: items[k].0 == own[k] && PinnedRule(own[k], index) == Some(items[k].1)
  }

  ghost predicate Saw(es: seq<Evaluation>, identity: (string, string, int, string)) {
    exists i | 0 <= i < |es| :: MetricIdentity(es[i]) == identity
  }

  // What the first loop has built from the evaluations seen so far.
  ghost predicate Partitioned(
    es: seq<Evaluation>, index: map<Identity, Rule>, seen: set<(string, string, int, string)>,
    order: seq<Key>, parts: map<Key, Items>)
  {
    && (forall x :: x in seen <==> Saw(es, x))
    && order == KeysOf(es)
    && (forall key :: key in parts <==> key in order)
    && (forall key | key in parts :: Binds(parts[key], Own(es, key), index))
  }

  method BuildIndex(rules: seq<Rule>) returns (index: map<Identity, Rule>)
    ensures index == IndexOf(rules)
  {
    index := map[];
    assert rules[..0] == [];
    for i := 0 to |rules|
      invariant index == IndexOf(rules[..i])
    {
      assert rules[..i + 1][..i] == rules[..i];
      index := index + map[rules[i].Identity() := rules[i]];
    }
    assert rules[..|rules|] == rules;
  }

  // The first loop: bind every evaluation and group them by source, or refuse.
  method Partition(es: seq<Evaluation>, index: map<Identity, Rule>)
    returns (accepted: bool, order: seq<Key>, parts: map<Key, Items>)
    ensures accepted <==> Distinct(es) && forall i | 0 <= i < |es| :: PinnedRule(es[i], index).Some?
    ensures accepted ==>
      && order == KeysOf(es) && (forall key :: key in parts <==> key in order)
      && forall key | key in parts :: Binds(parts[key], Own(es, key), index)
  {
    hide *;
    order, parts := [], map[];
    var seen: set<(string, string, int, string)> := {};
    NothingPartitioned(index);
    assert es[..0] == [];
    for i := 0 to |es|
      invariant Partitioned(es[..i], index, seen, order, parts)
      invariant Distinct(es[..i]) && forall j | 0 <= j < i :: PinnedRule(es[j], index).Some?
    {
      if MetricIdentity(es[i]) in seen {
        SeenTwice(es, i, index, seen, order, parts);
        return false, [], map[];
      }
      var rule := PinnedRule(es[i], index);
      if rule.None? {
        return false, [], map[];
      }
      var key := KeyOf(es[i]);
      var items: Items := if key in parts then parts[key] else [];
      OneMoreBound(es, i, index, seen, order, parts, rule.value);
      seen, order := seen + {MetricIdentity(es[i])}, if key in parts then order else order + [key];
      parts := parts + map[key := items + [(es[i], rule.value)]];
    }
    assert es[..|es|] == es;
    PartitionedMeans(es, index, seen, order, parts);
    return true, order, parts;
  }

  lemma PartitionedMeans(
    es: seq<Evaluation>, index: map<Identity, Rule>, seen: set<(string, string, int, string)>,
    order: seq<Key>, parts: map<Key, Items>)
    requires Partitioned(es, index, seen, order, parts)
    ensures order == KeysOf(es) && (forall key :: key in parts <==> key in order)
    ensures forall key | key in parts :: Binds(parts[key], Own(es, key), index)
  {
    hide Binds, Own, KeysOf, MetricIdentity;
  }

  lemma NothingPartitioned(index: map<Identity, Rule>)
    ensures Partitioned([], index, {}, [], map[]) && Distinct([])
  {
  }

  lemma SeenTwice(
    es: seq<Evaluation>, i: nat, index: map<Identity, Rule>, seen: set<(string, string, int, string)>,
    order: seq<Key>, parts: map<Key, Items>)
    requires i < |es| && Partitioned(es[..i], index, seen, order, parts) && MetricIdentity(es[i]) in seen
    ensures !Distinct(es)
  {
    hide MetricIdentity, Binds, Own, KeysOf;
    var j :| 0 <= j < i && MetricIdentity(es[..i][j]) == MetricIdentity(es[i]);
    assert es[..i][j] == es[j];
  }

  lemma {:induction false} OwnOfNewKey(es: seq<Evaluation>, key: Key)
    requires key !in KeysOf(es)
    ensures Own(es, key) == []
  {
    if es != [] {
      OwnOfNewKey(es[..|es| - 1], key);
    }
  }

  lemma OneMoreBound(
    es: seq<Evaluation>, i: nat, index: map<Identity, Rule>, seen: set<(string, string, int, string)>,
    order: seq<Key>, parts: map<Key, Items>, rule: Rule)
    requires i < |es| && Partitioned(es[..i], index, seen, order, parts)
    requires MetricIdentity(es[i]) !in seen && Distinct(es[..i]) && PinnedRule(es[i], index) == Some(rule)
    ensures Distinct(es[..i + 1])
    ensures var key := KeyOf(es[i]); var items: Items := if key in parts then parts[key] else [];
      Partitioned(
        es[..i + 1], index, seen + {MetricIdentity(es[i])}, if key in parts then order else order + [key],
        parts + map[key := items + [(es[i], rule)]])
  {
    hide Distinct, MetricIdentity, Own, KeysOf, KeyOf, PinnedRule, Binds, Saw;
    var key := KeyOf(es[i]);
    var items: Items := if key in parts then parts[key] else [];
    var parts' := parts + map[key := items + [(es[i], rule)]];
    SeenGrows(es, i, index, seen, order, parts);
    KeysNext(es, i);
    forall k | k in parts' ensures Binds(parts'[k], Own(es[..i + 1], k), index) {
      BoundNext(es, i, index, seen, order, parts, rule, k);
    }
    assert forall k :: k in parts' <==> k in parts || k == key;
  }

  lemma BoundNext(
    es: seq<Evaluation>, i: nat, index: map<Identity, Rule>, seen: set<(string, string, int, string)>,
    order: seq<Key>, parts: map<Key, Items>, rule: Rule, k: Key)
    requires i < |es| && Partitioned(es[..i], index, seen, order, parts) && PinnedRule(es[i], index) == Some(rule)
    requires k in parts || k == KeyOf(es[i])
    ensures var items: Items := if k in parts then parts[k] else [];
      Binds(if k == KeyOf(es[i]) then items + [(es[i], rule)] else items, Own(es[..i + 1], k), index)
  {
    hide Own, KeysOf, KeyOf, PinnedRule, Saw, MetricIdentity, Binds;
    OwnNext(es, i, k);
    var items: Items := if k in parts then parts[k] else [];
    if k !in parts {
      OwnOfNewKey(es[..i], k);
      BindsNothing(index);
    }
    assert Binds(items, Own(es[..i], k), index);
    if k == KeyOf(es[i]) {
      BindsOneMore(items, Own(es[..i], k), index, es[i], rule);
    } else {
      assert Own(es[..i], k) + [] == Own(es[..i], k);
    }
  }

  lemma BindsNothing(index: map<Identity, Rule>)
    ensures Binds([], [], index)
  {
  }

  lemma BindsOneMore(items: Items, own: seq<Evaluation>, index: map<Identity, Rule>, e: Evaluation, rule: Rule)
    requires Binds(items, own, index) && PinnedRule(e, index) == Some(rule)
    ensures Binds(items + [(e, rule)], own + [e], index)
  {
    hide PinnedRule;
  }

  lemma KeysNext(es: seq<Evaluation>, i: nat)
    requires i < |es|
    ensures var before, key := KeysOf(es[..i]), KeyOf(es[i]);
      KeysOf(es[..i + 1]) == if key in before then before else before + [key]
  {
    assert es[..i + 1][..i] == es[..i];
  }

  lemma SeenGrows(
    es: seq<Evaluation>, i: nat, index: map<Identity, Rule>, seen: set<(string, string, int, string)>,
    order: seq<Key>, parts: map<Key, Items>)
    requires i < |es| && Partitioned(es[..i], index, seen, order, parts)
    requires MetricIdentity(es[i]) !in seen && Distinct(es[..i])
    ensures Distinct(es[..i + 1])
    ensures forall x :: x in seen + {MetricIdentity(es[i])} <==> Saw(es[..i + 1], x)
  {
    hide MetricIdentity, Binds, Own, KeysOf, KeyOf;
    var before, after := es[..i], es[..i + 1];
    assert forall j | 0 <= j < i :: before[j] == after[j] == es[j];
    assert after[i] == es[i];
    forall j | 0 <= j < i ensures MetricIdentity(after[j]) in seen {
      assert Saw(before, MetricIdentity(before[j]));
    }
    forall x | x in seen ensures Saw(after, x) {
      var j :| 0 <= j < i && MetricIdentity(before[j]) == x;
      assert MetricIdentity(after[j]) == x;
    }
    assert Saw(after, MetricIdentity(es[i]));
  }

  // The second loop's body: one source's counts, weights and percentages. None stands for the raised error.
  method ScoreSource(
    round1: real -> real, key: Key, items: Items, index: map<Identity, Rule>, ghost own: seq<Evaluation>)
    returns (r: Option<SourceScore>)
    requires Binds(items, own, index)
    ensures r.None? <==> exists k | 0 <= k < |own| :: !own[k].error && own[k].status.None?
    ensures r.Some? ==> r.value == Metrics(round1, key, own)
    ensures r.Some? ==> forall es | Own(es, key) == own :: Measures(r.value, round1, es)
  {
    hide Own, PinnedRule, Sum, Percent, Measures;
    forall es | Own(es, key) == own ensures Measures(Metrics(round1, key, own), round1, es) {
      MetricsMeasure(round1, es, key);
    }
    var counts := map[Pass := 0, Fail := 0, ManualReview := 0, NotApplicable := 0];
    var errors: nat, passedWeight: nat, decidedWeight: nat := 0, 0, 0;
    SumOfNothing();
    assert own[..0] == [];
    for k := 0 to |items|
      invariant counts.Keys == {Pass, Fail, ManualReview, NotApplicable}
      invariant Tallied(own[..k], counts, errors, passedWeight, decidedWeight)
      invariant forall j | 0 <= j < k :: own[j].error || own[j].status.Some?
    {
      var e, rule := items[k].0, items[k].1;
      PinnedSeverity(e, index);
      TallyNext(own, k);
      if e.error {
        errors := errors + 1;
      } else if e.status.None? {
        return None;
      } else {
        EveryStatus(e.status.value);
        counts := counts + map[e.status.value := counts[e.status.value] + 1];
        if e.status.value == Pass || e.status.value == Fail {
          decidedWeight := decidedWeight + Weight(rule.fields.severity);
          if e.status.value == Pass {
            passedWeight := passedWeight + Weight(rule.fields.severity);
          }
        }
      }
    }
    assert own[..|own|] == own;
    var decided := counts[Pass] + counts[Fail];
    return Some(SourceScore(
      key, Percent(round1, passedWeight, decidedWeight), Percent(round1, decided, decided + counts[ManualReview]),
      counts[Pass], counts[Fail], counts[ManualReview], counts[NotApplicable], errors));
  }

  ghost predicate Tallied(
    own: seq<Evaluation>, counts: map<EvaluationStatus, nat>, errors: nat, passedWeight: nat, decidedWeight: nat)
    requires counts.Keys == {Pass, Fail, ManualReview, NotApplicable}
  {
    && counts[Pass] == Sum(own, Is(Pass)) && counts[Fail] == Sum(own, Is(Fail))
    && counts[ManualReview] == Sum(own, Is(ManualReview)) && counts[NotApplicable] == Sum(own, Is(NotApplicable))
    && errors == Sum(own, IsError())
    && passedWeight == Sum(own, WeightOf(Pass))
    && decidedWeight == Sum(own, WeightOf(Pass)) + Sum(own, WeightOf(Fail))
  }

  lemma EveryStatus(s: EvaluationStatus)
    ensures s in {Pass, Fail, ManualReview, NotApplicable}
  {
  }

  lemma SumOfNothing()
    ensures forall f: Evaluation -> nat :: Sum([], f) == 0
  {
  }

  lemma PinnedSeverity(e: Evaluation, index: map<Identity, Rule>)
    requires PinnedRule(e, index).Some?
    ensures PinnedRule(e, index).value.fields.severity == e.severity
  {
  }

  lemma TallyNext(own: seq<Evaluation>, k: nat)
    requires k < |own|
    ensures forall f: Evaluation -> nat :: Sum(own[..k + 1], f) == Sum(own[..k], f) + f(own[k])
  {
    forall f: Evaluation -> nat ensures Sum(own[..k + 1], f) == Sum(own[..k], f) + f(own[k]) {
      SumNext(own, k, f);
    }
  }

  // calculate_source_metrics
  method CalculateSourceMetrics(round1: real -> real, es: seq<Evaluation>, rules: seq<Rule>)
    returns (r: Option<seq<SourceScore>>)
    ensures r == Calculate(round1, es, IndexOf(rules))
    ensures r.Some? <==> Calculable(es, rules)
    ensures r.Some? ==> MeasureAll(r.value, round1, es)
  {
    hide *;
    AcceptedExactly(round1, es, rules);
    if Calculate(round1, es, IndexOf(rules)).Some? {
      ScoresMeasure(round1, es, IndexOf(rules));
    }
    var index := BuildIndex(rules);
    var accepted, order, parts := Partition(es, index);
    if !accepted {
      NotAccepted(es, index);
      Refused(round1, es, index);
      return None;
    }
    var keys := Sort(order, KeyLe);
    SortedKeysIn(es, keys);
    var scores: seq<SourceScore> := [];
    for k := 0 to |keys|
      invariant |scores| == k
      invariant forall j | 0 <= j < k :: scores[j] == Metrics(round1, keys[j], Own(es, keys[j]))
      invariant forall j | 0 <= j < k :: AllDecided(Own(es, keys[j]))
    {
      assert keys[k] in keys;
      var score := ScoreSource(round1, keys[k], parts[keys[k]], index, Own(es, keys[k]));
      DecidedMeans(Own(es, keys[k]));
      if score.None? {
        Undecided(es, index, keys[k]);
        Refused(round1, es, index);
        return None;
      }
      scores := scores + [score.value];
    }
    Decided(round1, es, index, keys, scores);
    return Some(scores);
  }

  lemma Refused(round1: real -> real, es: seq<Evaluation>, index: map<Identity, Rule>)
    requires !Acceptable(es, index)
    ensures Calculate(round1, es, index) == None
  {
  }

  ghost predicate AllDecided(own: seq<Evaluation>) {
    forall k | 0 <= k < |own| :: own[k].error || own[k].status.Some?
  }

  lemma DecidedMeans(own: seq<Evaluation>)
    ensures AllDecided(own) <==> !exists k | 0 <= k < |own| :: !own[k].error && own[k].status.None?
  {
  }

  lemma NotAccepted(es: seq<Evaluation>, index: map<Identity, Rule>)
    requires !(Distinct(es) && forall i | 0 <= i < |es| :: PinnedRule(es[i], index).Some?)
    ensures !Acceptable(es, index)
  {
    hide Distinct, PinnedRule;
    if Distinct(es) {
      var i :| 0 <= i < |es| && PinnedRule(es[i], index).None?;
      assert !Scorable(es[i], index);
    }
  }

  lemma SortedKeysIn(es: seq<Evaluation>, keys: seq<Key>)
    requires keys == Sort(KeysOf(es), KeyLe)
    ensures forall key | key in keys :: key in KeysOf(es)
  {
    hide KeysOf, Sort, KeyLe;
    SortPermutes(KeysOf(es), KeyLe);
    forall key | key in keys ensures key in KeysOf(es) {
      assert key in multiset(keys);
    }
  }

  lemma Undecided(es: seq<Evaluation>, index: map<Identity, Rule>, key: Key)
    requires !AllDecided(Own(es, key))
    ensures !Acceptable(es, index)
  {
    hide Own, PinnedRule, Distinct;
    OwnIsInside(es, key);
    var own := Own(es, key);
    var k :| 0 <= k < |own| && !(own[k].error || own[k].status.Some?);
    assert own[k] in own;
    var i :| 0 <= i < |es| && es[i] == own[k];
    assert !Scorable(es[i], index);
  }

  lemma {:induction false} OwnHolds(es: seq<Evaluation>, i: nat)
    requires i < |es|
    ensures es[i] in Own(es, KeyOf(es[i]))
  {
    hide KeyOf;
    if i < |es| - 1 {
      OwnHolds(es[..|es| - 1], i);
    }
  }

  lemma Decided(
    round1: real -> real, es: seq<Evaluation>, index: map<Identity, Rule>, keys: seq<Key>, scores: seq<SourceScore>)
    requires keys == Sort(KeysOf(es), KeyLe)
    requires Distinct(es) && forall i | 0 <= i < |es| :: PinnedRule(es[i], index).Some?
    requires |scores| == |keys| && forall j | 0 <= j < |keys| :: scores[j] == Metrics(round1, keys[j], Own(es, keys[j]))
    requires forall j | 0 <= j < |keys| :: AllDecided(Own(es, keys[j]))
    ensures Calculate(round1, es, index) == Some(scores)
  {
    hide Own, PinnedRule, Distinct, KeysOf, Sort, KeyLe, Metrics, KeyOf;
    SortedKeys(es);
    forall i | 0 <= i < |es| ensures Scorable(es[i], index) {
      var key := KeyOf(es[i]);
      var j :| 0 <= j < |keys| && keys[j] == key;
      OwnHolds(es, i);
      var own := Own(es, key);
      var k :| 0 <= k < |own| && own[k] == es[i];
      assert AllDecided(own);
    }
    assert Scores(round1, es) == scores;
  }
}

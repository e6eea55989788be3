/** Custom metrics of horizontal pod autoscalers: each one owns a rule in the rule list of the
    Prometheus adapter, which all autoscalers and the initial configuration share. */
module HpaRules {
  import opened Common

  datatype Rule = Rule(seriesQuery: string, matches: string, alias: string, metricsQuery: string)

  /** A custom metric with the hash and the printed form of its labels; `valid` says whether
      its target value parses. */
  datatype CustomMetric = CustomMetric(metricName: string, labelsHash: string, labels: string, valid: bool)
  datatype ResourceMetric = ResourceMetric(resource: string, valid: bool)

  datatype Hpa = Hpa(name: string, kind: string, target: string,
                     resources: seq<ResourceMetric>, customs: seq<CustomMetric>)

  datatype MetricSpec = ResourceSpec(resource: string) | PodsSpec(name: string)
  datatype K8sHpa = K8sHpa(kind: string, target: string, metrics: seq<MetricSpec>)

  datatype Key = Key(namespace: string, name: string)

  // ---------------------------------------------------------------------------
  // Generating rules and metrics
  // ---------------------------------------------------------------------------

  function Alias(k: Key, m: CustomMetric): string {
    m.metricName + "_" + m.labelsHash + "_" + k.namespace + "_" + k.name
  }

  function GenRule(k: Key, m: CustomMetric): Rule {
    Rule("{__name__=~\"" + m.metricName + "\"" + ",kubernetes_pod_name!=\"\""
           + ",kubernetes_namespace=\"" + k.namespace + "\"}",
         "^" + m.metricName + "$",
         Alias(k, m),
         "sum(" + m.metricName + "{" + m.labels + "}) by (<<.GroupBy>>)")
  }

  function RulesOf(k: Key, customs: seq<CustomMetric>): seq<Rule> {
    seq(|customs|, i requires 0 <= i < |customs| => GenRule(k, customs[i]))
  }

  function ResourceSpecs(resources: seq<ResourceMetric>): seq<MetricSpec> {
    seq(|resources|, i requires 0 <= i < |resources| => ResourceSpec(resources[i].resource))
  }

  function PodsSpecs(k: Key, customs: seq<CustomMetric>): seq<MetricSpec> {
    seq(|customs|, i requires 0 <= i < |customs| => PodsSpec(Alias(k, customs[i])))
  }

  predicate Valid(h: Hpa) {
    (forall r <- h.resources :: r.valid) && (forall c <- h.customs :: c.valid)
  }

  function ToK8s(k: Key, h: Hpa): K8sHpa {
    K8sHpa(h.kind, h.target, ResourceSpecs(h.resources) + PodsSpecs(k, h.customs))
  }

  /** The aliases a stored autoscaler uses, as `getOldRules` reads them. */
  function OldAliases(metrics: seq<MetricSpec>): seq<string> {
    if metrics == [] then []
    else
      var rest := OldAliases(metrics[..|metrics| - 1]);
      match metrics[|metrics| - 1]
      case PodsSpec(name) => rest + [name]
      case ResourceSpec(_) => rest
  }

  function Aliases(rules: seq<Rule>): seq<string> {
    seq(|rules|, i requires 0 <= i < |rules| => rules[i].alias)
  }

  lemma {:induction false} OldAliasesAppend(a: seq<MetricSpec>, b: seq<MetricSpec>)
    ensures OldAliases(a + b) == OldAliases(a) + OldAliases(b)
  {
    if b == [] {
      assert a + b == a;
    } else {
      assert (a + b)[..|a + b| - 1] == a + b[..|b| - 1];
      OldAliasesAppend(a, b[..|b| - 1]);
    }
  }

  lemma {:induction false} ResourceAliases(resources: seq<ResourceMetric>)
    ensures OldAliases(ResourceSpecs(resources)) == []
  {
    if resources != [] {
      ResourceAliases(resources[..|resources| - 1]);
      assert ResourceSpecs(resources)[..|resources| - 1] == ResourceSpecs(resources[..|resources| - 1]);
    }
  }

  lemma {:induction false} PodsAliases(k: Key, customs: seq<CustomMetric>)
    ensures OldAliases(PodsSpecs(k, customs)) == Aliases(RulesOf(k, customs))
  {
    if customs != [] {
      var front := customs[..|customs| - 1];
      PodsAliases(k, front);
      assert PodsSpecs(k, customs)[..|customs| - 1] == PodsSpecs(k, front);
      assert Aliases(RulesOf(k, customs)) == Aliases(RulesOf(k, front)) + [Alias(k, customs[|customs| - 1])];
    }
  }

  /** What a stored autoscaler says it uses is what was generated for it. */
  lemma StoredAliases(k: Key, h: Hpa)
    ensures OldAliases(ToK8s(k, h).metrics) == Aliases(RulesOf(k, h.customs))
  {
    OldAliasesAppend(ResourceSpecs(h.resources), PodsSpecs(k, h.customs));
    ResourceAliases(h.resources);
    PodsAliases(k, h.customs);
  }

  method GetOldRules(metrics: seq<MetricSpec>) returns (aliases: seq<string>)
    ensures aliases == OldAliases(metrics)
  {
    aliases := [];
    for i := 0 to |metrics|
      invariant aliases == OldAliases(metrics[..i])
    {
      assert metrics[..i + 1][..i] == metrics[..i];
      if metrics[i].PodsSpec? {
        aliases := aliases + [metrics[i].name];
      }
    }
    assert metrics[..|metrics|] == metrics;
  }

  // ---------------------------------------------------------------------------
  // Editing the rule list
  // ---------------------------------------------------------------------------

  datatype Edit = Edited(rules: seq<Rule>) | NotFound(alias: string) | Duplicate(alias: string)

  predicate HasAlias(rules: seq<Rule>, alias: string) {
    exists r <- rules :: r.alias == alias
  }

  /** The list without the first rule of that alias. */
  function Drop(rules: seq<Rule>, alias: string): seq<Rule> {
    if rules == [] then []
    else if rules[0].alias == alias then rules[1..]
    else [rules[0]] + Drop(rules[1..], alias)
  }

  function DropAll(rules: seq<Rule>, aliases: seq<string>): Edit {
    if aliases == [] then Edited(rules)
    else
      match DropAll(rules, aliases[..|aliases| - 1])
      case Edited(rest) =>
        var a := aliases[|aliases| - 1];
        if HasAlias(rest, a) then Edited(Drop(rest, a)) else NotFound(a)
      case failed => failed
  }

  function AddAll(rules: seq<Rule>, added: seq<Rule>): Edit {
    if added == [] then Edited(rules)
    else
      match AddAll(rules, added[..|added| - 1])
      case Edited(rest) =>
        var r := added[|added| - 1];
        if HasAlias(rest, r.alias) then Duplicate(r.alias) else Edited(rest + [r])
      case failed => failed
  }

  /** `updatePrometheusAdapterConfigMap`: drop the old rules, then append the new ones. */
  function EditRules(rules: seq<Rule>, oldAliases: seq<string>, newRules: seq<Rule>): Edit {
    match DropAll(rules, oldAliases)
    case Edited(rest) => AddAll(rest, newRules)
    case failed => failed
  }

  method UpdateAdapterRules(rules: seq<Rule>, oldAliases: seq<string>, newRules: seq<Rule>) returns (e: Edit)
    ensures e == EditRules(rules, oldAliases, newRules)
  {
    var config := rules;
    for i := 0 to |oldAliases|
      invariant DropAll(rules, oldAliases[..i]) == Edited(config)
    {
      assert oldAliases[..i + 1][..i] == oldAliases[..i];
      var next, exists_ := Splice(config, oldAliases[i]);
      if !exists_ {
        DropAllStops(rules, oldAliases, i + 1);
        return NotFound(oldAliases[i]);
      }
      config := next;
    }
    assert oldAliases[..|oldAliases|] == oldAliases;
    ghost var rest := config;
    for i := 0 to |newRules|
      invariant AddAll(rest, newRules[..i]) == Edited(config)
    {
      assert newRules[..i + 1][..i] == newRules[..i];
      if HasAlias(config, newRules[i].alias) {
        AddAllStops(rest, newRules, i + 1);
        return Duplicate(newRules[i].alias);
      }
      config := config + [newRules[i]];
    }
    assert newRules[..|newRules|] == newRules;
    return Edited(config);
  }

  method Splice(rules: seq<Rule>, alias: string) returns (r: seq<Rule>, found: bool)
    ensures found <==> HasAlias(rules, alias)
    ensures found ==> r == Drop(rules, alias)
  {
    for i := 0 to |rules|
      invariant forall j :: 0 <= j < i ==> rules[j].alias != alias
    {
      if rules[i].alias == alias {
        CutIsDrop(rules, alias, i);
        return rules[..i] + rules[i + 1..], true;
      }
    }
    return rules, false;
  }

  lemma {:induction false} CutIsDrop(rules: seq<Rule>, alias: string, i: nat)
    requires i < |rules| && rules[i].alias == alias && forall j :: 0 <= j < i ==> rules[j].alias != alias
    ensures rules[..i] + rules[i + 1..] == Drop(rules, alias)
  {
    if i > 0 {
      CutIsDrop(rules[1..], alias, i - 1);
      assert rules[..i] + rules[i + 1..] == [rules[0]] + (rules[1..][..i - 1] + rules[1..][i..]);
    }
  }

  lemma {:induction false} DropAllStops(rules: seq<Rule>, aliases: seq<string>, i: nat)
    requires i <= |aliases| && !DropAll(rules, aliases[..i]).Edited?
    ensures DropAll(rules, aliases) == DropAll(rules, aliases[..i])
  {
    if i < |aliases| {
      assert aliases[..|aliases| - 1][..i] == aliases[..i];
      DropAllStops(rules, aliases[..|aliases| - 1], i);
    } else {
      assert aliases[..i] == aliases;
    }
  }

  lemma {:induction false} AddAllStops(rules: seq<Rule>, added: seq<Rule>, i: nat)
    requires i <= |added| && !AddAll(rules, added[..i]).Edited?
    ensures AddAll(rules, added) == AddAll(rules, added[..i])
  {
    if i < |added| {
      assert added[..|added| - 1][..i] == added[..i];
      AddAllStops(rules, added[..|added| - 1], i);
    } else {
      assert added[..i] == added;
    }
  }

  // ---------------------------------------------------------------------------
  // What an edit does when aliases are distinct
  // ---------------------------------------------------------------------------

  ghost predicate DistinctAliases(rules: seq<Rule>) {
    forall i, j :: 0 <= i < j < |rules| ==> rules[i].alias != rules[j].alias
  }

  lemma {:induction false} DropMembers(rules: seq<Rule>, alias: string)
    requires DistinctAliases(rules)
    ensures DistinctAliases(Drop(rules, alias))
    ensures forall r :: r in Drop(rules, alias) <==> r in rules && r.alias != alias
  {
    if rules != [] {
      var head, tail := rules[0], rules[1..];
      assert rules == [head] + tail;
      assert DistinctAliases(tail);
      forall r <- tail
        ensures r.alias != head.alias
      {
        var i :| 0 <= i < |tail| && tail[i] == r;
        assert rules[i + 1] == r;
      }
      if head.alias != alias {
        DropMembers(tail, alias);
        PrependDistinct(head, Drop(tail, alias));
      }
    }
  }

  lemma PrependDistinct(head: Rule, tail: seq<Rule>)
    requires DistinctAliases(tail) && forall r <- tail :: r.alias != head.alias
    ensures DistinctAliases([head] + tail)
  {
  }

  /** Dropping aliases that are there, each once, always succeeds and drops exactly them. */
  lemma {:induction false} DropAllMembers(rules: seq<Rule>, aliases: seq<string>)
    requires DistinctAliases(rules) && NoDup(aliases) && forall a <- aliases :: HasAlias(rules, a)
    ensures DropAll(rules, aliases).Edited?
    ensures DistinctAliases(DropAll(rules, aliases).rules)
    ensures forall r :: r in DropAll(rules, aliases).rules <==> r in rules && r.alias !in aliases
  {
    if aliases != [] {
      var front, a := aliases[..|aliases| - 1], aliases[|aliases| - 1];
      assert aliases == front + [a];
      DropAllMembers(rules, front);
      var rest := DropAll(rules, front).rules;
      assert HasAlias(rules, a);
      var r :| r in rules && r.alias == a;
      assert r in rest;
      DropMembers(rest, a);
    }
  }

  /** Dropping never adds, and fails on an alias that is not there. */
  lemma {:induction false} DropAllNeeds(rules: seq<Rule>, aliases: seq<string>)
    ensures var e := DropAll(rules, aliases);
            && !e.Duplicate?
            && (e.Edited? ==> (forall r <- e.rules :: r in rules) && forall a <- aliases :: HasAlias(rules, a))
  {
    if aliases != [] {
      var front, a := aliases[..|aliases| - 1], aliases[|aliases| - 1];
      assert aliases == front + [a];
      DropAllNeeds(rules, front);
      if DropAll(rules, front).Edited? {
        DropShrinks(DropAll(rules, front).rules, a);
      }
    }
  }

  lemma {:induction false} DropShrinks(rules: seq<Rule>, alias: string)
    ensures forall r <- Drop(rules, alias) :: r in rules
  {
    if rules != [] && rules[0].alias != alias {
      DropShrinks(rules[1..], alias);
    }
  }

  ghost predicate FreshFor(rules: seq<Rule>, added: seq<Rule>) {
    DistinctAliases(added) && forall r <- added :: !HasAlias(rules, r.alias)
  }

  /** One more rule is fresh when it clashes neither with the list nor with those before it. */
  lemma FreshForAppend(rules: seq<Rule>, front: seq<Rule>, r: Rule)
    ensures FreshFor(rules, front + [r]) <==> FreshFor(rules, front) && !HasAlias(rules + front, r.alias)
  {
    var added := front + [r];
    assert added[|front|] == r && forall i :: 0 <= i < |front| ==> added[i] == front[i];
    if FreshFor(rules, added) {
      forall x <- front
        ensures x in added
      {
      }
      forall x <- rules + front
        ensures x.alias != r.alias
      {
        assert x in rules || x in front;
        assert r in added && !HasAlias(rules, r.alias);
      }
    }
    if !HasAlias(rules + front, r.alias) {
      assert forall x <- rules :: x in rules + front;
      assert forall i :: 0 <= i < |front| ==> front[i] in rules + front;
    }
  }

  /** Appending succeeds exactly when the new aliases are distinct and unused. */
  lemma {:induction false} AddAllResult(rules: seq<Rule>, added: seq<Rule>)
    ensures AddAll(rules, added).Edited? <==> FreshFor(rules, added)
    ensures FreshFor(rules, added) ==> AddAll(rules, added) == Edited(rules + added)
  {
    if added == [] {
      assert rules + added == rules;
    } else {
      var front, r := added[..|added| - 1], added[|added| - 1];
      assert added == front + [r];
      AddAllResult(rules, front);
      FreshForAppend(rules, front, r);
      assert rules + front + [r] == rules + added;
    }
  }

  lemma AppendDistinct(rules: seq<Rule>, added: seq<Rule>)
    requires DistinctAliases(rules) && FreshFor(rules, added)
    ensures DistinctAliases(rules + added)
  {
  }

  /** Creating and then deleting the same rules gives the original sequence back. */
  lemma {:induction false} AddThenDrop(rules: seq<Rule>, added: seq<Rule>)
    requires AddAll(rules, added).Edited?
    ensures DropAll(rules + added, Aliases(added)) == Edited(rules)
  {
    AddAllResult(rules, added);
    DropFromTail(rules, added, |added|);
    assert added[|added|..] == [];
    assert Aliases(added)[..|added|] == Aliases(added);
  }

  lemma {:induction false} DropFromTail(rules: seq<Rule>, added: seq<Rule>, n: nat)
    requires FreshFor(rules, added) && n <= |added|
    ensures DropAll(rules + added, Aliases(added)[..n]) == Edited(rules + added[n..])
  {
    if n == 0 {
      assert added[0..] == added;
    } else {
      DropFromTail(rules, added, n - 1);
      assert Aliases(added)[..n][..n - 1] == Aliases(added)[..n - 1];
      var tail := added[n - 1..];
      assert tail[0] == added[n - 1] && tail[1..] == added[n..];
      assert added[n - 1] in added;
      DropHeadOfTail(rules, tail);
    }
  }

  lemma {:induction false} DropHeadOfTail(rules: seq<Rule>, tail: seq<Rule>)
    requires tail != [] && !HasAlias(rules, tail[0].alias)
    ensures HasAlias(rules + tail, tail[0].alias)
    ensures Drop(rules + tail, tail[0].alias) == rules + tail[1..]
  {
    assert (rules + tail)[|rules|] == tail[0];
    if rules == [] {
      assert rules + tail == tail;
    } else {
      assert rules[0] in rules;
      assert (rules + tail)[1..] == rules[1..] + tail;
      DropHeadOfTail(rules[1..], tail);
    }
  }
}

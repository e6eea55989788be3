/** When each call on an autoscaler is done, and what it leaves. */
module HpaCalls {
  import opened Common
  import opened HpaRules
  import opened HpaRuns

  // ---------------------------------------------------------------------------
  // What is generated
  // ---------------------------------------------------------------------------

  /** Two texts joined by an underscore that the second does not contain can be told apart. */
  lemma LastPart(a: string, b: string, c: string, d: string)
    requires a + "_" + b == c + "_" + d && '_' !in b && '_' !in d
    ensures a == c && b == d
  {
    var s, n := a + "_" + b, |a + "_" + b|;
    assert s[|a|] == '_' && s[|c|] == '_';
    assert forall i :: |a| < i < n ==> s[i] == b[i - |a| - 1];
    assert forall i :: |c| < i < n ==> s[i] == d[i - |c| - 1];
    assert |a| == |c|;
    assert s[..|a|] == a && s[..|c|] == c && s[|a| + 1..] == b && s[|c| + 1..] == d;
  }

  ghost predicate NoUnderscore(k: Key, m: CustomMetric) {
    '_' !in m.labelsHash && '_' !in k.namespace && '_' !in k.name
  }

  /** With no underscore in hash, namespace and name, as Kubernetes and the hash have it, an alias
      says which metric of which autoscaler it belongs to. */
  lemma AliasInjective(k: Key, m: CustomMetric, l: Key, n: CustomMetric)
    requires NoUnderscore(k, m) && NoUnderscore(l, n)
    ensures Alias(k, m) == Alias(l, n) <==> k == l && m.metricName == n.metricName && m.labelsHash == n.labelsHash
  {
    if Alias(k, m) == Alias(l, n) {
      var x, y := m.metricName + "_" + m.labelsHash, n.metricName + "_" + n.labelsHash;
      LastPart(x + "_" + k.namespace, k.name, y + "_" + l.namespace, l.name);
      LastPart(x, k.namespace, y, l.namespace);
      LastPart(m.metricName, m.labelsHash, n.metricName, n.labelsHash);
    }
  }

  /** The rule of one metric, letter by letter. */
  lemma RuleText()
    ensures var rule := GenRule(Key("ns", "h"), CustomMetric("m", "0f", "a=\"b\"", true));
            && rule.seriesQuery ==
               "{__name__=~\"m\"" + (",kubernetes_pod_name!=\"\"" + ",kubernetes_namespace=\"ns\"}")
            && rule.matches == "^m$"
            && rule.alias == "m_0f_ns_h"
            && rule.metricsQuery == "sum(m{a=\"b\"}) by (<<.GroupBy>>)"
  {
    var k, m := Key("ns", "h"), CustomMetric("m", "0f", "a=\"b\"", true);
    assert Alias(k, m) == "m_0f_ns_h";
    assert GenRule(k, m).metricsQuery == "sum(m{a=\"b\"}) by (<<.GroupBy>>)";
    var x, y, z := "{__name__=~\"", ",kubernetes_pod_name!=\"\"", ",kubernetes_namespace=\"";
    assert x + "m" + "\"" == "{__name__=~\"m\"" && z + "ns" + "\"}" == ",kubernetes_namespace=\"ns\"}";
    assert x + "m" + "\"" + y + z + "ns" + "\"}" == (x + "m" + "\"") + (y + (z + "ns" + "\"}"));
  }

  /** What is stored scales the requested workload by the resource metrics and then the custom ones,
      each of those under the alias of its rule. */
  lemma StoredMeans(namespace: string, h: Hpa)
    ensures var s, n := Spec(namespace, h), |h.resources|;
            && s.kind == h.kind && s.target == h.target && |s.metrics| == n + |h.customs|
            && |Asked(namespace, h)| == |h.customs|
            && (forall i :: 0 <= i < n ==> s.metrics[i] == ResourceSpec(h.resources[i].resource))
            && (forall i :: 0 <= i < |h.customs| ==> s.metrics[n + i] == PodsSpec(Asked(namespace, h)[i].alias))
  {
  }

  // ---------------------------------------------------------------------------
  // Calls
  // ---------------------------------------------------------------------------

  ghost predicate TargetsParse(h: Hpa) {
    && (forall i :: 0 <= i < |h.resources| ==> h.resources[i].valid)
    && (forall i :: 0 <= i < |h.customs| ==> h.customs[i].valid)
  }

  /** The asked rules have aliases of their own, which no rule of the list has. */
  ghost predicate AliasesFree(rules: seq<Rule>, asked: seq<Rule>) {
    && (forall i, j :: 0 <= i < j < |asked| ==> asked[i].alias != asked[j].alias)
    && (forall i, j :: 0 <= i < |asked| && 0 <= j < |rules| ==> asked[i].alias != rules[j].alias)
  }

  lemma FreeIsFresh(rules: seq<Rule>, asked: seq<Rule>)
    ensures AliasesFree(rules, asked) <==> FreshFor(rules, asked)
  {
    if FreshFor(rules, asked) {
      forall i, j | 0 <= i < |asked| && 0 <= j < |rules|
        ensures asked[i].alias != rules[j].alias
      {
        assert asked[i] in asked && rules[j] in rules;
      }
    }
  }

  /** Another autoscaler of the namespace has the name or scales the workload. */
  ghost predicate TakenBy(w: World, k: Key, namespace: string, h: Hpa) {
    && k in w.hpas && k.namespace == namespace
    && (k.name == h.name || (w.hpas[k].kind == h.kind && w.hpas[k].target == h.target))
  }

  /** A create is done exactly when all targets parse, no stored autoscaler of the namespace has the
      name or scales the workload, and the aliases are free; then its rules are appended and it is
      stored. Otherwise it is refused and changes nothing. */
  lemma CreateDecides(w: World, namespace: string, h: Hpa)
    ensures var (w', outcome) := DoCreate(w, namespace, h, true);
            var k, asked := Key(namespace, h.name), Asked(namespace, h);
            if TargetsParse(h) && (forall l :: !TakenBy(w, l, namespace, h)) && AliasesFree(w.rules, asked)
            then outcome == Done
                 && w' == World(w.rules + asked, w.hpas[k := Spec(namespace, h)], w.specs[k := h])
            else outcome == Refused && w' == w
  {
    var asked := Asked(namespace, h);
    AddAllResult(w.rules, asked);
    AddAllNeverMissing(w.rules, asked);
    FreeIsFresh(w.rules, asked);
    ValidMeans(h);
    ClashesMeans(w, namespace, h);
  }

  lemma ClashesMeans(w: World, namespace: string, h: Hpa)
    ensures Clashes(w, namespace, h) <==> exists l :: TakenBy(w, l, namespace, h)
  {
    if Clashes(w, namespace, h) {
      var l :| l in w.hpas && l.namespace == namespace
               && (l.name == h.name || (w.hpas[l].kind == h.kind && w.hpas[l].target == h.target));
      assert TakenBy(w, l, namespace, h);
    }
  }

  lemma ValidMeans(h: Hpa)
    ensures Valid(h) <==> TargetsParse(h)
  {
    if Valid(h) {
      assert forall i :: 0 <= i < |h.resources| ==> h.resources[i] in h.resources;
      assert forall i :: 0 <= i < |h.customs| ==> h.customs[i] in h.customs;
    }
  }

  /** The kept rules and their order. */
  ghost predicate KeptInOrder(rules: seq<Rule>, kept: seq<Rule>) {
    forall i, j :: 0 <= i < j < |kept| ==> Precedes(rules, kept[i], kept[j])
  }

  ghost predicate Precedes(rules: seq<Rule>, x: Rule, y: Rule) {
    exists i, j :: 0 <= i < j < |rules| && rules[i] == x && rules[j] == y
  }

  lemma {:induction false} DropKeepsOrder(rules: seq<Rule>, alias: string, x: Rule, y: Rule)
    requires Precedes(Drop(rules, alias), x, y)
    ensures Precedes(rules, x, y)
  {
    var rest := Drop(rules, alias);
    var i, j :| 0 <= i < j < |rest| && rest[i] == x && rest[j] == y;
    if rules[0].alias == alias {
      assert rules[i + 1] == x && rules[j + 1] == y;
    } else if i == 0 {
      DropShrinks(rules[1..], alias);
      assert rest[j] in Drop(rules[1..], alias);
      var l :| 0 <= l < |rules[1..]| && rules[1..][l] == y;
      assert rules[0] == x && rules[l + 1] == y;
    } else {
      assert Drop(rules[1..], alias)[i - 1] == x && Drop(rules[1..], alias)[j - 1] == y;
      DropKeepsOrder(rules[1..], alias, x, y);
      var a, b :| 0 <= a < b < |rules[1..]| && rules[1..][a] == x && rules[1..][b] == y;
      assert rules[a + 1] == x && rules[b + 1] == y;
    }
  }

  lemma {:induction false} DropAllKeepsOrder(rules: seq<Rule>, aliases: seq<string>, x: Rule, y: Rule)
    requires DropAll(rules, aliases).Edited? && Precedes(DropAll(rules, aliases).rules, x, y)
    ensures Precedes(rules, x, y)
  {
    if aliases != [] {
      var front := aliases[..|aliases| - 1];
      DropKeepsOrder(DropAll(rules, front).rules, aliases[|aliases| - 1], x, y);
      DropAllKeepsOrder(rules, front, x, y);
    }
  }

  /** The rules of all others, in the order they had. */
  ghost predicate Others(w: World, k: Key, rest: seq<Rule>)
    requires k in w.specs
  {
    (forall r :: r in rest <==> r in w.rules && r !in Own(w, k)) && KeptInOrder(w.rules, rest)
  }

  lemma OthersLeft(w: World, initial: seq<Rule>, k: Key) returns (rest: seq<Rule>)
    requires Inv(w, initial) && k in w.specs
    ensures k in w.hpas && DropAll(w.rules, OldAliases(w.hpas[k].metrics)) == Edited(rest) && Others(w, k, rest)
  {
    assert k in w.hpas.Keys;
    Dropped(w, initial, k);
    var aliases := OldAliases(w.hpas[k].metrics);
    rest := DropAll(w.rules, aliases).rules;
    forall i, j | 0 <= i < j < |rest|
      ensures Precedes(w.rules, rest[i], rest[j])
    {
      assert Precedes(rest, rest[i], rest[j]);
      DropAllKeepsOrder(w.rules, aliases, rest[i], rest[j]);
    }
  }

  /** An update of a live autoscaler is done exactly when all targets parse and the new aliases are
      free among the rules of all others; then its rules stand behind those, which keep their order. */
  lemma UpdateDecides(w: World, initial: seq<Rule>, k: Key, h: Hpa) returns (rest: seq<Rule>)
    requires Inv(w, initial) && k in w.specs
    ensures Others(w, k, rest)
    ensures var (w', outcome), asked := DoUpdate(w, k, h, true), Asked(k.namespace, h);
            if TargetsParse(h) && AliasesFree(rest, asked)
            then outcome == Done
                 && w' == World(rest + asked, w.hpas[k := Spec(k.namespace, h)], w.specs[k := h])
            else outcome == Refused && w' == w
  {
    rest := OthersLeft(w, initial, k);
    var asked := Asked(k.namespace, h);
    AddAllResult(rest, asked);
    AddAllNeverMissing(rest, asked);
    FreeIsFresh(rest, asked);
    ValidMeans(h);
  }

  /** A delete of a live autoscaler is done and leaves the rules of all others, in their order. */
  lemma DeleteDecides(w: World, initial: seq<Rule>, k: Key) returns (rest: seq<Rule>)
    requires Inv(w, initial) && k in w.specs
    ensures Others(w, k, rest)
    ensures DoDelete(w, k, true) == (World(rest, w.hpas - {k}, w.specs - {k}), Done)
  {
    rest := OthersLeft(w, initial, k);
  }

  // ---------------------------------------------------------------------------
  // One autoscaler for each workload
  // ---------------------------------------------------------------------------

  ghost predicate OneEach(w: World) {
    forall k <- w.hpas, l <- w.hpas | k != l && k.namespace == l.namespace ::
      !(w.hpas[k].kind == w.hpas[l].kind && w.hpas[k].target == w.hpas[l].target)
  }

  /** An update that is done and moves its autoscaler to the workload of another one. */
  ghost predicate TakesOver(w: World, c: Call) {
    && c.Update? && Apply(w, c).1 == Done
    && exists l <- w.hpas :: l != c.key && l.namespace == c.key.namespace
                             && w.hpas[l].kind == c.hpa.kind && w.hpas[l].target == c.hpa.target
  }

  /** Autoscalers of one namespace scale different workloads after a call if and only if it is not
      such an update. */
  lemma CallOneEach(w: World, c: Call)
    requires OneEach(w)
    ensures OneEach(Apply(w, c).0) <==> !TakesOver(w, c)
  {
    match c
    case Create(namespace, h, stored) =>
      CreateDecides(w, namespace, h);
      if Apply(w, c).1 == Done {
        assert forall l <- w.hpas :: !TakenBy(w, l, namespace, h);
      }
    case Update(k, h, stored) =>
      if TakesOver(w, c) {
        var l :| l in w.hpas && l != k && l.namespace == k.namespace
                 && w.hpas[l].kind == h.kind && w.hpas[l].target == h.target;
        var w' := Apply(w, c).0;
        assert k in w'.hpas && l in w'.hpas && w'.hpas[l] == w.hpas[l] && w'.hpas[k] == Spec(k.namespace, h);
      }
    case Delete(k, stored) =>
  }

  ghost predicate OneEachThroughout(initial: seq<Rule>, calls: seq<Call>) {
    OneEach(Run(initial, calls)) && (calls != [] ==> OneEachThroughout(initial, calls[..|calls| - 1]))
  }

  ghost predicate NoTakeover(initial: seq<Rule>, calls: seq<Call>) {
    calls != [] ==>
      var front := calls[..|calls| - 1];
      NoTakeover(initial, front) && !TakesOver(Run(initial, front), calls[|calls| - 1])
  }

  /** All along any sequence of calls two autoscalers of one namespace never scale the same workload,
      if and only if no update moves one to the workload of another. */
  lemma {:induction false} WorkloadsExact(initial: seq<Rule>, calls: seq<Call>)
    ensures OneEachThroughout(initial, calls) <==> NoTakeover(initial, calls)
  {
    if calls != [] {
      var front := calls[..|calls| - 1];
      WorkloadsExact(initial, front);
      if OneEachThroughout(initial, front) {
        CallOneEach(Run(initial, front), calls[|calls| - 1]);
      }
    }
  }

  /** No update so far named another workload than its autoscaler had. */
  ghost predicate KeepsWorkloads(initial: seq<Rule>, calls: seq<Call>) {
    calls != [] ==>
      var front, c := calls[..|calls| - 1], calls[|calls| - 1];
      var w := Run(initial, front);
      && KeepsWorkloads(initial, front)
      && (c.Update? && c.key in w.hpas ==> c.hpa.kind == w.hpas[c.key].kind && c.hpa.target == w.hpas[c.key].target)
  }

  /** In particular when updates keep the workload of their autoscaler. */
  lemma {:induction false} WorkloadsKept(initial: seq<Rule>, calls: seq<Call>)
    requires KeepsWorkloads(initial, calls)
    ensures OneEach(Run(initial, calls))
  {
    if calls != [] {
      var front, c := calls[..|calls| - 1], calls[|calls| - 1];
      WorkloadsKept(initial, front);
      CallOneEach(Run(initial, front), c);
    }
  }
}

/** Ingress rules: validated and sorted, grouped by host for Kubernetes, and flattened back. */
module IngressRules {
  import opened Common
  import opened Text
  import Sorting

  datatype Rule = Rule(host: string, path: string, service: string, port: int)
  datatype Backend = Backend(path: string, service: string, port: int)
  datatype HttpRule = HttpRule(host: string, paths: seq<Backend>)

  // ---------------------------------------------------------------------------
  // Order and validity
  // ---------------------------------------------------------------------------

  predicate RuleLess(a: Rule, b: Rule) {
    if a.host != b.host then Less(a.host, b.host)
    else if a.path != b.path then Less(a.path, b.path)
    else false
  }

  predicate SameKey(a: Rule, b: Rule) {
    a.host == b.host && a.path == b.path
  }

  /** Rules are ordered by host, and by path within a host. */
  lemma RuleLessMeans(a: Rule, b: Rule)
    ensures RuleLess(a, b) <==> Less(a.host, b.host) || (a.host == b.host && Less(a.path, b.path))
  {
    LessAsymmetric(a.host, a.host);
    LessAsymmetric(a.path, a.path);
  }

  lemma RuleLessFacts(a: Rule, b: Rule)
    ensures RuleLess(a, b) ==> !RuleLess(b, a)
    ensures !RuleLess(a, b) && !RuleLess(b, a) <==> SameKey(a, b)
  {
    LessAsymmetric(a.host, b.host);
    LessTotal(a.host, b.host);
    LessAsymmetric(a.path, b.path);
    LessTotal(a.path, b.path);
  }

  lemma RuleLessTransitive(a: Rule, b: Rule, c: Rule)
    requires RuleLess(a, b) && RuleLess(b, c)
    ensures RuleLess(a, c)
  {
    if a.host != b.host && b.host != c.host {
      LessTransitive(a.host, b.host, c.host);
      LessAsymmetric(a.host, b.host);
    } else if a.host == b.host && b.host == c.host {
      LessTransitive(a.path, b.path, c.path);
      LessAsymmetric(a.path, b.path);
    }
  }

  lemma RuleLessIsWeakOrder()
    ensures Sorting.WeakOrder(RuleLess)
  {
    forall x: Rule, y: Rule
      ensures RuleLess(x, y) ==> !RuleLess(y, x)
    {
      RuleLessFacts(x, y);
    }
    forall x: Rule, y: Rule, z: Rule | !RuleLess(y, x) && !RuleLess(z, y)
      ensures !RuleLess(z, x)
    {
      RuleLessFacts(x, y);
      RuleLessFacts(y, z);
      RuleLessFacts(x, z);
      if RuleLess(x, y) && RuleLess(y, z) {
        RuleLessTransitive(x, y, z);
      }
    }
  }

  ghost predicate NonEmpty(rules: seq<Rule>) {
    forall r <- rules :: r.host != "" && r.path != ""
  }

  /** No (host, path) pair is used twice. */
  ghost predicate DistinctKeys(rules: seq<Rule>) {
    forall i, j :: 0 <= i < j < |rules| ==> !SameKey(rules[i], rules[j])
  }

  ghost predicate Accepted(rules: seq<Rule>) {
    NonEmpty(rules) && DistinctKeys(rules)
  }

  ghost predicate SortOf(rules: seq<Rule>, sorted: seq<Rule>) {
    multiset(sorted) == multiset(rules) && Sorting.Sorted(sorted, RuleLess)
  }

  lemma AcceptedSorted(rules: seq<Rule>, sorted: seq<Rule>)
    requires SortOf(rules, sorted)
    ensures Accepted(sorted) <==> Accepted(rules)
    ensures DistinctKeys(sorted) ==> Sorting.StrictlySorted(sorted, RuleLess)
  {
    Sorting.Permutation(sorted, rules);
    if DistinctKeys(sorted) {
      KeysMove(rules, sorted);
    }
    if DistinctKeys(rules) {
      KeysMove(sorted, rules);
    }
    if DistinctKeys(sorted) {
      forall i, j | 0 <= i < j < |sorted|
        ensures RuleLess(sorted[i], sorted[j])
      {
        RuleLessFacts(sorted[i], sorted[j]);
      }
    }
  }

  /** Distinct keys survive reordering. */
  lemma KeysMove(r: seq<Rule>, s: seq<Rule>)
    requires multiset(r) == multiset(s) && DistinctKeys(s)
    ensures DistinctKeys(r)
  {
    assert NoDup(s);
    Sorting.Permutation(r, s);
    forall i, j | 0 <= i < j < |r|
      ensures !SameKey(r[i], r[j])
    {
      assert r[i] in s && r[j] in s && r[i] != r[j];
      DistinctPair(s, r[i], r[j]);
    }
  }

  lemma DistinctPair(s: seq<Rule>, x: Rule, y: Rule)
    requires DistinctKeys(s) && x in s && y in s && x != y
    ensures !SameKey(x, y)
  {
  }

  /** In a sorted list equal keys meet: if neighbours differ, all differ. */
  lemma NeighboursDecide(sorted: seq<Rule>)
    requires Sorting.Sorted(sorted, RuleLess)
    requires forall i {:trigger sorted[i + 1]} :: 0 <= i < |sorted| - 1 ==> !SameKey(sorted[i], sorted[i + 1])
    ensures DistinctKeys(sorted)
  {
    forall i, j | 0 <= i < j < |sorted|
      ensures !SameKey(sorted[i], sorted[j])
    {
      var n := sorted[i + 1];
      assert !RuleLess(n, sorted[i]);
      assert j == i + 1 || !RuleLess(sorted[j], n);
      RuleLessFacts(sorted[i], n);
      RuleLessFacts(n, sorted[j]);
    }
  }

  /** Sort, then look for equal neighbours, empty hosts and empty paths. Accepts exactly the
      lists without empty parts and without a repeated (host, path) anywhere. */
  method ValidateAndSortRules(rules: seq<Rule>) returns (sorted: seq<Rule>, ok: bool)
    ensures SortOf(rules, sorted)
    ensures ok <==> Accepted(rules)
  {
    RuleLessIsWeakOrder();
    sorted := Sorting.GoSort(rules, RuleLess);
    AcceptedSorted(rules, sorted);
    ok := CheckSorted(sorted);
  }

  method CheckSorted(sorted: seq<Rule>) returns (ok: bool)
    requires Sorting.Sorted(sorted, RuleLess)
    ensures ok <==> Accepted(sorted)
  {
    for i := 0 to |sorted|
      invariant forall k :: 0 <= k < i ==> sorted[k].host != "" && sorted[k].path != ""
      invariant forall k {:trigger sorted[k + 1]} ::
          0 <= k < i && k + 1 < |sorted| ==> !SameKey(sorted[k], sorted[k + 1])
    {
      assert sorted[i] in sorted;
      if i + 1 < |sorted| && SameKey(sorted[i], sorted[i + 1]) {
        return false;
      }
      if sorted[i].host == "" || sorted[i].path == "" {
        return false;
      }
    }
    NeighboursDecide(sorted);
    ok := true;
  }

  // ---------------------------------------------------------------------------
  // Grouping and flattening
  // ---------------------------------------------------------------------------

  function ToBackend(r: Rule): Backend {
    Backend(r.path, r.service, r.port)
  }

  /** One more rule: a path of the last host, or a new host. */
  function Grouped(groups: seq<HttpRule>, r: Rule): seq<HttpRule> {
    var n := |groups|;
    if n > 0 && groups[n - 1].host == r.host
    then groups[..n - 1] + [HttpRule(r.host, groups[n - 1].paths + [ToBackend(r)])]
    else groups + [HttpRule(r.host, [ToBackend(r)])]
  }

  function Group(rules: seq<Rule>): seq<HttpRule> {
    if rules == [] then [] else Grouped(Group(rules[..|rules| - 1]), rules[|rules| - 1])
  }

  function FlattenOne(g: HttpRule): seq<Rule> {
    seq(|g.paths|, i requires 0 <= i < |g.paths| =>
      Rule(g.host, g.paths[i].path, g.paths[i].service, g.paths[i].port))
  }

  function Flatten(groups: seq<HttpRule>): seq<Rule> {
    if groups == [] then [] else Flatten(groups[..|groups| - 1]) + FlattenOne(groups[|groups| - 1])
  }

  lemma FlattenGroup(rules: seq<Rule>)
    ensures Flatten(Group(rules)) == rules
  {
    FlattenGroups(rules, Group(rules));
  }

  lemma {:induction false} FlattenGroups(rules: seq<Rule>, groups: seq<HttpRule>)
    requires groups == Group(rules)
    ensures Flatten(groups) == rules
  {
    if rules != [] {
      var front, r := rules[..|rules| - 1], rules[|rules| - 1];
      var before := Group(front);
      FlattenGroups(front, before);
      FlattenStep(before, r, groups);
      assert rules == front + [r];
    }
  }

  lemma FlattenStep(groups: seq<HttpRule>, r: Rule, more: seq<HttpRule>)
    requires more == Grouped(groups, r)
    ensures Flatten(more) == Flatten(groups) + [r]
  {
  }

  ghost predicate NonEmptyGroups(groups: seq<HttpRule>) {
    forall i :: 0 <= i < |groups| ==> groups[i].paths != []
  }

  ghost predicate IncreasingHosts(groups: seq<HttpRule>) {
    forall i, j :: 0 <= i < j < |groups| ==> Less(groups[i].host, groups[j].host)
  }

  ghost predicate Shaped(groups: seq<HttpRule>) {
    NonEmptyGroups(groups) && IncreasingHosts(groups)
  }

  lemma GroupedShape(groups: seq<HttpRule>, r: Rule)
    requires Shaped(groups)
    requires groups != [] ==> var last := groups[|groups| - 1].host; last == r.host || Less(last, r.host)
    ensures Shaped(Grouped(groups, r))
    ensures Grouped(groups, r) != [] && Grouped(groups, r)[|Grouped(groups, r)| - 1].host == r.host
  {
    var n := |groups|;
    if n > 0 && groups[n - 1].host != r.host {
      forall i | 0 <= i < n
        ensures Less(groups[i].host, r.host)
      {
        if i < n - 1 {
          LessTransitive(groups[i].host, groups[n - 1].host, r.host);
        }
      }
    }
  }

  /** The last group belongs to the last rule, and sorted rules give increasing hosts. */
  lemma {:induction false} GroupShape(rules: seq<Rule>)
    requires Sorting.Sorted(rules, RuleLess)
    ensures Shaped(Group(rules))
    ensures Group(rules) == [] <==> rules == []
    ensures rules != [] ==> Group(rules)[|Group(rules)| - 1].host == rules[|rules| - 1].host
  {
    if rules != [] {
      var front, r := rules[..|rules| - 1], rules[|rules| - 1];
      GroupShape(front);
      if front != [] {
        var p := front[|front| - 1];
        assert p == rules[|rules| - 2] && !RuleLess(r, p);
        LessTotal(p.host, r.host);
      }
      GroupedShape(Group(front), r);
    }
  }

  // ---------------------------------------------------------------------------
  // The translation
  // ---------------------------------------------------------------------------

  /** What an accepted list of rules is translated to. */
  ghost predicate Translation(rules: seq<Rule>, groups: seq<HttpRule>) {
    exists sorted :: SortOf(rules, sorted) && groups == Group(sorted)
  }

  method ScIngressToK8sIngress(rules: seq<Rule>) returns (r: Option<seq<HttpRule>>)
    ensures r.Some? <==> Accepted(rules)
    ensures r.Some? ==> Translation(rules, r.value)
  {
    var sorted, ok := ValidateAndSortRules(rules);
    if !ok {
      return None;
    }
    var groups: seq<HttpRule> := [];
    var last := -1;
    for i := 0 to |sorted|
      invariant groups == Group(sorted[..i]) && last == |groups| - 1
    {
      assert sorted[..i + 1][..i] == sorted[..i];
      var rule := sorted[i];
      if last != -1 && rule.host == groups[last].host {
        groups := groups[..last] + [HttpRule(rule.host, groups[last].paths + [ToBackend(rule)])];
      } else {
        last := last + 1;
        groups := groups + [HttpRule(rule.host, [ToBackend(rule)])];
      }
    }
    assert sorted[..|sorted|] == sorted;
    return Some(groups);
  }

  /** An ingress rule as read from Kubernetes, where the HTTP section may be missing. */
  datatype K8sRule = K8sRule(host: string, http: Option<seq<Backend>>)

  ghost predicate AllHttp(rules: seq<K8sRule>) {
    forall i :: 0 <= i < |rules| ==> rules[i].http.Some?
  }

  ghost function Groups(rules: seq<K8sRule>): seq<HttpRule>
    requires AllHttp(rules)
  {
    seq(|rules|, i requires 0 <= i < |rules| => HttpRule(rules[i].host, rules[i].http.value))
  }

  /** A rule without its HTTP section makes the reading panic. */
  method K8sIngressToScIngress(k8sRules: seq<K8sRule>) returns (rules: seq<Rule>, panicked: bool)
    ensures panicked <==> !AllHttp(k8sRules)
    ensures !panicked ==> rules == Flatten(Groups(k8sRules))
  {
    rules := [];
    for i := 0 to |k8sRules|
      invariant AllHttp(k8sRules[..i]) && rules == Flatten(Groups(k8sRules[..i]))
    {
      if k8sRules[i].http.None? {
        return [], true;
      }
      ghost var before := rules;
      var host, paths := k8sRules[i].host, k8sRules[i].http.value;
      ghost var g := HttpRule(host, paths);
      for j := 0 to |paths|
        invariant rules == before + FlattenOne(g)[..j]
      {
        rules := rules + [Rule(host, paths[j].path, paths[j].service, paths[j].port)];
      }
      assert FlattenOne(g)[..|paths|] == FlattenOne(g);
      assert Groups(k8sRules[..i + 1])[..i] == Groups(k8sRules[..i]);
    }
    assert k8sRules[..|k8sRules|] == k8sRules;
    panicked := false;
  }

  /** Hosts increase strictly, every host has a path, and flattening gives back a permutation
      of the rules that is sorted with no two equal keys. */
  lemma TranslationShape(rules: seq<Rule>, groups: seq<HttpRule>)
    requires Accepted(rules) && Translation(rules, groups)
    ensures IncreasingHosts(groups) && NonEmptyGroups(groups)
    ensures multiset(Flatten(groups)) == multiset(rules)
    ensures Sorting.StrictlySorted(Flatten(groups), RuleLess)
  {
    var sorted :| SortOf(rules, sorted) && groups == Group(sorted);
    GroupShape(sorted);
    FlattenGroup(sorted);
    AcceptedSorted(rules, sorted);
  }

  /** The order in which rules are given does not matter: any two permutations of accepted
      rules have one and the same translation. */
  lemma TranslationIsCanonical(rules: seq<Rule>, others: seq<Rule>, groups: seq<HttpRule>, groups': seq<HttpRule>)
    requires multiset(rules) == multiset(others) && Accepted(rules)
    requires Translation(rules, groups) && Translation(others, groups')
    ensures Accepted(others) && groups == groups'
  {
    var a :| SortOf(rules, a) && groups == Group(a);
    var b :| SortOf(others, b) && groups' == Group(b);
    AcceptedSorted(rules, a);
    AcceptedSorted(rules, b);
    AcceptedSorted(others, b);
    Sorting.Permutation(a, b);
    forall x, y | x in a && y in a && RuleLess(x, y)
      ensures !RuleLess(y, x)
    {
      RuleLessFacts(x, y);
    }
    Sorting.StrictlySortedUnique(a, b, RuleLess);
  }

  /** What is accepted, place by place. */
  lemma AcceptedMeans(rules: seq<Rule>)
    ensures Accepted(rules) <==>
            && (forall i :: 0 <= i < |rules| ==> rules[i].host != "" && rules[i].path != "")
            && (forall i, j :: 0 <= i < j < |rules| ==>
                                 rules[i].host != rules[j].host || rules[i].path != rules[j].path)
  {
    assert forall i :: 0 <= i < |rules| ==> rules[i] in rules;
  }

  ghost predicate HasPath(groups: seq<HttpRule>, r: Rule) {
    exists g, i :: 0 <= g < |groups| && 0 <= i < |groups[g].paths| && PathAt(groups, g, i, r)
  }

  ghost predicate PathAt(groups: seq<HttpRule>, g: int, i: int, r: Rule)
    requires 0 <= g < |groups| && 0 <= i < |groups[g].paths|
  {
    groups[g].host == r.host && groups[g].paths[i] == Backend(r.path, r.service, r.port)
  }

  lemma {:induction false} FlattenMembers(groups: seq<HttpRule>, r: Rule)
    ensures r in Flatten(groups) <==> HasPath(groups, r)
  {
    if groups != [] {
      var front, last := groups[..|groups| - 1], groups[|groups| - 1];
      FlattenMembers(front, r);
      HasPathAppend(front, last, r);
      assert groups == front + [last];
    }
  }

  lemma HasPathAppend(front: seq<HttpRule>, last: HttpRule, r: Rule)
    ensures HasPath(front + [last], r) <==> HasPath(front, r) || r in FlattenOne(last)
  {
    var groups, n := front + [last], |front|;
    if HasPath(front, r) {
      var g, i :| 0 <= g < n && 0 <= i < |front[g].paths| && PathAt(front, g, i, r);
      assert PathAt(groups, g, i, r);
    }
    if r in FlattenOne(last) {
      var i :| 0 <= i < |last.paths| && FlattenOne(last)[i] == r;
      assert PathAt(groups, n, i, r);
    }
    if g, i :| 0 <= g < |groups| && 0 <= i < |groups[g].paths| && PathAt(groups, g, i, r) {
      if g < n {
        assert PathAt(front, g, i, r);
      } else {
        assert FlattenOne(last)[i] == r;
      }
    }
  }

  /** The translation has exactly the paths and backends of the rules under their hosts; hosts, and
      the paths of each host, are listed in ascending order. */
  lemma TranslationMeans(rules: seq<Rule>, groups: seq<HttpRule>, r: Rule)
    requires Accepted(rules) && Translation(rules, groups)
    ensures r in rules <==> HasPath(groups, r)
    ensures forall g, h :: 0 <= g < h < |groups| ==> Less(groups[g].host, groups[h].host)
    ensures forall g, i, j :: 0 <= g < |groups| && 0 <= i < j < |groups[g].paths| ==>
                                Less(groups[g].paths[i].path, groups[g].paths[j].path)
  {
    TranslationShape(rules, groups);
    Sorting.Permutation(Flatten(groups), rules);
    FlattenMembers(groups, r);
    forall g, i, j | 0 <= g < |groups| && 0 <= i < j < |groups[g].paths|
      ensures Less(groups[g].paths[i].path, groups[g].paths[j].path)
    {
      PathsAscend(groups, g, i, j);
    }
  }

  lemma {:induction false} PathsAscend(groups: seq<HttpRule>, g: nat, i: nat, j: nat)
    requires Sorting.StrictlySorted(Flatten(groups), RuleLess)
    requires g < |groups| && i < j < |groups[g].paths|
    ensures Less(groups[g].paths[i].path, groups[g].paths[j].path)
  {
    var front, last := groups[..|groups| - 1], groups[|groups| - 1];
    var all, n := Flatten(groups), |Flatten(front)|;
    if g < |front| {
      assert forall k :: 0 <= k < n ==> all[k] == Flatten(front)[k];
      PathsAscend(front, g, i, j);
    } else {
      var a, b := FlattenOne(last)[i], FlattenOne(last)[j];
      assert all[n + i] == a && all[n + j] == b && RuleLess(all[n + i], all[n + j]);
      RuleLessMeans(a, b);
      LessAsymmetric(a.host, a.host);
    }
  }

  /** What was read back can be sent again: it is accepted and translates to the same groups. */
  lemma RoundTrip(rules: seq<Rule>, groups: seq<HttpRule>)
    requires Accepted(rules) && Translation(rules, groups)
    ensures Accepted(Flatten(groups)) && Translation(Flatten(groups), groups)
  {
    var sorted :| SortOf(rules, sorted) && groups == Group(sorted);
    FlattenGroup(sorted);
    AcceptedSorted(rules, sorted);
    assert SortOf(sorted, sorted);
  }

  // ---------------------------------------------------------------------------
  // The body size annotation
  // ---------------------------------------------------------------------------

  /** Written only for a positive size with a unit. */
  function BodySizeText(size: int, unit: string): Option<string> {
    if size > 0 && unit != "" then Some(Itoa(size) + unit) else None
  }

  /** The last character is the unit, the rest the number; 0 when it does not parse. */
  function ReadBodySize(text: Option<string>): (int, string) {
    match text
    case None => (0, "")
    case Some(t) =>
      if |t| <= 1 then (0, "")
      else
        var size := match Atoi(t[..|t| - 1]) case Some(n) => n case None => 0;
        (size, t[|t| - 1..])
  }

  /** The annotation gives size and unit back exactly when nothing was set, or the size is
      a positive 64-bit number and the unit a single character. */
  lemma BodySizeRoundTrip(size: int, unit: string)
    ensures ReadBodySize(BodySizeText(size, unit)) == (size, unit) <==>
            (size == 0 && unit == "") || (size > 0 && IsInt64(size) && |unit| == 1)
  {
    if size > 0 && unit != "" {
      var t := Itoa(size) + unit;
      if |unit| == 1 {
        assert t[..|t| - 1] == Itoa(size) && t[|t| - 1..] == unit;
        AtoiItoa(size);
      } else {
        assert |t[|t| - 1..]| == 1;
      }
    }
  }
}

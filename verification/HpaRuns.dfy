/** The adapter's rule list over any sequence of autoscaler calls. */
module HpaRuns {
  import opened Common
  import opened HpaRules

  /** The shared rules, the stored autoscalers, and the requests they were stored for. */
  datatype World = World(rules: seq<Rule>, hpas: map<Key, K8sHpa>, specs: map<Key, Hpa>)

  /** An update names the autoscaler by its id, which need not be the name in its body. `stored`
      says whether everything after the write of the rules succeeds. */
  datatype Call =
    | Create(namespace: string, hpa: Hpa, stored: bool)
    | Update(key: Key, hpa: Hpa, stored: bool)
    | Delete(key: Key, stored: bool)

  datatype Outcome = Done | Refused | RuleMissing | NotStored

  /** The rules a request asks for, under the name in its body. */
  function Asked(namespace: string, h: Hpa): seq<Rule> {
    RulesOf(Key(namespace, h.name), h.customs)
  }

  function Spec(namespace: string, h: Hpa): K8sHpa {
    ToK8s(Key(namespace, h.name), h)
  }

  /** Another autoscaler of the namespace has the name or scales the same workload. */
  predicate Clashes(w: World, namespace: string, h: Hpa) {
    exists k <- w.hpas ::
      k.namespace == namespace && (k.name == h.name || (w.hpas[k].kind == h.kind && w.hpas[k].target == h.target))
  }

  /** Edit the rules, then store the autoscaler. */
  function EditThenStore(w: World, oldAliases: seq<string>, newRules: seq<Rule>, after: World, stored: bool)
    : (World, Outcome)
  {
    match EditRules(w.rules, oldAliases, newRules)
    case NotFound(_) => (w, RuleMissing)
    case Duplicate(_) => (w, Refused)
    case Edited(rules) => if stored then (after.(rules := rules), Done) else (w.(rules := rules), NotStored)
  }

  function With(w: World, k: Key, h: Hpa): World {
    w.(hpas := w.hpas[k := Spec(k.namespace, h)], specs := w.specs[k := h])
  }

  function Without(w: World, k: Key): World {
    w.(hpas := w.hpas - {k}, specs := w.specs - {k})
  }

  function DoCreate(w: World, namespace: string, h: Hpa, stored: bool): (World, Outcome) {
    if Clashes(w, namespace, h) || !Valid(h) then (w, Refused)
    else EditThenStore(w, [], Asked(namespace, h), With(w, Key(namespace, h.name), h), stored)
  }

  function DoUpdate(w: World, k: Key, h: Hpa, stored: bool): (World, Outcome) {
    if k !in w.hpas || !Valid(h) then (w, Refused)
    else EditThenStore(w, OldAliases(w.hpas[k].metrics), Asked(k.namespace, h), With(w, k, h), stored)
  }

  function DoDelete(w: World, k: Key, stored: bool): (World, Outcome) {
    if k !in w.hpas then (w, Refused)
    else EditThenStore(w, OldAliases(w.hpas[k].metrics), [], Without(w, k), stored)
  }

  function Apply(w: World, c: Call): (World, Outcome) {
    match c
    case Create(namespace, h, stored) => DoCreate(w, namespace, h, stored)
    case Update(k, h, stored) => DoUpdate(w, k, h, stored)
    case Delete(k, stored) => DoDelete(w, k, stored)
  }

  // ---------------------------------------------------------------------------
  // The invariant
  // ---------------------------------------------------------------------------

  ghost function Own(w: World, k: Key): seq<Rule>
    requires k in w.specs
  {
    Asked(k.namespace, w.specs[k])
  }

  ghost predicate Owned(w: World, r: Rule) {
    exists k <- w.specs :: r in Own(w, k)
  }

  ghost predicate Apart(a: seq<Rule>, b: seq<Rule>) {
    forall r <- a, s <- b :: r.alias != s.alias
  }

  /** No alias belongs to two autoscalers, or to one and to the initial rules. */
  ghost predicate Separate(w: World, initial: seq<Rule>) {
    && (forall k <- w.specs :: DistinctAliases(Own(w, k)) && Apart(Own(w, k), initial))
    && (forall k <- w.specs, l <- w.specs | k != l :: Apart(Own(w, k), Own(w, l)))
  }

  /** Each autoscaler is stored as its request asked. */
  ghost predicate Stored(w: World) {
    w.hpas.Keys == w.specs.Keys && forall k <- w.specs :: w.hpas[k] == Spec(k.namespace, w.specs[k])
  }

  ghost predicate Inv(w: World, initial: seq<Rule>) {
    && DistinctAliases(w.rules)
    && Stored(w)
    && (forall r :: r in w.rules <==> r in initial || Owned(w, r))
    && Separate(w, initial)
  }

  /** A listed rule carries an alias of listed rules exactly when it is one of them. */
  lemma OwnAlias(rules: seq<Rule>, own: seq<Rule>, r: Rule)
    requires DistinctAliases(rules) && (forall x <- own :: x in rules) && r in rules
    ensures r.alias in Aliases(own) <==> r in own
  {
    if r.alias in Aliases(own) {
      var i :| 0 <= i < |own| && own[i].alias == r.alias;
      assert own[i] in own;
      SameAlias(rules, r, own[i]);
    }
    if r in own {
      assert Aliases(own)[IndexIn(own, r)] == r.alias;
    }
  }

  lemma OwnedElsewhere(w: World, initial: seq<Rule>, k: Key, w': World, r: Rule)
    requires Separate(w, initial) && k in w.specs && w'.specs == w.specs - {k} && (r in initial || Owned(w, r))
    ensures r !in Own(w, k) <==> r in initial || Owned(w', r)
  {
    var own := Own(w, k);
    assert forall l <- w'.specs :: l in w.specs && Own(w', l) == Own(w, l);
    if r in own {
      assert Apart(own, initial);
      forall l <- w'.specs
        ensures r !in Own(w', l)
      {
        assert Apart(own, Own(w, l));
      }
    } else if r !in initial {
      var l :| l in w.specs && r in Own(w, l);
      assert l in w'.specs;
    }
  }

  ghost function IndexIn(rules: seq<Rule>, r: Rule): (i: nat)
    requires r in rules
    ensures i < |rules| && rules[i] == r
  {
    var i :| 0 <= i < |rules| && rules[i] == r;
    i
  }

  lemma SameAlias(rules: seq<Rule>, a: Rule, b: Rule)
    requires DistinctAliases(rules) && a in rules && b in rules && a.alias == b.alias
    ensures a == b
  {
  }

  lemma OwnRules(w: World, initial: seq<Rule>, k: Key)
    requires Inv(w, initial) && k in w.specs
    ensures (forall r <- Own(w, k) :: r in w.rules) && DistinctAliases(Own(w, k))
  {
    forall r <- Own(w, k)
      ensures r in w.rules
    {
      assert Owned(w, r);
    }
  }

  lemma AliasesListed(own: seq<Rule>, rules: seq<Rule>)
    requires (forall r <- own :: r in rules) && DistinctAliases(own)
    ensures NoDup(Aliases(own)) && forall a <- Aliases(own) :: HasAlias(rules, a)
  {
    forall a <- Aliases(own)
      ensures HasAlias(rules, a)
    {
      var i :| 0 <= i < |own| && Aliases(own)[i] == a;
      assert own[i] in own;
    }
  }

  /** What a live autoscaler owns is listed, under the aliases read off its stored form. */
  lemma OwnListed(w: World, initial: seq<Rule>, k: Key)
    requires Inv(w, initial) && k in w.specs
    ensures OldAliases(w.hpas[k].metrics) == Aliases(Own(w, k)) && NoDup(Aliases(Own(w, k)))
    ensures forall r <- Own(w, k) :: r in w.rules
    ensures forall a <- Aliases(Own(w, k)) :: HasAlias(w.rules, a)
  {
    StoredAliases(Key(k.namespace, w.specs[k].name), w.specs[k]);
    OwnRules(w, initial, k);
    AliasesListed(Own(w, k), w.rules);
  }

  /** Its rules can always be dropped, and dropping them leaves exactly the others. */
  lemma Dropped(w: World, initial: seq<Rule>, k: Key)
    requires Inv(w, initial) && k in w.specs
    ensures DropAll(w.rules, OldAliases(w.hpas[k].metrics)).Edited?
    ensures var rest := DropAll(w.rules, OldAliases(w.hpas[k].metrics)).rules;
            DistinctAliases(rest) && forall r :: r in rest <==> r in w.rules && r !in Own(w, k)
  {
    var own := Own(w, k);
    OwnListed(w, initial, k);
    DropAllMembers(w.rules, Aliases(own));
    forall r <- w.rules
      ensures r.alias in Aliases(own) <==> r in own
    {
      OwnAlias(w.rules, own, r);
    }
  }

  /** The stored aliases of a live autoscaler are always found, and dropping them leaves the
      initial rules and those of the others. */
  lemma DropOwn(w: World, initial: seq<Rule>, k: Key)
    requires Inv(w, initial) && k in w.specs
    ensures DropAll(w.rules, OldAliases(w.hpas[k].metrics)).Edited?
    ensures Inv(Without(w, k).(rules := DropAll(w.rules, OldAliases(w.hpas[k].metrics)).rules), initial)
  {
    Dropped(w, initial, k);
    var rules := DropAll(w.rules, OldAliases(w.hpas[k].metrics)).rules;
    var w' := Without(w, k).(rules := rules);
    assert forall l <- w'.specs :: l in w.specs && Own(w', l) == Own(w, l);
    forall r
      ensures r in rules <==> r in initial || Owned(w', r)
    {
      if r in w.rules {
        OwnedElsewhere(w, initial, k, w', r);
      }
    }
    SeparateWithout(w, initial, k, w');
  }

  lemma SeparateWithout(w: World, initial: seq<Rule>, k: Key, w': World)
    requires Separate(w, initial) && w'.specs == w.specs - {k}
    ensures Separate(w', initial)
  {
  }

  /** Storing an autoscaler whose aliases are unused keeps the invariant. */
  lemma AddOwn(w: World, initial: seq<Rule>, k: Key, h: Hpa)
    requires Inv(w, initial) && k !in w.specs && FreshFor(w.rules, Asked(k.namespace, h))
    ensures Inv(With(w, k, h).(rules := w.rules + Asked(k.namespace, h)), initial)
  {
    var own := Asked(k.namespace, h);
    var w' := With(w, k, h).(rules := w.rules + own);
    AppendDistinct(w.rules, own);
    StoredWith(w, k, h, w');
    forall r
      ensures r in w'.rules <==> r in initial || Owned(w', r)
    {
      OwnedWith(w, k, own, w', r);
    }
    FreshApart(w, initial, own);
    SeparateWith(w, initial, k, own, w');
  }

  lemma StoredWith(w: World, k: Key, h: Hpa, w': World)
    requires Stored(w) && k !in w.specs && w' == With(w, k, h).(rules := w'.rules)
    ensures Stored(w') && w'.specs.Keys == w.specs.Keys + {k} && Own(w', k) == Asked(k.namespace, h)
    ensures forall l <- w.specs :: l in w'.specs && Own(w', l) == Own(w, l)
  {
  }

  lemma OwnedWith(w: World, k: Key, own: seq<Rule>, w': World, r: Rule)
    requires k !in w.specs && w'.specs.Keys == w.specs.Keys + {k} && Own(w', k) == own
    requires forall l <- w.specs :: Own(w', l) == Own(w, l)
    ensures Owned(w', r) <==> Owned(w, r) || r in own
  {
    if Owned(w, r) {
      var l :| l in w.specs && r in Own(w, l);
      assert r in Own(w', l);
    }
    if Owned(w', r) {
      var l :| l in w'.specs && r in Own(w', l);
      assert l != k ==> r in Own(w, l);
    }
  }

  /** Rules with unused aliases are apart from the initial ones and from every autoscaler's. */
  lemma FreshApart(w: World, initial: seq<Rule>, own: seq<Rule>)
    requires Inv(w, initial) && FreshFor(w.rules, own)
    ensures Apart(own, initial) && forall l <- w.specs :: Apart(own, Own(w, l)) && Apart(Own(w, l), own)
  {
  }

  lemma SeparateWith(w: World, initial: seq<Rule>, k: Key, own: seq<Rule>, w': World)
    requires Separate(w, initial) && k !in w.specs && DistinctAliases(own) && Apart(own, initial)
    requires forall l <- w.specs :: Apart(own, Own(w, l)) && Apart(Own(w, l), own)
    requires w'.specs.Keys == w.specs.Keys + {k} && Own(w', k) == own
    requires forall l <- w.specs :: Own(w', l) == Own(w, l)
    ensures Separate(w', initial)
  {
  }

  lemma CreateKeeps(w: World, initial: seq<Rule>, namespace: string, h: Hpa)
    requires Inv(w, initial)
    ensures Inv(DoCreate(w, namespace, h, true).0, initial)
    ensures DoCreate(w, namespace, h, true).1 in {Done, Refused}
  {
    var k, own := Key(namespace, h.name), Asked(namespace, h);
    if !Clashes(w, namespace, h) && Valid(h) {
      AddAllResult(w.rules, own);
      AddAllNeverMissing(w.rules, own);
      assert k !in w.hpas.Keys;
      if FreshFor(w.rules, own) {
        AddOwn(w, initial, k, h);
      }
    }
  }

  lemma {:induction false} AddAllNeverMissing(rules: seq<Rule>, added: seq<Rule>)
    ensures !AddAll(rules, added).NotFound?
  {
    if added != [] {
      AddAllNeverMissing(rules, added[..|added| - 1]);
    }
  }

  lemma UpdateKeeps(w: World, initial: seq<Rule>, k: Key, h: Hpa)
    requires Inv(w, initial)
    ensures Inv(DoUpdate(w, k, h, true).0, initial)
    ensures DoUpdate(w, k, h, true).1 in {Done, Refused}
  {
    if k in w.hpas && Valid(h) {
      assert k in w.specs.Keys;
      DropOwn(w, initial, k);
      var rest := DropAll(w.rules, OldAliases(w.hpas[k].metrics)).rules;
      var own := Asked(k.namespace, h);
      AddAllResult(rest, own);
      AddAllNeverMissing(rest, own);
      if FreshFor(rest, own) {
        ReplaceOwn(w, initial, k, rest, h);
      }
    }
  }

  lemma ReplaceOwn(w: World, initial: seq<Rule>, k: Key, rest: seq<Rule>, h: Hpa)
    requires Inv(Without(w, k).(rules := rest), initial) && FreshFor(rest, Asked(k.namespace, h))
    ensures Inv(With(w, k, h).(rules := rest + Asked(k.namespace, h)), initial)
  {
    AddOwn(Without(w, k).(rules := rest), initial, k, h);
    StoredAgain(w, k, h, rest, rest + Asked(k.namespace, h));
  }

  lemma StoredAgain(w: World, k: Key, h: Hpa, rest: seq<Rule>, rules: seq<Rule>)
    ensures With(Without(w, k).(rules := rest), k, h).(rules := rules) == With(w, k, h).(rules := rules)
  {
    assert (w.hpas - {k})[k := Spec(k.namespace, h)] == w.hpas[k := Spec(k.namespace, h)];
    assert (w.specs - {k})[k := h] == w.specs[k := h];
  }

  lemma DeleteKeeps(w: World, initial: seq<Rule>, k: Key)
    requires Inv(w, initial)
    ensures Inv(DoDelete(w, k, true).0, initial)
    ensures DoDelete(w, k, true).1 == if k in w.hpas then Done else Refused
  {
    if k in w.hpas {
      assert k in w.specs.Keys;
      DropOwn(w, initial, k);
    }
  }

  // ---------------------------------------------------------------------------
  // Calls whose last write fails
  // ---------------------------------------------------------------------------

  /** The call asks for exactly the rules its autoscaler owned before. */
  ghost predicate SameRules(w: World, c: Call) {
    match c
    case Create(_, h, _) => h.customs == []
    case Update(k, h, _) => k in w.specs && forall r :: r in Asked(k.namespace, h) <==> r in Own(w, k)
    case Delete(k, _) => k in w.specs && w.specs[k].customs == []
  }

  /** With nothing else stored, only the members of the rule list matter. */
  lemma OnlyRules(w: World, initial: seq<Rule>, rules: seq<Rule>)
    requires Inv(w, initial) && DistinctAliases(rules)
    ensures Inv(w.(rules := rules), initial) <==> forall r :: r in rules <==> r in w.rules
  {
    var w' := w.(rules := rules);
    assert forall k <- w.specs :: Own(w', k) == Own(w, k);
    assert forall r :: Owned(w', r) <==> Owned(w, r);
    if Inv(w', initial) {
      forall r
        ensures r in rules <==> r in w.rules
      {
      }
    }
  }

  /** Replacing some listed rules without storing anything else keeps the invariant exactly
      when the same rules come back. */
  lemma UnstoredExact(w: World, initial: seq<Rule>, own: seq<Rule>, rest: seq<Rule>, asked: seq<Rule>)
    requires Inv(w, initial) && (forall r <- own :: r in w.rules) && FreshFor(rest, asked)
    requires DistinctAliases(rest) && forall r :: r in rest <==> r in w.rules && r !in own
    ensures Inv(w.(rules := rest + asked), initial) <==> forall r :: r in asked <==> r in own
  {
    AppendDistinct(rest, asked);
    OnlyRules(w, initial, rest + asked);
    assert forall r <- asked :: r !in rest;
    if forall r :: r in rest + asked <==> r in w.rules {
      forall r
        ensures r in asked <==> r in own
      {
        assert r in rest + asked <==> r in w.rules;
      }
    }
  }

  lemma CreateExact(w: World, initial: seq<Rule>, namespace: string, h: Hpa)
    requires Inv(w, initial)
    ensures var (w', outcome) := DoCreate(w, namespace, h, false);
            outcome in {Refused, NotStored} && (Inv(w', initial) <==> (outcome == NotStored ==> h.customs == []))
  {
    var asked := Asked(namespace, h);
    CreateKeeps(w, initial, namespace, h);
    AddAllResult(w.rules, asked);
    if FreshFor(w.rules, asked) {
      UnstoredExact(w, initial, [], w.rules, asked);
      assert h.customs != [] ==> asked[0] in asked;
    }
  }

  lemma UpdateExact(w: World, initial: seq<Rule>, k: Key, h: Hpa)
    requires Inv(w, initial)
    ensures var (w', outcome) := DoUpdate(w, k, h, false);
            && outcome in {Refused, NotStored}
            && (Inv(w', initial) <==> (outcome == NotStored ==> SameRules(w, Update(k, h, false))))
  {
    UpdateKeeps(w, initial, k, h);
    if DoUpdate(w, k, h, false).1 == NotStored {
      UnstoredEdit(w, initial, k, Asked(k.namespace, h));
    }
  }

  lemma DeleteExact(w: World, initial: seq<Rule>, k: Key)
    requires Inv(w, initial)
    ensures var (w', outcome) := DoDelete(w, k, false);
            && outcome in {Refused, NotStored}
            && (Inv(w', initial) <==> (outcome == NotStored ==> SameRules(w, Delete(k, false))))
  {
    DeleteKeeps(w, initial, k);
    if DoDelete(w, k, false).1 == NotStored {
      UnstoredEdit(w, initial, k, []);
      assert w.specs[k].customs != [] ==> Own(w, k)[0] in Own(w, k);
    }
  }

  /** Whether or not a call's last write succeeds, the rules stay the initial ones plus those of
      the live autoscalers if and only if a call that is not stored asked for the rules its
      autoscaler had. */
  lemma CallExact(w: World, initial: seq<Rule>, c: Call)
    requires Inv(w, initial)
    ensures Inv(Apply(w, c).0, initial) <==> (Apply(w, c).1 == NotStored ==> SameRules(w, c))
    ensures Apply(w, c).1 != RuleMissing
  {
    match c
    case Create(namespace, h, stored) =>
      CreateKeeps(w, initial, namespace, h);
      CreateExact(w, initial, namespace, h);
    case Update(k, h, stored) =>
      UpdateKeeps(w, initial, k, h);
      UpdateExact(w, initial, k, h);
    case Delete(k, stored) =>
      DeleteKeeps(w, initial, k);
      DeleteExact(w, initial, k);
  }

  lemma UnstoredEdit(w: World, initial: seq<Rule>, k: Key, asked: seq<Rule>)
    requires Inv(w, initial) && k in w.hpas && EditRules(w.rules, OldAliases(w.hpas[k].metrics), asked).Edited?
    ensures k in w.specs
    ensures var rules := EditRules(w.rules, OldAliases(w.hpas[k].metrics), asked).rules;
            Inv(w.(rules := rules), initial) <==> forall r :: r in asked <==> r in Own(w, k)
  {
    assert k in w.specs.Keys;
    Dropped(w, initial, k);
    OwnListed(w, initial, k);
    var rest := DropAll(w.rules, OldAliases(w.hpas[k].metrics)).rules;
    AddAllResult(rest, asked);
    UnstoredExact(w, initial, Own(w, k), rest, asked);
  }

  function Later(w: World, calls: seq<Call>): World {
    if calls == [] then w else Apply(Later(w, calls[..|calls| - 1]), calls[|calls| - 1]).0
  }

  function Run(initial: seq<Rule>, calls: seq<Call>): World {
    Later(World(initial, map[], map[]), calls)
  }

  /** Every call so far that was not stored asked for the rules its autoscaler had. */
  ghost predicate Harmless(initial: seq<Rule>, calls: seq<Call>) {
    calls != [] ==>
      var front, c := calls[..|calls| - 1], calls[|calls| - 1];
      && Harmless(initial, front)
      && (Apply(Run(initial, front), c).1 == NotStored ==> SameRules(Run(initial, front), c))
  }

  ghost predicate KeptThroughout(initial: seq<Rule>, calls: seq<Call>) {
    Inv(Run(initial, calls), initial) && (calls != [] ==> KeptThroughout(initial, calls[..|calls| - 1]))
  }

  /** The invariant holds all along a sequence of calls if and only if it is harmless. */
  lemma {:induction false} RunExact(initial: seq<Rule>, calls: seq<Call>)
    requires DistinctAliases(initial)
    ensures KeptThroughout(initial, calls) <==> Harmless(initial, calls)
  {
    if calls != [] {
      var front := calls[..|calls| - 1];
      RunExact(initial, front);
      if KeptThroughout(initial, front) {
        CallExact(Run(initial, front), initial, calls[|calls| - 1]);
      }
    }
  }

  lemma {:induction false} StoredIsHarmless(initial: seq<Rule>, calls: seq<Call>)
    requires forall c <- calls :: c.stored
    ensures Harmless(initial, calls)
  {
    if calls != [] {
      assert calls[|calls| - 1].stored;
      StoredIsHarmless(initial, calls[..|calls| - 1]);
    }
  }

  /** In particular the invariant holds all along calls that are all stored. */
  lemma StoredCallsKeep(initial: seq<Rule>, calls: seq<Call>)
    requires DistinctAliases(initial) && forall c <- calls :: c.stored
    ensures KeptThroughout(initial, calls)
  {
    StoredIsHarmless(initial, calls);
    RunExact(initial, calls);
  }

  // ---------------------------------------------------------------------------
  // Main results
  // ---------------------------------------------------------------------------

  /** Over any sequence of calls whose writes succeed, or fail harmlessly, aliases stay distinct
      and the rules are the initial ones plus exactly those of the live autoscalers. */
  lemma RulesAreInitialPlusLive(initial: seq<Rule>, calls: seq<Call>)
    requires DistinctAliases(initial) && Harmless(initial, calls)
    ensures var w := Run(initial, calls);
            && DistinctAliases(w.rules)
            && (forall r :: r in w.rules <==>
                              r in initial || exists k <- w.specs :: r in Asked(k.namespace, w.specs[k]))
            && (forall k :: k in w.hpas <==> k in w.specs)
  {
    RunExact(initial, calls);
    var w := Run(initial, calls);
    assert forall k :: k in w.hpas <==> k in w.hpas.Keys;
    forall r
      ensures r in w.rules <==> r in initial || exists k <- w.specs :: r in Asked(k.namespace, w.specs[k])
    {
      if Owned(w, r) {
        var k :| k in w.specs && r in Own(w, k);
        assert r in Asked(k.namespace, w.specs[k]);
      }
      if k :| k in w.specs && r in Asked(k.namespace, w.specs[k]) {
        assert r in Own(w, k);
      }
    }
  }

  /** After such a sequence no call, stored or not, meets a missing rule, and a call that is
      refused changes nothing. */
  lemma NeverMissing(initial: seq<Rule>, calls: seq<Call>, c: Call)
    requires DistinctAliases(initial) && Harmless(initial, calls)
    ensures var (w', outcome) := Apply(Run(initial, calls), c);
            outcome != RuleMissing && (outcome == Refused ==> w' == Run(initial, calls))
  {
    RunExact(initial, calls);
    CallExact(Run(initial, calls), initial, c);
    RefusedIsUnchanged(Run(initial, calls), c);
  }

  lemma RefusedIsUnchanged(w: World, c: Call)
    ensures Apply(w, c).1 in {Refused, RuleMissing} ==> Apply(w, c).0 == w
  {
  }

  /** Creating an autoscaler and deleting it again restores the rule sequence, in order, and
      the stored autoscalers. */
  lemma CreateThenDelete(w: World, namespace: string, h: Hpa)
    requires Key(namespace, h.name) !in w.specs && DoCreate(w, namespace, h, true).1 == Done
    ensures DoDelete(DoCreate(w, namespace, h, true).0, Key(namespace, h.name), true) == (w, Done)
  {
    var k, own := Key(namespace, h.name), Asked(namespace, h);
    var w1 := DoCreate(w, namespace, h, true).0;
    AddAllResult(w.rules, own);
    AddThenDrop(w.rules, own);
    StoredAliases(k, h);
    assert k !in w.hpas;
    assert w1.hpas - {k} == w.hpas && w1.specs - {k} == w.specs;
  }

  /** A create whose last write fails keeps its rules although there is no autoscaler, and the
      same create is then refused. */
  lemma FailedStoreLeaks(w: World, namespace: string, h: Hpa)
    requires DoCreate(w, namespace, h, false).1 == NotStored && h.customs != []
    ensures var w' := DoCreate(w, namespace, h, false).0;
            && w'.rules == w.rules + Asked(namespace, h)
            && w'.hpas == w.hpas
            && DoCreate(w', namespace, h, true) == (w', Refused)
  {
    var own := Asked(namespace, h);
    AddAllResult(w.rules, own);
    var w' := DoCreate(w, namespace, h, false).0;
    AddAllResult(w'.rules, own);
    AddAllNeverMissing(w'.rules, own);
    assert own[0] in own && own[0] in w'.rules;
  }

  /** A stored autoscaler uses an alias that no rule has. */
  ghost predicate Stuck(w: World, k: Key, alias: string) {
    k in w.hpas && alias in OldAliases(w.hpas[k].metrics) && !HasAlias(w.rules, alias)
  }

  predicate Asks(c: Call, alias: string) {
    match c
    case Create(namespace, h, _) => alias in Aliases(Asked(namespace, h))
    case Update(k, h, _) => alias in Aliases(Asked(k.namespace, h))
    case Delete(_, _) => false
  }

  /** A delete or an update whose last write fails, and which did not ask again for an alias
      the autoscaler had, leaves it stuck. */
  lemma FailedStoreSticks(w: World, initial: seq<Rule>, c: Call, alias: string)
    requires Inv(w, initial) && !c.Create? && Apply(w, c).1 == NotStored
    requires c.key in w.specs && alias in Aliases(Own(w, c.key)) && !Asks(c, alias)
    ensures Stuck(Apply(w, c).0, c.key, alias)
  {
    var k := c.key;
    var asked: seq<Rule> := if c.Update? then Asked(k.namespace, c.hpa) else [];
    OwnListed(w, initial, k);
    EditLoses(w.rules, Aliases(Own(w, k)), asked, alias);
  }

  /** An alias that was dropped and not asked for again is gone. */
  lemma EditLoses(rules: seq<Rule>, aliases: seq<string>, asked: seq<Rule>, alias: string)
    requires DistinctAliases(rules) && NoDup(aliases) && (forall a <- aliases :: HasAlias(rules, a))
    requires EditRules(rules, aliases, asked).Edited? && alias in aliases && alias !in Aliases(asked)
    ensures !HasAlias(EditRules(rules, aliases, asked).rules, alias)
  {
    DropAllMembers(rules, aliases);
    AddAllResult(DropAll(rules, aliases).rules, asked);
    forall r <- asked
      ensures r.alias != alias
    {
      assert Aliases(asked)[IndexIn(asked, r)] == r.alias;
    }
  }

  /** Every delete and every valid update of a stuck autoscaler fails on the missing rule and
      changes nothing. */
  lemma StuckFails(w: World, k: Key, alias: string, d: Call)
    requires Stuck(w, k, alias) && !d.Create? && d.key == k && (d.Update? ==> Valid(d.hpa))
    ensures Apply(w, d) == (w, RuleMissing)
  {
    DropAllNeeds(w.rules, OldAliases(w.hpas[k].metrics));
  }

  /** An edit brings in no rules but those it is asked for. */
  lemma EditBrings(rules: seq<Rule>, aliases: seq<string>, asked: seq<Rule>)
    ensures var e := EditRules(rules, aliases, asked);
            e.Edited? ==> forall r <- e.rules :: r in rules || r in asked
  {
    DropAllNeeds(rules, aliases);
    if DropAll(rules, aliases).Edited? {
      AddAllResult(DropAll(rules, aliases).rules, asked);
    }
  }

  /** It stays stuck under every call that does not ask for the alias. */
  lemma StaysStuck(w: World, k: Key, alias: string, c: Call)
    requires Stuck(w, k, alias) && !Asks(c, alias)
    ensures Stuck(Apply(w, c).0, k, alias)
  {
    if !c.Create? && c.key == k && (c.Update? ==> Valid(c.hpa)) {
      StuckFails(w, k, alias, c);
    } else {
      var old_ := if !c.Create? && c.key in w.hpas then OldAliases(w.hpas[c.key].metrics) else [];
      var asked := match c
        case Create(namespace, h, _) => Asked(namespace, h)
        case Update(l, h, _) => Asked(l.namespace, h)
        case Delete(_, _) => [];
      EditBrings(w.rules, old_, asked);
      forall r <- asked
        ensures r.alias != alias
      {
        assert Aliases(asked)[IndexIn(asked, r)] == r.alias;
      }
    }
  }

  /** So after an unstored delete of an autoscaler with custom metrics, and any later calls that
      do not ask for one of its aliases, every delete of it fails on the missing rule. */
  lemma FailedDeleteSticks(w: World, initial: seq<Rule>, k: Key, m: nat, calls: seq<Call>, stored: bool)
    requires Inv(w, initial) && k in w.specs && m < |w.specs[k].customs|
    requires forall c <- calls :: !Asks(c, Own(w, k)[m].alias)
    ensures DoDelete(w, k, false).1 == NotStored
    ensures var w' := Later(DoDelete(w, k, false).0, calls);
            DoDelete(w', k, stored) == (w', RuleMissing)
  {
    DropOwn(w, initial, k);
    var alias := Own(w, k)[m].alias;
    assert Aliases(Own(w, k))[m] == alias;
    FailedStoreSticks(w, initial, Delete(k, false), alias);
    StuckThroughout(DoDelete(w, k, false).0, k, alias, calls);
    StuckFails(Later(DoDelete(w, k, false).0, calls), k, alias, Delete(k, stored));
  }

  lemma {:induction false} StuckThroughout(w: World, k: Key, alias: string, calls: seq<Call>)
    requires Stuck(w, k, alias) && forall c <- calls :: !Asks(c, alias)
    ensures Stuck(Later(w, calls), k, alias)
  {
    if calls != [] {
      var front := calls[..|calls| - 1];
      StuckThroughout(w, k, alias, front);
      assert !Asks(calls[|calls| - 1], alias);
      StaysStuck(Later(w, front), k, alias, calls[|calls| - 1]);
    }
  }
}

/** The main results about the cluster lifecycle, over every run. */
module LifecycleTheorems {
  import opened Common
  import opened ClusterConfig
  import opened ClusterLifecycle
  import opened LifecycleProofs

  lemma {:induction false} RunKeeps(labels: seq<Label>)
    ensures Inv(Run(labels))
  {
    if labels == [] {
      assert LiveNames([]) == {};
    } else {
      RunKeeps(labels[..|labels| - 1]);
      StepKeeps(Run(labels[..|labels| - 1]), labels[|labels| - 1]);
    }
  }

  /** In every reachable state the stored flag agrees with the status, exactly one worker is
      in flight when the cluster is busy and none otherwise, a cancel request is pending only
      while creating or updating, and no channel was ever closed when nil or already closed. */
  lemma ReachableClusters(labels: seq<Label>, i: nat)
    requires i < |Run(labels).clusters|
    ensures var w := Run(labels);
            var c := w.clusters[i];
            && !w.panicked
            && c.name in w.db
            && (c.status == Creating || c.status == CreateFailed ==> !w.db[c.name].created)
            && (c.status == Running || c.status == Unreachable || c.status == Updating ==>
                  w.db[c.name].created && c.stopCh.Some? && c.stopCh.value !in w.closed)
            && |c.workers| == (if c.status == Creating || c.status == Updating || c.status == Deleting then 1 else 0)
            && c.status != Deleted
            && (c.isCanceled ==> c.status == Creating || c.status == Updating)
            && (forall j :: 0 <= j < |w.clusters| && w.clusters[j].name == c.name ==> j == i)
  {
    RunKeeps(labels);
    var w := Run(labels);
    forall j | 0 <= j < |w.clusters| && w.clusters[j].name == w.clusters[i].name
      ensures j == i
    {
      assert i < j || j < i || i == j;
    }
  }

  /** No completion is lost: the first event a finishing worker fires is always allowed. */
  lemma FirstEventEnabled(labels: seq<Label>, i: nat, k: nat, outcome: Outcome)
    requires i < |Run(labels).clusters| && k < |Run(labels).clusters[i].workers|
    ensures var c := Run(labels).clusters[i];
            Can(c.status, FirstEvent(c, c.workers[k], outcome))
  {
    RunKeeps(labels);
    EnabledFor(Run(labels).clusters[i], k, outcome);
  }

  lemma EnabledFor(c: Cluster, k: nat, outcome: Outcome)
    requires WorkersAgree(c) && k < |c.workers|
    ensures Can(c.status, FirstEvent(c, c.workers[k], outcome))
  {
  }

  /** A restart from any reachable state, with whatever workers it cuts off: the manager holds
      exactly the stored names, but for created clusters it cannot connect to; created rows
      run, the others are failed creations, nothing is in flight, and the invariant holds. */
  lemma RestartRebuilds(labels: seq<Label>, order: seq<string>, initFailed: set<string>)
    requires Enumerates(order, Run(labels).db.Keys)
    ensures var w, w' := Run(labels), Step(Run(labels), Restart(order, initFailed));
            && Inv(w') && w'.db == w.db
            && (forall n :: Managed(w'.clusters, n) <==> n in w.db && (w.db[n].created ==> n !in initFailed))
            && (forall i :: 0 <= i < |w'.clusters| ==> LoadedFrom(w'.clusters[i], w.db))
  {
    var w := Run(labels);
    RunKeeps(labels);
    StepKeeps(w, Restart(order, initFailed));
    LoadKeeps(w.db, order, initFailed);
    LoadedRows(w.db, order, initFailed);
    assert forall n :: n in w.db.Keys <==> n in order;
  }

  ghost predicate LoadedFrom(c: Cluster, db: map<string, Row>) {
    && c.name in db && c.config == db[c.name].config && c.workers == []
    && c.status == if db[c.name].created then Running else CreateFailed
  }

  lemma {:induction false} LoadedRows(db: map<string, Row>, order: seq<string>, initFailed: set<string>)
    requires forall n <- order :: n in db
    ensures forall c <- Load(db, order, initFailed).clusters :: LoadedFrom(c, db)
  {
    if order != [] {
      LoadedRows(db, order[..|order| - 1], initFailed);
    }
  }

  /** With every connection succeeding, the manager's names are the stored names. */
  lemma RestartIsComplete(labels: seq<Label>, order: seq<string>)
    requires Enumerates(order, Run(labels).db.Keys)
    ensures forall n :: Managed(Step(Run(labels), Restart(order, {})).clusters, n) <==> n in Run(labels).db
  {
    RestartRebuilds(labels, order, {});
  }

  // ---------------------------------------------------------------------------
  // Published events
  // ---------------------------------------------------------------------------

  /** The events about one cluster, in order. */
  ghost function About(log: seq<Published>, name: string): seq<Published> {
    if log == [] then []
    else
      var rest := About(log[..|log| - 1], name);
      if log[|log| - 1].name == name then rest + [log[|log| - 1]] else rest
  }

  lemma {:induction false} WatchedAlternates(log: seq<Published>, name: string)
    requires Watched(log).Some?
    ensures name in Watched(log).value <==> |About(log, name)| % 2 == 1
    ensures forall i :: 0 <= i < |About(log, name)| ==> (About(log, name)[i].Created? <==> i % 2 == 0)
  {
    if log != [] {
      WatchedAlternates(log[..|log| - 1], name);
    }
  }

  lemma {:induction false} WatchedPrefix(log: seq<Published>, k: nat)
    requires Watched(log).Some? && k <= |log|
    ensures Watched(log[..k]).Some?
  {
    if k < |log| {
      assert log[..|log| - 1][..k] == log[..k];
      WatchedPrefix(log[..|log| - 1], k);
    } else {
      assert log[..k] == log;
    }
  }

  /** In every run the create and delete events about each cluster alternate, starting with a
      create; however far a subscriber has read, it met no duplicate and no unknown cluster;
      and once it has read everything it watches exactly the clusters that are up. */
  lemma PublishedEventsAlternate(labels: seq<Label>, name: string, k: nat)
    requires k <= |Run(labels).log|
    ensures var w := Run(labels);
            && (forall i :: 0 <= i < |About(w.log, name)| ==> (About(w.log, name)[i].Created? <==> i % 2 == 0))
            && Watched(w.log[..k]).Some? && Watched(w.log).Some?
            && (name in Watched(w.log).value <==>
                  exists i :: 0 <= i < |w.clusters| && w.clusters[i].name == name && Live(w.clusters[i]))
  {
    RunKeeps(labels);
    WatchedAlternates(Run(labels).log, name);
    WatchedPrefix(Run(labels).log, k);
  }

  // ---------------------------------------------------------------------------
  // Refused calls
  // ---------------------------------------------------------------------------

  /** A refused create, delete or cancel changes nothing. A refused update changes nothing
      unless the cluster was never created and cannot resume creation; then the new
      configuration is stored although the caller is told the update failed. */
  lemma RefusedCalls(labels: seq<Label>, name: string, req: Request, valid: bool)
    ensures var w := Run(labels);
            && (CreateCall(w, name, req, valid).1 != Accepted ==> CreateCall(w, name, req, valid).0 == w)
            && (DeleteCall(w, name).1 != Accepted ==> DeleteCall(w, name).0 == w)
            && (CancelCall(w, name).1 != Accepted ==> CancelCall(w, name).0 == w)
            && (var (w', reply) := UpdateCall(w, name, req, valid);
                var i := IndexOf(w.clusters, name);
                && (reply != Accepted && reply != ServerError ==> w' == w)
                && (reply == ServerError <==>
                      && valid && i < |w.clusters| && name in w.db
                      && !w.db[name].created && w.clusters[i].status != CreateFailed)
                && (reply == ServerError ==>
                      w'.clusters == w.clusters[i := w.clusters[i].(config := ToZke(req.nodes))]
                      && w'.db == w.db[name := Row(false, ToZke(req.nodes))]))
  {
    RunKeeps(labels);
  }

  // ---------------------------------------------------------------------------
  // Configurations along a run
  // ---------------------------------------------------------------------------

  /** The configuration in memory, in the row and in the hands of the worker are one. */
  ghost predicate InStep(w: World) {
    forall i :: 0 <= i < |w.clusters| ==> ClusterInStep(w, w.clusters[i])
  }

  ghost predicate ClusterInStep(w: World, c: Cluster) {
    && c.name in w.db && w.db[c.name].config == c.config
    && forall k :: 0 <= k < |c.workers| && !c.workers[k].DestroyWorker? ==> c.workers[k].state.config == c.config
  }

  /** A valid update that arrives while the cluster is being created and changes its nodes:
      it is refused, but the worker in flight no longer holds the stored configuration. */
  ghost predicate OverwritesInFlight(w: World, l: Label) {
    && l.CallUpdate?
    && ValidUpdate(w, l.name, l.req, l.storage)
    && var c := w.clusters[IndexOf(w.clusters, l.name)];
       c.status == Creating && c.config != ToZke(l.req.nodes)
  }

  /** Cluster i, if there is one, changes nothing that concerns configurations. */
  ghost predicate Quiet(w: World, i: nat, w': World) {
    && |w'.clusters| == |w.clusters| && w'.db == w.db
    && (forall j :: 0 <= j < |w.clusters| && j != i ==> w'.clusters[j] == w.clusters[j])
    && (i < |w.clusters| ==>
          var c, c' := w.clusters[i], w'.clusters[i];
          && c'.name == c.name && c'.config == c.config
          && (c'.workers == c.workers || c'.workers == c.workers + [DestroyWorker]))
  }

  lemma QuietDelete(w: World, name: string)
    ensures Quiet(w, IndexOf(w.clusters, name), DeleteCall(w, name).0)
  {
  }

  lemma QuietCancel(w: World, name: string)
    ensures Quiet(w, IndexOf(w.clusters, name), CancelCall(w, name).0)
  {
  }

  lemma QuietCheck(w: World, i: nat, reachable: bool)
    requires i < |w.clusters|
    ensures Quiet(w, i, CheckStep(w, i, reachable))
  {
  }

  lemma QuietSteps(w: World, l: Label) returns (i: nat)
    requires l.CallDelete? || l.CallCancel? || l.Check?
    ensures Quiet(w, i, Step(w, l))
  {
    match l
    case CallDelete(name) =>
      i := IndexOf(w.clusters, name);
      QuietDelete(w, name);
    case CallCancel(name) =>
      i := IndexOf(w.clusters, name);
      QuietCancel(w, name);
    case Check(k, reachable) =>
      i := k;
      if k < |w.clusters| {
        QuietCheck(w, k, reachable);
      }
  }

  lemma QuietInStep(w: World, i: nat, w': World)
    requires DistinctNames(w.clusters) && InStep(w) && Quiet(w, i, w')
    ensures InStep(w')
  {
  }

  /** The three copies of a configuration stay in step exactly until such an update. */
  lemma StaysInStep(w: World, l: Label)
    requires Inv(w) && InStep(w)
    ensures InStep(Step(w, l)) <==> !OverwritesInFlight(w, l)
  {
    if l.CallUpdate? {
      UpdateInStep(w, l);
    } else if l.CallDelete? || l.CallCancel? || l.Check? {
      var i := QuietSteps(w, l);
      QuietInStep(w, i, Step(w, l));
    } else if l.CallCreate? {
      CreateInStep(w, l.name, l.req);
    } else if l.Finish? {
      if l.cluster < |w.clusters| && l.worker < |w.clusters[l.cluster].workers| {
        FinishInStep(w, l.cluster, l.worker, l.outcome);
      }
    } else if Enumerates(l.order, w.db.Keys) {
      LoadInStep(w.db, l.order, l.initFailed);
    }
  }

  lemma CreateInStep(w: World, name: string, req: Request)
    requires InStep(w)
    ensures InStep(CreateCall(w, name, req, CreateAccepted(req)).0)
  {
  }

  lemma LoadInStep(db: map<string, Row>, order: seq<string>, initFailed: set<string>)
    requires forall n <- order :: n in db
    ensures InStep(Load(db, order, initFailed))
  {
  }

  /** Cluster i may change, the others and the rows of the others may not. */
  lemma ReplacedInStep(w: World, i: nat, w': World)
    requires DistinctNames(w.clusters) && InStep(w)
    requires |w'.clusters| == |w.clusters|
    requires forall j :: 0 <= j < |w.clusters| && j != i ==> w'.clusters[j] == w.clusters[j]
    requires i < |w.clusters| ==>
               && w'.clusters[i].name == w.clusters[i].name
               && forall n <- w.db | n != w.clusters[i].name :: n in w'.db && w'.db[n] == w.db[n]
    requires i >= |w.clusters| ==> w'.db == w.db
    ensures InStep(w') <==> (i < |w.clusters| ==> ClusterInStep(w', w'.clusters[i]))
  {
  }

  lemma StartUpdateInStep(w: World, i: nat, state: Row)
    requires DistinctNames(w.clusters) && InStep(w) && i < |w.clusters|
    requires WorkersAgree(w.clusters[i]) && (state.created ==> Can(w.clusters[i].status, UpdateEvent))
    requires !state.created ==> !Live(w.clusters[i])
    ensures InStep(StartUpdate(w, i, state).0) <==>
            !(w.clusters[i].status == Creating && w.clusters[i].config != state.config)
  {
    var c, w' := w.clusters[i], StartUpdate(w, i, state).0;
    assert ClusterInStep(w, c);
    ReplacedInStep(w, i, w');
    if c.status == Creating {
      assert w'.clusters[i].workers == c.workers && c.workers[0].state.config == c.config;
    }
  }

  lemma UpdateInStep(w: World, l: Label)
    requires DistinctNames(w.clusters) && InStep(w) && l.CallUpdate?
    requires forall c <- w.clusters :: WorkersAgree(c) && c.name in w.db && FlagAgrees(c, w.db[c.name])
    ensures InStep(Step(w, l)) <==> !OverwritesInFlight(w, l)
  {
    var i := IndexOf(w.clusters, l.name);
    if i < |w.clusters| && ValidUpdate(w, l.name, l.req, l.storage) {
      var c := w.clusters[i];
      assert WorkersAgree(c) && FlagAgrees(c, w.db[c.name]);
      if !w.db[l.name].created || Can(c.status, UpdateEvent) {
        StartUpdateInStep(w, i, Row(w.db[l.name].created, ToZke(l.req.nodes)));
      }
    }
  }

  lemma FinishInStep(w: World, i: nat, k: nat, outcome: Outcome)
    requires Inv(w) && InStep(w) && i < |w.clusters| && k < |w.clusters[i].workers|
    ensures InStep(FinishStep(w, i, k, outcome))
  {
    var c := w.clusters[i];
    assert ClusterInStep(w, c);
    if c.status == Deleting {
      FinishRemoves(w, i, outcome);
      RemovedInStep(w, i, FinishStep(w, i, k, outcome));
    } else {
      FinishReplaces(w, i, outcome);
      assert c.workers[..0] + c.workers[1..] == [];
      AfterWorkerInStep(w, i, Finished(c, outcome, w.channels), c.workers[0].state.config);
    }
  }

  lemma AfterWorkerInStep(w: World, i: nat, c: Cluster, config: Config)
    requires DistinctNames(w.clusters) && InStep(w) && i < |w.clusters|
    requires c.name == w.clusters[i].name && c.workers == [] && c.config == config
    ensures InStep(AfterWorker(w, i, c, config))
  {
  }

  lemma RemovedInStep(w: World, i: nat, w': World)
    requires DistinctNames(w.clusters) && InStep(w) && i < |w.clusters|
    requires w'.clusters == Without(w.clusters, i) && w'.db == w.db - {w.clusters[i].name}
    ensures InStep(w')
  {
  }

  /** No step of the run so far was such an update. */
  ghost predicate NoOverwrite(labels: seq<Label>) {
    labels != [] ==>
      && NoOverwrite(labels[..|labels| - 1])
      && !OverwritesInFlight(Run(labels[..|labels| - 1]), labels[|labels| - 1])
  }

  ghost predicate InStepThroughout(labels: seq<Label>) {
    InStep(Run(labels)) && (labels != [] ==> InStepThroughout(labels[..|labels| - 1]))
  }

  /** The three copies agree all along a run if and only if no step of it was such an update. */
  lemma {:induction false} RunInStep(labels: seq<Label>)
    ensures InStepThroughout(labels) <==> NoOverwrite(labels)
  {
    if labels != [] {
      var front := labels[..|labels| - 1];
      RunInStep(front);
      if InStepThroughout(front) {
        RunKeeps(front);
        StaysInStep(Run(front), labels[|labels| - 1]);
      }
    }
  }

  /** Whatever keeps its name from one state to the next keeps its configuration. */
  ghost predicate SameConfigs(w: World, w': World) {
    forall i, j :: 0 <= i < |w.clusters| && 0 <= j < |w'.clusters| && w.clusters[i].name == w'.clusters[j].name ==>
                     w.clusters[i].config == w'.clusters[j].config
  }

  lemma ReplacedSameConfigs(w: World, i: nat, w': World)
    requires DistinctNames(w.clusters) && i < |w.clusters| == |w'.clusters|
    requires forall j :: 0 <= j < |w.clusters| && j != i ==> w'.clusters[j] == w.clusters[j]
    requires w'.clusters[i].name == w.clusters[i].name && w'.clusters[i].config == w.clusters[i].config
    ensures SameConfigs(w, w')
  {
  }

  lemma FinishSameConfigs(w: World, i: nat, k: nat, outcome: Outcome)
    requires Inv(w) && i < |w.clusters| && k < |w.clusters[i].workers|
    ensures SameConfigs(w, FinishStep(w, i, k, outcome))
  {
    var w' := FinishStep(w, i, k, outcome);
    if w.clusters[i].status == Deleting {
      FinishRemoves(w, i, outcome);
      WithoutSameConfigs(w, i, w');
    } else {
      FinishReplaces(w, i, outcome);
      ReplacedSameConfigs(w, i, w');
    }
  }

  lemma WithoutSameConfigs(w: World, i: nat, w': World)
    requires DistinctNames(w.clusters) && i < |w.clusters| && w'.clusters == Without(w.clusters, i)
    ensures SameConfigs(w, w')
  {
  }

  /** Only an update or a restart can change the configuration of a cluster. */
  lemma StepConfigs(w: World, l: Label)
    requires Inv(w) && !l.CallUpdate? && !l.Restart?
    ensures SameConfigs(w, Step(w, l))
  {
    SelfSameConfigs(w);
    if l.CallDelete? || l.CallCancel? || l.Check? {
      var i := QuietSteps(w, l);
      if i < |w.clusters| {
        ReplacedSameConfigs(w, i, Step(w, l));
      }
    } else if l.CallCreate? {
      CreateSameConfigs(w, l.name, l.req);
    } else if l.cluster < |w.clusters| && l.worker < |w.clusters[l.cluster].workers| {
      FinishSameConfigs(w, l.cluster, l.worker, l.outcome);
    }
  }

  lemma SelfSameConfigs(w: World)
    requires DistinctNames(w.clusters)
    ensures SameConfigs(w, w)
  {
  }

  lemma CreateSameConfigs(w: World, name: string, req: Request)
    requires DistinctNames(w.clusters)
    ensures SameConfigs(w, CreateCall(w, name, req, CreateAccepted(req)).0)
  {
  }

  /** An update moves the configuration of its cluster along an accepted update, or leaves it. */
  lemma UpdateConfigs(w: World, l: Label, i: nat, j: nat)
    requires DistinctNames(w.clusters) && l.CallUpdate?
    requires i < |w.clusters| && j < |Step(w, l).clusters|
    requires w.clusters[i].name == Step(w, l).clusters[j].name
    ensures Step(w, l).clusters[j].config == w.clusters[i].config
         || UpdateTo(w.clusters[i].config, Step(w, l).clusters[j].config)
  {
    var k := IndexOf(w.clusters, l.name);
    assert Step(w, l).clusters[j].name == w.clusters[j].name;
    assert i < j || j < i || i == j;
    if k == i && ValidUpdate(w, l.name, l.req, l.storage) {
      assert UpdateTo(w.clusters[i].config, ToZke(l.req.nodes));
    }
  }

  /** A restart from whose rows the cluster is loaded again. */
  ghost predicate Reloads(w: World, l: Label) {
    l.Restart? && Enumerates(l.order, w.db.Keys)
  }

  /** From any reachable state no call, no worker and no check makes a cluster lose a
      controlplane address, and a restart keeps them if and only if the row, before the
      restart, has every controlplane address that memory has. */
  lemma ControlPlaneNeverShrinks(labels: seq<Label>, l: Label, i: nat, j: nat)
    requires i < |Run(labels).clusters| && j < |Step(Run(labels), l).clusters|
    requires Run(labels).clusters[i].name == Step(Run(labels), l).clusters[j].name
    ensures var w, c := Run(labels), Run(labels).clusters[i];
            && c.name in w.db
            && (ControlPlaneAddresses(c.config) <= ControlPlaneAddresses(Step(w, l).clusters[j].config) <==>
                (Reloads(w, l) ==> ControlPlaneAddresses(c.config) <= ControlPlaneAddresses(w.db[c.name].config)))
  {
    var w, w' := Run(labels), Step(Run(labels), l);
    RunKeeps(labels);
    if Reloads(w, l) {
      LoadedRows(w.db, l.order, l.initFailed);
      assert LoadedFrom(w'.clusters[j], w.db);
    } else if l.CallUpdate? {
      UpdateConfigs(w, l, i, j);
      if w'.clusters[j].config != w.clusters[i].config {
        UpdateKeeps(w.clusters[i].config, w'.clusters[j].config);
      }
    } else if l.Restart? {
      SelfSameConfigs(w);
    } else {
      StepConfigs(w, l);
    }
  }

  /** So in runs in which no update was refused in flight, not even a restart shrinks them. */
  lemma InStepNeverShrinks(labels: seq<Label>, l: Label, i: nat, j: nat)
    requires NoOverwrite(labels)
    requires i < |Run(labels).clusters| && j < |Step(Run(labels), l).clusters|
    requires Run(labels).clusters[i].name == Step(Run(labels), l).clusters[j].name
    ensures ControlPlaneAddresses(Run(labels).clusters[i].config)
         <= ControlPlaneAddresses(Step(Run(labels), l).clusters[j].config)
  {
    RunInStep(labels);
    assert ClusterInStep(Run(labels), Run(labels).clusters[i]);
    ControlPlaneNeverShrinks(labels, l, i, j);
  }

  // ---------------------------------------------------------------------------
  // Every configuration kept anywhere was accepted
  // ---------------------------------------------------------------------------

  ghost predicate ClusterFrom(c: Cluster, pool: iset<Config>) {
    && c.config in pool
    && forall k :: 0 <= k < |c.workers| && !c.workers[k].DestroyWorker? ==> c.workers[k].state.config in pool
  }

  /** Every configuration in memory, stored or in the hands of a worker is in the pool. */
  ghost predicate AllFrom(w: World, pool: iset<Config>) {
    && (forall i :: 0 <= i < |w.clusters| ==> ClusterFrom(w.clusters[i], pool))
    && (forall n <- w.db :: w.db[n].config in pool)
  }

  lemma FinishFrom(w: World, i: nat, k: nat, outcome: Outcome, pool: iset<Config>)
    requires Inv(w) && AllFrom(w, pool) && i < |w.clusters| && k < |w.clusters[i].workers|
    ensures AllFrom(FinishStep(w, i, k, outcome), pool)
  {
    var c := w.clusters[i];
    if c.status == Deleting {
      FinishRemoves(w, i, outcome);
      RemovedFrom(w, i, FinishStep(w, i, k, outcome), pool);
    } else {
      FinishReplaces(w, i, outcome);
      assert ClusterFrom(c, pool) && c.workers[..0] + c.workers[1..] == [];
      AfterWorkerFrom(w, i, Finished(c, outcome, w.channels), c.workers[0].state.config, pool);
    }
  }

  lemma RemovedFrom(w: World, i: nat, w': World, pool: iset<Config>)
    requires AllFrom(w, pool) && i < |w.clusters|
    requires w'.clusters == Without(w.clusters, i) && w'.db == w.db - {w.clusters[i].name}
    ensures AllFrom(w', pool)
  {
  }

  lemma AfterWorkerFrom(w: World, i: nat, c: Cluster, config: Config, pool: iset<Config>)
    requires AllFrom(w, pool) && i < |w.clusters| && ClusterFrom(c, pool) && config in pool
    ensures AllFrom(AfterWorker(w, i, c, config), pool)
  {
  }

  lemma StartUpdateFrom(w: World, i: nat, state: Row, pool: iset<Config>)
    requires AllFrom(w, pool) && i < |w.clusters| && state.config in pool
    ensures AllFrom(StartUpdate(w, i, state).0, pool)
  {
  }

  lemma UpdateFrom(w: World, l: Label, pool: iset<Config>)
    requires AllFrom(w, pool) && l.CallUpdate?
    requires ValidUpdate(w, l.name, l.req, l.storage) ==> ToZke(l.req.nodes) in pool
    ensures AllFrom(Step(w, l), pool)
  {
    var i := IndexOf(w.clusters, l.name);
    if i < |w.clusters| && ValidUpdate(w, l.name, l.req, l.storage) && l.name in w.db {
      StartUpdateFrom(w, i, Row(w.db[l.name].created, ToZke(l.req.nodes)), pool);
    }
  }

  lemma LoadFrom(w: World, order: seq<string>, initFailed: set<string>, pool: iset<Config>)
    requires AllFrom(w, pool) && forall n <- order :: n in w.db
    ensures AllFrom(Load(w.db, order, initFailed), pool)
  {
  }

  lemma QuietFrom(w: World, i: nat, w': World, pool: iset<Config>)
    requires AllFrom(w, pool) && Quiet(w, i, w')
    ensures AllFrom(w', pool)
  {
  }

  /** A step keeps every configuration in the pool if the requests it accepts are in it. */
  lemma StepFrom(w: World, l: Label, pool: iset<Config>)
    requires Inv(w) && AllFrom(w, pool)
    requires l.CallCreate? && CreateAccepted(l.req) ==> ToZke(l.req.nodes) in pool
    requires l.CallUpdate? && ValidUpdate(w, l.name, l.req, l.storage) ==> ToZke(l.req.nodes) in pool
    ensures AllFrom(Step(w, l), pool)
  {
    if l.CallUpdate? {
      UpdateFrom(w, l, pool);
    } else if l.CallDelete? || l.CallCancel? || l.Check? {
      var i := QuietSteps(w, l);
      QuietFrom(w, i, Step(w, l), pool);
    } else if l.Finish? {
      if l.cluster < |w.clusters| && l.worker < |w.clusters[l.cluster].workers| {
        FinishFrom(w, l.cluster, l.worker, l.outcome, pool);
      }
    } else if l.Restart? && Enumerates(l.order, w.db.Keys) {
      LoadFrom(w, l.order, l.initFailed, pool);
    }
  }

  ghost function GoodConfigs(): iset<Config> {
    iset c: Config | GoodConfig(c)
  }

  lemma AcceptedIsGood(w: World, l: Label)
    ensures l.CallCreate? && CreateAccepted(l.req) ==> ToZke(l.req.nodes) in GoodConfigs()
    ensures l.CallUpdate? && ValidUpdate(w, l.name, l.req, l.storage) ==> ToZke(l.req.nodes) in GoodConfigs()
  {
    if (l.CallCreate? || l.CallUpdate?) && GoodNodes(l.req.nodes) {
      GoodNodesStored(l.req.nodes);
    }
  }

  /** In every reachable state every configuration, in memory, stored or in the hands of a
      worker, has distinct names and addresses and nodes that are controlplane or worker,
      never both. */
  lemma {:induction false} ConfigsAlwaysGood(labels: seq<Label>)
    ensures AllFrom(Run(labels), GoodConfigs())
  {
    if labels != [] {
      var front, l := labels[..|labels| - 1], labels[|labels| - 1];
      ConfigsAlwaysGood(front);
      RunKeeps(front);
      AcceptedIsGood(Run(front), l);
      StepFrom(Run(front), l, GoodConfigs());
    }
  }

  // ---------------------------------------------------------------------------
  // A controlplane node lost by a restart
  // ---------------------------------------------------------------------------

  const NO_STORAGE := StorageNodes({}, {})
  const MASTER := Node("m", "1", [ControlPlane])
  const NODE := Node("n", "2", [Worker])
  const EXTRA := Node("k", "3", [ControlPlane])
  const TWO_NODES := [MASTER, NODE]
  const THREE_NODES := [MASTER, NODE, EXTRA]

  /** Create two nodes, ask for a third while the creation is in flight (refused), let the
      creation finish. */
  const SHRINKING_RUN :=
    [CallCreate("a", Request(TWO_NODES, "key", true)),
     CallUpdate("a", Request(THREE_NODES, "", true), NO_STORAGE),
     Finish(0, 0, Provisioned(CacheReady))]

  lemma RunAppend(labels: seq<Label>, l: Label)
    ensures Run(labels + [l]) == Step(Run(labels), l)
  {
  }

  lemma ExampleNodesGood()
    ensures GoodNodes(TWO_NODES) && GoodNodes(THREE_NODES)
  {
    assert MASTER.roles[0] == ControlPlane && NODE.roles[0] == Worker && EXTRA.roles[0] == ControlPlane;
    assert MASTER.HasRole(ControlPlane) && NODE.HasRole(Worker) && EXTRA.HasRole(ControlPlane);
    assert TWO_NODES[0] == MASTER && TWO_NODES[1] == NODE;
    assert THREE_NODES[0] == MASTER && THREE_NODES[1] == NODE && THREE_NODES[2] == EXTRA;
    assert MASTER.address[0] != NODE.address[0] && MASTER.address[0] != EXTRA.address[0];
    assert NODE.address[0] != EXTRA.address[0];
    assert MASTER.name[0] != NODE.name[0] && MASTER.name[0] != EXTRA.name[0] && NODE.name[0] != EXTRA.name[0];
  }

  lemma ExampleNodesKept()
    ensures ControlPlaneKept(TWO_NODES, THREE_NODES)
    ensures RolesKept(TWO_NODES, THREE_NODES) && NamesKept(TWO_NODES, THREE_NODES)
  {
    assert THREE_NODES[0] == MASTER && MASTER.roles[0] == ControlPlane;
    assert MASTER.address[0] != NODE.address[0] && MASTER.address[0] != EXTRA.address[0];
    assert NODE.address[0] != EXTRA.address[0];
    forall i, j | 0 <= i < |TWO_NODES| && 0 <= j < |THREE_NODES| && TWO_NODES[i].address == THREE_NODES[j].address
      ensures TWO_NODES[i] == THREE_NODES[j]
    {
    }
    assert NODE.roles == [Worker];
  }

  lemma ExampleUpdateAccepted(shown: seq<Node>)
    requires shown == TWO_NODES
    ensures UpdateAccepted(shown, Request(THREE_NODES, "", true), false, NO_STORAGE)
  {
    ExampleNodesGood();
    ExampleNodesKept();
  }

  lemma ExampleShown()
    ensures ToSc(ToZke(TWO_NODES)) == TWO_NODES
  {
    forall n <- TWO_NODES
      ensures !n.HasRole(Etcd)
    {
      assert n == MASTER || n == NODE;
    }
    RoundTrip(TWO_NODES);
  }

  /** The update is refused, yet memory shows its configuration while the row holds the old
      one, and the next restart takes the third node's address out of the control plane. */
  lemma RestartCanShrink()
    ensures var w, w' := Run(SHRINKING_RUN), Step(Run(SHRINKING_RUN), Restart(["a"], {}));
            && |w.clusters| == 1 && |w'.clusters| == 1 && w.clusters[0].name == w'.clusters[0].name
            && EXTRA.address in ControlPlaneAddresses(w.clusters[0].config)
            && EXTRA.address !in ControlPlaneAddresses(w'.clusters[0].config)
  {
    ShrinkingRunState();
    var w := Run(SHRINKING_RUN);
    assert Enumerates(["a"], w.db.Keys);
    assert ["a"][..0] == [];
    assert Load(w.db, [], {}) == Fresh(w.db, 0, []);
    var w' := Load(w.db, ["a"], {});
    assert w'.clusters[0].config == ToZke(TWO_NODES);
    ExampleAddresses();
  }

  lemma ExampleAddresses()
    ensures EXTRA.address in ControlPlaneAddresses(ToZke(THREE_NODES))
    ensures EXTRA.address !in ControlPlaneAddresses(ToZke(TWO_NODES))
  {
    assert ToZke(THREE_NODES)[2] == ToZkeNode(EXTRA);
    ConvertedRoles(EXTRA.roles);
    assert MASTER.address[0] != EXTRA.address[0] && NODE.address[0] != EXTRA.address[0];
    assert EXTRA.roles[0] == ControlPlane;
  }

  lemma ShrinkingRunState()
    ensures var w := Run(SHRINKING_RUN);
            && |w.clusters| == 1 && w.clusters[0].name == "a" && w.clusters[0].config == ToZke(THREE_NODES)
            && w.db == map["a" := Row(true, ToZke(TWO_NODES))]
  {
    ExampleNodesGood();
    ExampleShown();
    ExampleUpdateAccepted(ToSc(ToZke(TWO_NODES)));
    RefusedInFlight("a", Request(TWO_NODES, "key", true), Request(THREE_NODES, "", true));
  }

  ghost function InCreation(name: string, nodes: seq<Node>): Cluster {
    Cluster(name, Creating, ToZke(nodes), [CreateWorker(Row(false, ToZke(nodes)))], false, true, None, false, false)
  }

  lemma CreatedFirst(name: string, req: Request)
    requires CreateAccepted(req)
    ensures Step(Run([]), CallCreate(name, req)) ==
            World([InCreation(name, req.nodes)], map[name := Row(false, ToZke(req.nodes))], 0, {}, [], false)
  {
  }

  /** The update is refused, with its configuration in memory and in the row. */
  lemma UpdatedInFlight(name: string, r0: Request, r1: Request)
    requires CreateAccepted(r0) && UpdateAccepted(ToSc(ToZke(r0.nodes)), r1, false, NO_STORAGE)
    ensures Run([CallCreate(name, r0), CallUpdate(name, r1, NO_STORAGE)]) ==
            World([InCreation(name, r0.nodes).(config := ToZke(r1.nodes))],
                  map[name := Row(false, ToZke(r1.nodes))], 0, {}, [], false)
  {
    var l0, l1 := CallCreate(name, r0), CallUpdate(name, r1, NO_STORAGE);
    RunAppend([], l0);
    assert [] + [l0] == [l0];
    RunAppend([l0], l1);
    assert [l0] + [l1] == [l0, l1];
    CreatedFirst(name, r0);
  }

  /** Whatever is created and then updated in flight ends up with the refused configuration
      in memory and the created one in the row. */
  lemma RefusedInFlight(name: string, r0: Request, r1: Request)
    requires CreateAccepted(r0) && UpdateAccepted(ToSc(ToZke(r0.nodes)), r1, false, NO_STORAGE)
    ensures var finish := Finish(0, 0, Provisioned(CacheReady));
            var w := Run([CallCreate(name, r0), CallUpdate(name, r1, NO_STORAGE), finish]);
            && |w.clusters| == 1 && w.clusters[0].name == name && w.clusters[0].config == ToZke(r1.nodes)
            && w.db == map[name := Row(true, ToZke(r0.nodes))]
  {
    var l0, l1, l2 := CallCreate(name, r0), CallUpdate(name, r1, NO_STORAGE), Finish(0, 0, Provisioned(CacheReady));
    UpdatedInFlight(name, r0, r1);
    RunAppend([l0, l1], l2);
    assert [l0, l1] + [l2] == [l0, l1, l2];
    FinishReplaces(Run([l0, l1]), 0, Provisioned(CacheReady));
  }
}

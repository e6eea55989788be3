/** What every run of the cluster lifecycle keeps. */
module LifecycleProofs {
  import opened Common
  import opened ClusterConfig
  import opened ClusterLifecycle

  // ---------------------------------------------------------------------------
  // The subscriber's view of the published events
  // ---------------------------------------------------------------------------

  /** Folding the published events as the event watcher manager does: the watched names, or
      None once a create for a watched name or a delete for an unwatched one was seen. */
  function Watched(log: seq<Published>): Option<set<string>> {
    if log == [] then Some({})
    else
      match (Watched(log[..|log| - 1]), log[|log| - 1])
      case (None, _) => None
      case (Some(s), Created(n)) => if n in s then None else Some(s + {n})
      case (Some(s), Removed(n)) => if n in s then Some(s - {n}) else None
  }

  predicate Live(c: Cluster) {
    c.status == Running || c.status == Unreachable || c.status == Updating
  }

  ghost function LiveNames(clusters: seq<Cluster>): set<string> {
    set i | 0 <= i < |clusters| && Live(clusters[i]) :: clusters[i].name
  }

  // ---------------------------------------------------------------------------
  // The invariant
  // ---------------------------------------------------------------------------

  ghost predicate FlagAgrees(c: Cluster, row: Row) {
    && (c.status == Creating || c.status == CreateFailed ==> !row.created)
    && (Live(c) ==> row.created)
    && c.status != Deleted
  }

  predicate Busy(s: Status) {
    s == Creating || s == Updating || s == Deleting
  }

  ghost predicate WorkersAgree(c: Cluster) {
    && (if Busy(c.status) then |c.workers| == 1 else c.workers == [])
    && (c.status == Creating ==> !c.workers[0].DestroyWorker? && !c.workers[0].state.created)
    && (c.status == Updating ==> c.workers[0].UpdateWorker? && c.workers[0].state.created)
    && (c.status == Deleting ==> c.workers[0].DestroyWorker?)
  }

  ghost predicate CancelAgrees(c: Cluster) {
    && (c.isCanceled ==> c.status == Creating || c.status == Updating)
    && (c.status == Creating || c.status == Updating ==> c.hasCancel)
  }

  ghost predicate ChannelAgrees(c: Cluster, row: Row, closed: set<nat>) {
    && (row.created ==> c.stopCh.Some? && c.hasClient)
    && (c.stopCh.Some? ==> (c.stopCh.value in closed <==> c.status == Deleting && row.created))
  }

  ghost predicate ClusterOk(c: Cluster, row: Row, closed: set<nat>) {
    FlagAgrees(c, row) && WorkersAgree(c) && CancelAgrees(c) && ChannelAgrees(c, row, closed)
  }

  ghost predicate DistinctNames(clusters: seq<Cluster>) {
    forall i, j :: 0 <= i < j < |clusters| ==> clusters[i].name != clusters[j].name
  }

  ghost predicate OwnChannels(clusters: seq<Cluster>, channels: nat, closed: set<nat>) {
    && (forall i :: 0 <= i < |clusters| && clusters[i].stopCh.Some? ==> clusters[i].stopCh.value < channels)
    && (forall i, j :: 0 <= i < j < |clusters| && clusters[i].stopCh.Some? ==> clusters[i].stopCh != clusters[j].stopCh)
    && (forall ch <- closed :: ch < channels)
  }

  ghost predicate Managed(clusters: seq<Cluster>, name: string) {
    exists i :: 0 <= i < |clusters| && clusters[i].name == name
  }

  /** A row without a cluster was left behind by a restart that could not connect to it. */
  ghost predicate OrphansCreated(w: World) {
    forall n <- w.db :: Managed(w.clusters, n) || w.db[n].created
  }

  ghost predicate Core(w: World) {
    && !w.panicked
    && DistinctNames(w.clusters)
    && OwnChannels(w.clusters, w.channels, w.closed)
    && (forall i :: 0 <= i < |w.clusters| ==>
                      w.clusters[i].name in w.db && ClusterOk(w.clusters[i], w.db[w.clusters[i].name], w.closed))
    && Watched(w.log) == Some(LiveNames(w.clusters))
  }

  ghost predicate Inv(w: World) {
    Core(w) && OrphansCreated(w)
  }

  // ---------------------------------------------------------------------------
  // One cluster changes
  // ---------------------------------------------------------------------------

  /** What a step may do to cluster i so that the rest of the world is not disturbed. */
  ghost predicate Replaces(w: World, i: nat, c: Cluster, row: Row, w': World)
    requires i < |w.clusters|
  {
    var b := w.clusters[i];
    && c.name == b.name
    && w'.clusters == w.clusters[i := c]
    && w'.db == w.db[c.name := row]
    && w'.panicked == w.panicked
    && (|| (w'.channels == w.channels && c.stopCh == b.stopCh)
        || (w'.channels == w.channels + 1 && c.stopCh == Some(w.channels)))
    && (|| w'.closed == w.closed
        || (b.stopCh.Some? && c.stopCh == b.stopCh && w'.closed == w.closed + {b.stopCh.value}))
    && (|| (w'.log == w.log && Live(b) == Live(c))
        || (w'.log == w.log + [Created(c.name)] && !Live(b) && Live(c))
        || (w'.log == w.log + [Removed(c.name)] && Live(b) && !Live(c)))
  }

  lemma WatchedAppend(log: seq<Published>, p: Published)
    requires Watched(log).Some?
    ensures Watched(log + [p]) ==
            var s := Watched(log).value;
            match p
            case Created(n) => if n in s then None else Some(s + {n})
            case Removed(n) => if n in s then Some(s - {n}) else None
  {
  }

  lemma LiveAfterReplace(clusters: seq<Cluster>, i: nat, c: Cluster)
    requires i < |clusters| && DistinctNames(clusters) && c.name == clusters[i].name
    ensures LiveNames(clusters[i := c]) ==
            if Live(c) then LiveNames(clusters) + {c.name} else LiveNames(clusters) - {c.name}
  {
    var after := clusters[i := c];
    forall j | 0 <= j < |clusters| && j != i
      ensures after[j] == clusters[j] && clusters[j].name != c.name
    {
    }
    assert after[i] == c;
    forall n
      ensures n in LiveNames(after) <==>
              n in (if Live(c) then LiveNames(clusters) + {c.name} else LiveNames(clusters) - {c.name})
    {
      if n in LiveNames(clusters) && n != c.name {
        var j :| 0 <= j < |clusters| && Live(clusters[j]) && clusters[j].name == n;
        assert after[j] == clusters[j];
      }
    }
  }

  lemma LiveIffListed(clusters: seq<Cluster>, i: nat)
    requires i < |clusters| && DistinctNames(clusters)
    ensures clusters[i].name in LiveNames(clusters) <==> Live(clusters[i])
  {
  }

  lemma LogAfterReplace(w: World, i: nat, c: Cluster, row: Row, w': World)
    requires Inv(w) && i < |w.clusters| && Replaces(w, i, c, row, w')
    ensures Watched(w'.log) == Some(LiveNames(w'.clusters))
  {
    LiveAfterReplace(w.clusters, i, c);
    LiveIffListed(w.clusters, i);
    if w'.log == w.log + [Created(c.name)] {
      WatchedAppend(w.log, Created(c.name));
    } else if w'.log == w.log + [Removed(c.name)] {
      WatchedAppend(w.log, Removed(c.name));
    } else if Live(c) {
      assert LiveNames(w.clusters) + {c.name} == LiveNames(w.clusters);
    } else {
      assert LiveNames(w.clusters) - {c.name} == LiveNames(w.clusters);
    }
  }

  lemma ReplaceKeepsChannels(w: World, i: nat, c: Cluster, row: Row, w': World)
    requires OwnChannels(w.clusters, w.channels, w.closed) && i < |w.clusters| && Replaces(w, i, c, row, w')
    ensures OwnChannels(w'.clusters, w'.channels, w'.closed)
  {
  }

  lemma ReplaceKeepsOrphans(w: World, i: nat, c: Cluster, row: Row, w': World)
    requires OrphansCreated(w) && i < |w.clusters| && Replaces(w, i, c, row, w')
    ensures OrphansCreated(w')
  {
    forall n <- w'.db
      ensures Managed(w'.clusters, n) || w'.db[n].created
    {
      if Managed(w.clusters, n) {
        var j :| 0 <= j < |w.clusters| && w.clusters[j].name == n;
        assert w'.clusters[j].name == n;
      } else {
        assert n != c.name;
      }
    }
  }

  /** The other clusters keep their rows and their channels. */
  lemma ReplaceKeepsOther(w: World, i: nat, c: Cluster, row: Row, w': World, j: nat)
    requires Core(w) && i < |w.clusters| && Replaces(w, i, c, row, w') && j < |w.clusters| && j != i
    ensures w'.clusters[j].name in w'.db
    ensures ClusterOk(w'.clusters[j], w'.db[w'.clusters[j].name], w'.closed)
  {
    assert w'.clusters[j] == w.clusters[j];
    assert i < j || j < i;
    assert w.clusters[j].name != c.name;
  }

  lemma ReplaceKeeps(w: World, i: nat, c: Cluster, row: Row, w': World)
    requires Inv(w) && i < |w.clusters|
    requires Replaces(w, i, c, row, w') && ClusterOk(c, row, w'.closed)
    ensures Inv(w')
  {
    LogAfterReplace(w, i, c, row, w');
    ReplaceKeepsChannels(w, i, c, row, w');
    ReplaceKeepsOrphans(w, i, c, row, w');
    forall j | 0 <= j < |w'.clusters|
      ensures w'.clusters[j].name in w'.db
      ensures ClusterOk(w'.clusters[j], w'.db[w'.clusters[j].name], w'.closed)
    {
      if j != i {
        ReplaceKeepsOther(w, i, c, row, w', j);
      }
    }
  }

  // ---------------------------------------------------------------------------
  // A cluster comes or goes
  // ---------------------------------------------------------------------------

  lemma AppendKeeps(w: World, c: Cluster, row: Row, w': World)
    requires Core(w) && !Managed(w.clusters, c.name)
    requires w'.clusters == w.clusters + [c] && w'.db == w.db[c.name := row]
    requires w'.closed == w.closed && w'.panicked == w.panicked
    requires ClusterOk(c, row, w'.closed)
    requires || (c.stopCh.None? && w'.channels == w.channels)
             || (c.stopCh == Some(w.channels) && w'.channels == w.channels + 1)
    requires w'.log == if Live(c) then w.log + [Created(c.name)] else w.log
    ensures Core(w')
    ensures forall n :: Managed(w'.clusters, n) <==> n == c.name || Managed(w.clusters, n)
  {
    var n := |w.clusters|;
    assert w'.clusters[n] == c;
    forall m
      ensures Managed(w'.clusters, m) <==> m == c.name || Managed(w.clusters, m)
    {
      if Managed(w.clusters, m) {
        var j :| 0 <= j < n && w.clusters[j].name == m;
        assert w'.clusters[j].name == m;
      }
    }
    assert LiveNames(w'.clusters) == LiveNames(w.clusters) + if Live(c) then {c.name} else {} by {
      forall m | m in LiveNames(w.clusters)
        ensures m in LiveNames(w'.clusters)
      {
        var j :| 0 <= j < n && Live(w.clusters[j]) && w.clusters[j].name == m;
        assert w'.clusters[j] == w.clusters[j];
      }
    }
    if Live(c) {
      WatchedAppend(w.log, Created(c.name));
    } else {
      assert LiveNames(w.clusters) + {} == LiveNames(w.clusters);
    }
  }

  ghost function Without(clusters: seq<Cluster>, i: nat): seq<Cluster>
    requires i < |clusters|
  {
    clusters[..i] + clusters[i + 1..]
  }

  /** Where the elements of the shorter list come from, and go to. */
  lemma WithoutAt(clusters: seq<Cluster>, i: nat)
    requires i < |clusters|
    ensures var rest := Without(clusters, i);
            && |rest| == |clusters| - 1
            && (forall j :: 0 <= j < |rest| ==> rest[j] == clusters[if j < i then j else j + 1])
            && (forall j :: 0 <= j < |clusters| && j != i ==> clusters[j] in rest)
  {
    var rest := Without(clusters, i);
    forall j | 0 <= j < |clusters| && j != i
      ensures clusters[j] in rest
    {
      assert rest[if j < i then j else j - 1] == clusters[j];
    }
  }

  lemma WithoutLive(clusters: seq<Cluster>, i: nat)
    requires i < |clusters| && !Live(clusters[i])
    ensures LiveNames(Without(clusters, i)) == LiveNames(clusters)
  {
    WithoutAt(clusters, i);
  }

  lemma WithoutListed(clusters: seq<Cluster>, i: nat)
    requires i < |clusters| && DistinctNames(clusters)
    ensures DistinctNames(Without(clusters, i))
    ensures forall n :: Managed(Without(clusters, i), n) <==> n != clusters[i].name && Managed(clusters, n)
  {
    var rest := Without(clusters, i);
    WithoutAt(clusters, i);
    forall n
      ensures Managed(rest, n) <==> n != clusters[i].name && Managed(clusters, n)
    {
      if n != clusters[i].name && Managed(clusters, n) {
        var j :| 0 <= j < |clusters| && clusters[j].name == n;
        assert clusters[j] in rest;
      }
    }
  }

  lemma FoundAt(clusters: seq<Cluster>, i: nat)
    requires i < |clusters| && DistinctNames(clusters)
    ensures IndexOf(clusters, clusters[i].name) == i
  {
  }

  lemma RemoveKeepsOther(w: World, i: nat, j: nat)
    requires Core(w) && i < |w.clusters| && j < |w.clusters| - 1
    ensures var c, db := Without(w.clusters, i)[j], w.db - {w.clusters[i].name};
            c.name in db && ClusterOk(c, db[c.name], w.closed)
  {
    var o := if j < i then j else j + 1;
    assert Without(w.clusters, i)[j] == w.clusters[o] && w.clusters[o].name != w.clusters[i].name;
  }

  lemma RemoveKeeps(w: World, i: nat, w': World)
    requires Inv(w) && i < |w.clusters| && !Live(w.clusters[i])
    requires w' == w.(clusters := Without(w.clusters, i), db := w.db - {w.clusters[i].name})
    ensures Inv(w')
  {
    WithoutListed(w.clusters, i);
    WithoutLive(w.clusters, i);
    WithoutChannels(w.clusters, i, w.channels, w.closed);
    forall j | 0 <= j < |w'.clusters|
      ensures w'.clusters[j].name in w'.db
      ensures ClusterOk(w'.clusters[j], w'.db[w'.clusters[j].name], w'.closed)
    {
      RemoveKeepsOther(w, i, j);
    }
    assert forall n <- w'.db :: n in w.db && n != w.clusters[i].name;
  }

  lemma WithoutChannels(clusters: seq<Cluster>, i: nat, channels: nat, closed: set<nat>)
    requires i < |clusters| && OwnChannels(clusters, channels, closed)
    ensures OwnChannels(Without(clusters, i), channels, closed)
  {
  }

  // ---------------------------------------------------------------------------
  // Every step keeps the invariant
  // ---------------------------------------------------------------------------

  lemma CreateCallKeeps(w: World, name: string, req: Request, valid: bool)
    requires Inv(w)
    ensures Inv(CreateCall(w, name, req, valid).0)
  {
    var (w', reply) := CreateCall(w, name, req, valid);
    if reply == Accepted {
      AppendKeeps(w, w'.clusters[|w.clusters|], w'.db[name], w');
      assert forall n <- w'.db :: n == name || n in w.db;
    }
  }

  lemma StartUpdateKeeps(w: World, i: nat, state: Row)
    requires Inv(w) && i < |w.clusters| && w.db[w.clusters[i].name].created == state.created
    requires state.created ==> Can(w.clusters[i].status, UpdateEvent)
    ensures Inv(StartUpdate(w, i, state).0)
  {
    var c, w' := w.clusters[i], StartUpdate(w, i, state).0;
    assert ClusterOk(c, w.db[c.name], w.closed);
    UpdatedOk(c, w.db[c.name], state, w.closed);
    ReplaceKeeps(w, i, w'.clusters[i], state, w');
  }

  /** What an update leaves of a cluster agrees with the new row. */
  lemma UpdatedOk(c: Cluster, row: Row, state: Row, closed: set<nat>)
    requires ClusterOk(c, row, closed) && row.created == state.created
    requires state.created ==> Can(c.status, UpdateEvent)
    ensures var c1 := c.(config := state.config);
            match Target(c.status, if state.created then UpdateEvent else ContinueCreateEvent)
            case None => ClusterOk(c1, state, closed)
            case Some(s) =>
              var c2 := c1.(status := s, workers := c.workers + [UpdateWorker(state)], hasCancel := true);
              ClusterOk(c2, state, closed)
  {
  }

  lemma UpdateCallKeeps(w: World, name: string, req: Request, valid: bool)
    requires Inv(w)
    ensures Inv(UpdateCall(w, name, req, valid).0)
  {
    var i := IndexOf(w.clusters, name);
    if i < |w.clusters| && valid && !(w.db[name].created && !Can(w.clusters[i].status, UpdateEvent)) {
      StartUpdateKeeps(w, i, Row(w.db[name].created, ToZke(req.nodes)));
    }
  }

  lemma DeleteCallKeeps(w: World, name: string)
    requires Inv(w)
    ensures Inv(DeleteCall(w, name).0)
  {
    var i := IndexOf(w.clusters, name);
    var w' := DeleteCall(w, name).0;
    if i < |w.clusters| && w' != w {
      assert w'.db == w.db[name := w.db[name]];
      ReplaceKeeps(w, i, w'.clusters[i], w.db[name], w');
    }
  }

  lemma CancelCallKeeps(w: World, name: string)
    requires Inv(w)
    ensures Inv(CancelCall(w, name).0)
  {
    var i := IndexOf(w.clusters, name);
    var w' := CancelCall(w, name).0;
    if i < |w.clusters| && w' != w {
      assert w'.db == w.db[name := w.db[name]];
      ReplaceKeeps(w, i, w'.clusters[i], w.db[name], w');
    }
  }

  lemma CheckKeeps(w: World, i: nat, reachable: bool)
    requires Inv(w) && i < |w.clusters|
    ensures Inv(CheckStep(w, i, reachable))
  {
    var w' := CheckStep(w, i, reachable);
    var name := w.clusters[i].name;
    if w' != w {
      assert w'.db == w.db[name := w.db[name]];
      ReplaceKeeps(w, i, w'.clusters[i], w.db[name], w');
    }
  }

  lemma SetTwice(w: World, i: nat, a: Cluster, b: Cluster)
    requires i < |w.clusters|
    ensures Set(Set(w, i, a), i, b) == Set(w, i, b)
  {
  }

  /** A finishing destroy worker takes its cluster and row away. */
  lemma FinishRemoves(w: World, i: nat, outcome: Outcome)
    requires i < |w.clusters| && w.clusters[i].status == Deleting
    requires DistinctNames(w.clusters) && WorkersAgree(w.clusters[i])
    ensures FinishStep(w, i, 0, outcome) ==
            w.(clusters := Without(w.clusters, i), db := w.db - {w.clusters[i].name})
  {
    var c := w.clusters[i];
    var idle := c.(workers := c.workers[..0] + c.workers[1..]);
    var gone := idle.(status := Deleted);
    SetTwice(w, i, idle, gone);
    UnlistedAt(w.clusters, i, gone);
  }

  lemma UnlistedAt(clusters: seq<Cluster>, i: nat, c: Cluster)
    requires i < |clusters| && DistinctNames(clusters) && c.name == clusters[i].name
    ensures Unlisted(clusters[i := c], c.name) == Without(clusters, i)
  {
    var after := clusters[i := c];
    assert forall j :: 0 <= j < |after| ==> after[j].name == clusters[j].name;
    FoundAt(after, i);
    assert after[..i] + after[i + 1..] == Without(clusters, i);
  }

  /** The cluster record a finishing create or update worker leaves behind. */
  ghost function Finished(c: Cluster, outcome: Outcome, channels: nat): Cluster
    requires c.workers != [] && !c.workers[0].DestroyWorker?
  {
    var worker := c.workers[0];
    var done := c.(workers := c.workers[..0] + c.workers[1..], isCanceled := false);
    if worker.state.created then done.(status := Running)
    else if c.isCanceled || outcome.ProvisionFailed? then done.(status := CreateFailed)
    else
      var cached := done.(hasClient := true,
                          stopCh := if outcome.cache == HttpClientFailed then c.stopCh else Some(channels));
      if outcome.cache == CacheReady
      then cached.(status := Running, checker := worker.CreateWorker? || c.checker)
      else cached.(status := CreateFailed)
  }

  /** The world with cluster i replaced by what its worker leaves, and the worker's row. */
  ghost function AfterWorker(w: World, i: nat, c': Cluster, config: Config): World
    requires i < |w.clusters|
  {
    var c := w.clusters[i];
    World(w.clusters[i := c'],
          w.db[c.name := Row(c'.status == Running, config)],
          if c'.stopCh == c.stopCh then w.channels else w.channels + 1,
          w.closed,
          if Live(c') && !Live(c) then w.log + [Created(c.name)] else w.log,
          w.panicked)
  }

  lemma FinishUncached(w: World, i: nat, outcome: Outcome)
    requires i < |w.clusters| && WorkersAgree(w.clusters[i]) && CancelAgrees(w.clusters[i])
    requires w.clusters[i].status == Creating || w.clusters[i].status == Updating
    requires w.clusters[i].isCanceled || outcome.ProvisionFailed? || w.clusters[i].workers[0].state.created
    ensures var c := w.clusters[i];
            FinishStep(w, i, 0, outcome) ==
            AfterWorker(w, i, Finished(c, outcome, w.channels), c.workers[0].state.config)
  {
    var c := w.clusters[i];
    SetTwice(w, i, c.(workers := c.workers[..0] + c.workers[1..]), Finished(c, outcome, w.channels));
  }

  lemma FinishCacheReady(w: World, i: nat, outcome: Outcome)
    requires i < |w.clusters| && w.clusters[i].stopCh != Some(w.channels)
    requires WorkersAgree(w.clusters[i]) && w.clusters[i].status == Creating
    requires !w.clusters[i].isCanceled && outcome == Provisioned(CacheReady)
    ensures var c := w.clusters[i];
            FinishStep(w, i, 0, outcome) ==
            AfterWorker(w, i, Finished(c, outcome, w.channels), c.workers[0].state.config)
  {
    var c := w.clusters[i];
    var idle := c.(workers := c.workers[..0] + c.workers[1..]);
    var c' := Finished(c, outcome, w.channels);
    var c1 := idle.(hasClient := true, stopCh := Some(w.channels));
    SetTwice(w, i, idle, c1);
    if c.workers[0].CreateWorker? {
      SetTwice(w, i, c1, c1.(checker := true));
      SetTwice(w, i, c1.(checker := true), c');
    } else {
      SetTwice(w, i, c1, c');
    }
  }

  lemma FinishCacheFailed(w: World, i: nat, outcome: Outcome)
    requires i < |w.clusters| && w.clusters[i].stopCh != Some(w.channels)
    requires WorkersAgree(w.clusters[i]) && w.clusters[i].status == Creating
    requires !w.clusters[i].isCanceled && outcome.Provisioned? && outcome.cache != CacheReady
    ensures var c := w.clusters[i];
            FinishStep(w, i, 0, outcome) ==
            AfterWorker(w, i, Finished(c, outcome, w.channels), c.workers[0].state.config)
  {
    var c := w.clusters[i];
    var idle := c.(workers := c.workers[..0] + c.workers[1..]);
    var c1 := SetCache(Set(w, i, idle), i, outcome.cache).clusters[i];
    SetTwice(w, i, idle, c1);
    SetTwice(w, i, c1, Finished(c, outcome, w.channels));
  }

  /** A finishing create or update worker replaces its cluster in place and writes its row. */
  lemma FinishReplaces(w: World, i: nat, outcome: Outcome)
    requires i < |w.clusters| && w.clusters[i].stopCh != Some(w.channels)
    requires WorkersAgree(w.clusters[i]) && CancelAgrees(w.clusters[i])
    requires w.clusters[i].status == Creating || w.clusters[i].status == Updating
    ensures var c := w.clusters[i];
            FinishStep(w, i, 0, outcome) ==
            AfterWorker(w, i, Finished(c, outcome, w.channels), c.workers[0].state.config)
  {
    var c := w.clusters[i];
    if c.isCanceled || outcome.ProvisionFailed? || c.workers[0].state.created {
      FinishUncached(w, i, outcome);
    } else if outcome.cache == CacheReady {
      FinishCacheReady(w, i, outcome);
    } else {
      FinishCacheFailed(w, i, outcome);
    }
  }

  lemma FinishKeeps(w: World, i: nat, k: nat, outcome: Outcome)
    requires Inv(w) && i < |w.clusters| && k < |w.clusters[i].workers|
    ensures Inv(FinishStep(w, i, k, outcome))
  {
    var c := w.clusters[i];
    var w' := FinishStep(w, i, k, outcome);
    if c.status == Deleting {
      FinishRemoves(w, i, outcome);
      RemoveKeeps(w, i, w');
    } else {
      FinishReplaces(w, i, outcome);
      assert c.workers[..0] + c.workers[1..] == [];
      assert w.channels !in w.closed;
      ReplaceKeeps(w, i, w'.clusters[i], w'.db[c.name], w');
    }
  }

  lemma {:induction false} LoadKeeps(db: map<string, Row>, order: seq<string>, initFailed: set<string>)
    requires forall n <- order :: n in db
    requires forall i, j :: 0 <= i < j < |order| ==> order[i] != order[j]
    ensures Core(Load(db, order, initFailed)) && Load(db, order, initFailed).closed == {}
    ensures forall n :: Managed(Load(db, order, initFailed).clusters, n) <==>
                          n in order && (db[n].created ==> n !in initFailed)
  {
    if order == [] {
      assert Load(db, order, initFailed) == Fresh(db, 0, []);
      assert LiveNames([]) == {};
    } else {
      var front, name := order[..|order| - 1], order[|order| - 1];
      assert order == front + [name];
      LoadKeeps(db, front, initFailed);
      var w, w' := Load(db, front, initFailed), Load(db, order, initFailed);
      assert name !in front;
      if !(db[name].created && name in initFailed) {
        assert w'.db == w.db[name := db[name]];
        AppendKeeps(w, w'.clusters[|w.clusters|], db[name], w');
      }
    }
  }

  lemma RestartKeeps(w: World, order: seq<string>, initFailed: set<string>)
    requires Enumerates(order, w.db.Keys)
    ensures Inv(Load(w.db, order, initFailed))
  {
    LoadKeeps(w.db, order, initFailed);
    assert forall n <- w.db.Keys :: n in order;
  }

  lemma StepKeeps(w: World, l: Label)
    requires Inv(w)
    ensures Inv(Step(w, l))
  {
    match l
    case CallCreate(name, req) => CreateCallKeeps(w, name, req, CreateAccepted(req));
    case CallUpdate(name, req, storage) => UpdateCallKeeps(w, name, req, ValidUpdate(w, name, req, storage));
    case CallDelete(name) => DeleteCallKeeps(w, name);
    case CallCancel(name) => CancelCallKeeps(w, name);
    case Finish(i, k, outcome) =>
      if i < |w.clusters| && k < |w.clusters[i].workers| {
        FinishKeeps(w, i, k, outcome);
      }
    case Check(i, reachable) =>
      if i < |w.clusters| {
        CheckKeeps(w, i, reachable);
      }
    case Restart(order, initFailed) =>
      if Enumerates(order, w.db.Keys) {
        RestartKeeps(w, order, initFailed);
      }
  }
}

/** What each call and each check does to the cluster it is about, status by status. */
module LifecycleCalls {
  import opened Common
  import opened ClusterConfig
  import opened ClusterLifecycle
  import opened LifecycleProofs
  import opened LifecycleTheorems

  lemma NamedAt(w: World, i: nat)
    requires Inv(w) && i < |w.clusters|
    ensures IndexOf(w.clusters, w.clusters[i].name) == i
    ensures w.clusters[i].name in w.db && ClusterOk(w.clusters[i], w.db[w.clusters[i].name], w.closed)
  {
    FoundAt(w.clusters, i);
  }

  lemma NotNamed(w: World, name: string)
    requires forall i :: 0 <= i < |w.clusters| ==> w.clusters[i].name != name
    ensures IndexOf(w.clusters, name) == |w.clusters|
  {
  }

  // ---------------------------------------------------------------------------
  // Checks
  // ---------------------------------------------------------------------------

  /** A check follows the server: a cluster that is up, with its loop running, becomes Running when
      the server answered and Unreachable when it did not. A check does nothing to a cluster in any
      other status, to one whose loop was not started, and to all other clusters. */
  lemma CheckFollowsServer(labels: seq<Label>, i: nat, reachable: bool)
    requires i < |Run(labels).clusters|
    ensures var w := Run(labels);
            var c, w' := w.clusters[i], Step(w, Check(i, reachable));
            if c.checker && (c.status == Running || c.status == Unreachable)
            then c.stopCh.Some? && c.stopCh.value !in w.closed
                 && w' == w.(clusters := w.clusters[i := c.(status := if reachable then Running else Unreachable)])
            else w' == w
  {
    RunKeeps(labels);
    NamedAt(Run(labels), i);
    CheckOf(Run(labels), i, reachable);
  }

  /** A loop that was not started, or whose channel is closed, does nothing, in any state at all. */
  lemma CheckStops(w: World, i: nat, reachable: bool)
    requires i < |w.clusters|
    requires !w.clusters[i].checker || (w.clusters[i].stopCh.Some? && w.clusters[i].stopCh.value in w.closed)
    ensures Step(w, Check(i, reachable)) == w
  {
  }

  lemma CheckOf(w: World, i: nat, reachable: bool)
    requires i < |w.clusters| && w.clusters[i].name in w.db
    requires ClusterOk(w.clusters[i], w.db[w.clusters[i].name], w.closed)
    ensures var c, w' := w.clusters[i], Step(w, Check(i, reachable));
            if c.checker && (c.status == Running || c.status == Unreachable)
            then c.stopCh.Some? && c.stopCh.value !in w.closed
                 && w' == w.(clusters := w.clusters[i := c.(status := if reachable then Running else Unreachable)])
            else w' == w
  {
    var c := w.clusters[i];
    assert w.clusters[i := c] == w.clusters;
    assert c.isCanceled ==> c.status != Running && c.status != Unreachable;
  }

  // ---------------------------------------------------------------------------
  // Calls
  // ---------------------------------------------------------------------------

  /** A call about a name nobody has. */
  lemma UnknownName(w: World, name: string, req: Request, valid: bool)
    requires forall i :: 0 <= i < |w.clusters| ==> w.clusters[i].name != name
    ensures UpdateCall(w, name, req, valid) == (w, NotFound)
    ensures DeleteCall(w, name) == (w, NotFound)
    ensures CancelCall(w, name) == (w, NotFound)
    ensures CreateCall(w, name, req, valid).1 == if valid then Accepted else InvalidOption
  {
    NotNamed(w, name);
  }

  /** A new cluster is Creating, not yet created, with one create worker that holds its row. */
  lemma CreateDecides(w: World, name: string, req: Request, valid: bool)
    ensures var (w', reply) := CreateCall(w, name, req, valid);
            && (reply == DuplicateResource <==> Managed(w.clusters, name))
            && (reply == Accepted <==> !Managed(w.clusters, name) && valid)
            && (reply == InvalidOption <==> !Managed(w.clusters, name) && !valid)
            && (reply != Accepted ==> w' == w)
            && (reply == Accepted ==>
                  && |w'.clusters| == |w.clusters| + 1 && w'.clusters[..|w.clusters|] == w.clusters
                  && NewCluster(w'.clusters[|w.clusters|], name, req)
                  && w' == w.(clusters := w'.clusters, db := w.db[name := Row(false, ToZke(req.nodes))]))
  {
    if !Managed(w.clusters, name) {
      NotNamed(w, name);
    }
  }

  ghost predicate NewCluster(c: Cluster, name: string, req: Request) {
    && c.name == name && c.status == Creating && c.config == ToZke(req.nodes)
    && c.workers == [CreateWorker(Row(false, ToZke(req.nodes)))]
    && !c.isCanceled && c.hasCancel && c.stopCh == None && !c.hasClient && !c.checker
  }

  /** A cluster is deleted exactly when it is Running, Unreachable or a failed creation; then a
      destroy worker starts, and if it was created its channel is closed and its end published. */
  lemma DeleteDecides(w: World, i: nat)
    requires Inv(w) && i < |w.clusters|
    ensures var c := w.clusters[i];
            var (w', reply) := DeleteCall(w, c.name);
            && (reply == Accepted <==> c.status == Running || c.status == Unreachable || c.status == CreateFailed)
            && (reply != Accepted ==> reply == PermissionDenied && w' == w)
            && (reply == Accepted ==>
                  && w'.clusters == w.clusters[i := c.(status := Deleting, workers := [DestroyWorker])]
                  && w'.db == w.db && w'.channels == w.channels && !w'.panicked
                  && (if c.status == CreateFailed
                      then w'.closed == w.closed && w'.log == w.log
                      else c.stopCh.Some? && c.stopCh.value !in w.closed
                           && w'.closed == w.closed + {c.stopCh.value} && w'.log == w.log + [Removed(c.name)]))
  {
    NamedAt(w, i);
    DeleteOf(w, i);
  }

  lemma DeleteOf(w: World, i: nat)
    requires i < |w.clusters| && IndexOf(w.clusters, w.clusters[i].name) == i && !w.panicked
    requires w.clusters[i].name in w.db && ClusterOk(w.clusters[i], w.db[w.clusters[i].name], w.closed)
    ensures var c := w.clusters[i];
            var (w', reply) := DeleteCall(w, c.name);
            && (reply == Accepted <==> c.status == Running || c.status == Unreachable || c.status == CreateFailed)
            && (reply != Accepted ==> reply == PermissionDenied && w' == w)
            && (reply == Accepted ==>
                  && w'.clusters == w.clusters[i := c.(status := Deleting, workers := [DestroyWorker])]
                  && w'.db == w.db && w'.channels == w.channels && !w'.panicked
                  && (if c.status == CreateFailed
                      then w'.closed == w.closed && w'.log == w.log
                      else c.stopCh.Some? && c.stopCh.value !in w.closed
                           && w'.closed == w.closed + {c.stopCh.value} && w'.log == w.log + [Removed(c.name)]))
  {
    assert w.clusters[i].workers == [] ==> w.clusters[i].workers + [DestroyWorker] == [DestroyWorker];
  }

  /** A valid update starts from Running on a created cluster and from CreateFailed on one that was
      not; it never starts from another status. */
  lemma UpdateDecides(w: World, i: nat, req: Request, valid: bool)
    requires Inv(w) && i < |w.clusters|
    ensures var c := w.clusters[i];
            var created, reply := w.db[c.name].created, UpdateCall(w, c.name, req, valid).1;
            && (reply == InvalidOption <==> !valid)
            && (reply == Accepted <==> valid && (c.status == Running || c.status == CreateFailed))
            && (reply == PermissionDenied <==> valid && created && c.status != Running)
            && (reply == ServerError <==> valid && !created && c.status != CreateFailed)
            && (c.status == Running ==> created) && (c.status == CreateFailed ==> !created)
  {
    NamedAt(w, i);
  }

  /** An accepted update turns Running into Updating and CreateFailed into Creating, stores the new
      configuration and starts one update worker that holds the stored row. */
  lemma UpdateStarts(w: World, i: nat, req: Request, valid: bool)
    requires Inv(w) && i < |w.clusters| && UpdateCall(w, w.clusters[i].name, req, valid).1 == Accepted
    ensures var c, w' := w.clusters[i], UpdateCall(w, w.clusters[i].name, req, valid).0;
            var row := Row(c.status == Running, ToZke(req.nodes));
            w' == w.(clusters := w.clusters[i := c.(status := if c.status == Running then Updating else Creating,
                                                    config := ToZke(req.nodes),
                                                    workers := [UpdateWorker(row)],
                                                    hasCancel := true)],
                     db := w.db[c.name := row])
  {
    NamedAt(w, i);
    var c := w.clusters[i];
    var row := Row(c.status == Running, ToZke(req.nodes));
    UpdateDecides(w, i, req, valid);
    assert c.workers + [UpdateWorker(row)] == [UpdateWorker(row)];
  }

  /** Exactly a creation or an update that is not yet being cancelled can be cancelled, and a
      cancel only leaves its mark. */
  lemma CancelDecides(w: World, i: nat)
    requires Inv(w) && i < |w.clusters|
    ensures var c := w.clusters[i];
            var (w', reply) := CancelCall(w, c.name);
            && (reply == Accepted <==> (c.status == Creating || c.status == Updating) && !c.isCanceled)
            && (reply != Accepted ==> reply == PermissionDenied && w' == w)
            && (reply == Accepted ==> w' == w.(clusters := w.clusters[i := c.(isCanceled := true)]))
  {
    NamedAt(w, i);
  }

  // ---------------------------------------------------------------------------
  // Restart
  // ---------------------------------------------------------------------------

  /** What a reload makes of one row: a created one is Running, with a client, a channel of its own
      that is open and its check loop started; another one is a failed creation with none of them. */
  ghost predicate Reloaded(w: World, c: Cluster) {
    && c.name in w.db && c.config == w.db[c.name].config
    && c.workers == [] && !c.isCanceled && !c.hasCancel
    && (if w.db[c.name].created
        then c.status == Running && c.stopCh.Some? && c.stopCh.value < w.channels && c.hasClient && c.checker
        else c.status == CreateFailed && c.stopCh.None? && !c.hasClient && !c.checker)
  }

  lemma {:induction false} ReloadedAll(db: map<string, Row>, order: seq<string>, initFailed: set<string>)
    requires forall n <- order :: n in db
    ensures var w := Load(db, order, initFailed);
            w.db == db && w.closed == {} && !w.panicked && forall c <- w.clusters :: Reloaded(w, c)
  {
    if order != [] {
      ReloadedAll(db, order[..|order| - 1], initFailed);
    }
  }

  // ---------------------------------------------------------------------------
  // Workers
  // ---------------------------------------------------------------------------

  lemma FinishedFields(c: Cluster, outcome: Outcome, channels: nat)
    requires WorkersAgree(c) && (c.status == Creating || c.status == Updating)
    ensures var c' := Finished(c, outcome, channels);
            && c'.workers == [] && !c'.isCanceled && c'.name == c.name && c'.config == c.config
            && (c.status == Updating ==> c'.status == Running)
            && (c.status == Creating ==>
                  c'.status == if !c.isCanceled && outcome == Provisioned(CacheReady) then Running else CreateFailed)
  {
  }

  /** A destroy worker takes its cluster and row away, whatever became of the machines. */
  lemma DestroyEnds(w: World, i: nat, outcome: Outcome)
    requires Inv(w) && i < |w.clusters| && w.clusters[i].status == Deleting
    ensures var c, w' := w.clusters[i], Step(w, Finish(i, 0, outcome));
            !Managed(w'.clusters, c.name) && c.name !in w'.db && w'.log == w.log
  {
    NamedAt(w, i);
    FinishRemoves(w, i, outcome);
    WithoutListed(w.clusters, i);
  }

  /** A creation runs exactly when it was not cancelled, the machines were provisioned and the cache
      was set; then the row says created and the cluster is published. Otherwise it failed. */
  lemma CreationEnds(w: World, i: nat, outcome: Outcome)
    requires Inv(w) && i < |w.clusters| && w.clusters[i].status == Creating
    ensures |w.clusters[i].workers| == 1 && !w.clusters[i].workers[0].DestroyWorker?
    ensures var c, w' := w.clusters[i], Step(w, Finish(i, 0, outcome));
            var succeeds := !c.isCanceled && outcome == Provisioned(CacheReady);
            && |w'.clusters| == |w.clusters| && w'.clusters[i].workers == [] && !w'.clusters[i].isCanceled
            && w'.clusters[i].status == (if succeeds then Running else CreateFailed)
            && w'.db == w.db[c.name := Row(succeeds, c.workers[0].state.config)]
            && w'.log == if succeeds then w.log + [Created(c.name)] else w.log
  {
    NamedAt(w, i);
    FinishReplaces(w, i, outcome);
    FinishedFields(w.clusters[i], outcome, w.channels);
  }

  /** An update ends in Running whatever happened to it, and nothing is published. */
  lemma UpdateEnds(w: World, i: nat, outcome: Outcome)
    requires Inv(w) && i < |w.clusters| && w.clusters[i].status == Updating
    ensures |w.clusters[i].workers| == 1 && !w.clusters[i].workers[0].DestroyWorker?
    ensures var c, w' := w.clusters[i], Step(w, Finish(i, 0, outcome));
            && |w'.clusters| == |w.clusters| && w'.clusters[i].workers == [] && !w'.clusters[i].isCanceled
            && w'.clusters[i].status == Running && w'.log == w.log
            && w'.db == w.db[c.name := Row(true, c.workers[0].state.config)]
  {
    NamedAt(w, i);
    FinishReplaces(w, i, outcome);
    FinishedFields(w.clusters[i], outcome, w.channels);
  }
}

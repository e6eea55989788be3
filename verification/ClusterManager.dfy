/** The cluster manager in its own form: objects updated in place. Every method is tied to the
    step of the lifecycle it performs. */
module ClusterManager {
  import opened Common
  import opened ClusterConfig
  import opened ClusterLifecycle

  class ManagedCluster {
    const name: string
    var status: Status
    var config: Config
    var workers: seq<Worker>
    var isCanceled: bool
    var hasCancel: bool
    var stopCh: Option<nat>
    var hasClient: bool
    var checker: bool

    ghost function View(): Cluster
      reads this
    {
      Cluster(name, status, config, workers, isCanceled, hasCancel, stopCh, hasClient, checker)
    }

    constructor (name: string, status: Status, config: Config)
      ensures View() == Cluster(name, status, config, [], false, false, None, false, false)
    {
      this.name, this.status, this.config := name, status, config;
      workers, isCanceled, hasCancel, stopCh, hasClient, checker := [], false, false, None, false, false;
    }

    /** Ask the worker in flight to stop. */
    method Cancel() returns (ok: bool, panics: bool)
      modifies this
      ensures ok <==> (old(status) == Creating || old(status) == Updating) && !old(isCanceled)
      ensures View() == if ok then old(View()).(isCanceled := true) else old(View())
      ensures panics <==> ok && !hasCancel
    {
      ok, panics := false, false;
      if status == Creating || status == Updating {
        if isCanceled {
          return;
        }
        isCanceled := true;
        panics := !hasCancel;
        ok := true;
      }
    }
  }

  ghost predicate DistinctObjects(cs: seq<ManagedCluster>) {
    forall i, j :: 0 <= i < j < |cs| ==> cs[i] != cs[j]
  }

  ghost function Views(cs: seq<ManagedCluster>): (v: seq<Cluster>)
    reads cs
    ensures |v| == |cs| && forall i :: 0 <= i < |cs| ==> v[i] == cs[i].View()
  {
    seq(|cs|, i requires 0 <= i < |cs| reads cs => cs[i].View())
  }

  class ZkeManager {
    var clusters: seq<ManagedCluster>
    var db: map<string, Row>
    var channels: nat
    var closed: set<nat>
    var log: seq<Published>
    var panicked: bool

    ghost predicate Valid()
      reads this
    {
      DistinctObjects(clusters)
    }

    ghost function Model(): World
      reads this, clusters
    {
      World(Views(clusters), db, channels, closed, log, panicked)
    }

    /** `get`: scan the list for a name. */
    method Get(name: string) returns (i: nat)
      ensures i == IndexOf(Views(clusters), name)
    {
      i := 0;
      while i < |clusters|
        invariant 0 <= i <= |clusters|
        invariant forall j :: 0 <= j < i ==> Views(clusters)[j].name != name
      {
        if clusters[i].name == name {
          FirstIsIndex(Views(clusters), name, i);
          return;
        }
        i := i + 1;
      }
      FirstIsIndex(Views(clusters), name, i);
    }

    method Create(name: string, req: Request) returns (reply: Reply)
      requires Valid()
      modifies this
      ensures Valid()
      ensures (Model(), reply) == CreateCall(old(Model()), name, req, CreateAccepted(req))
    {
      var i := Get(name);
      if i < |clusters| {
        reply := DuplicateResource;
      } else {
        var valid := ValidateConfigForCreate(req);
        if !valid {
          reply := InvalidOption;
        } else {
          var config := ScClusterToZkeNodes(req.nodes);
          StartCreating(name, config);
          reply := Accepted;
        }
      }
    }

    method StartCreating(name: string, config: Config)
      requires Valid()
      modifies this
      ensures Valid()
      ensures var w := old(Model());
              var state := Row(false, config);
              var c := Cluster(name, Creating, config, [CreateWorker(state)], false, true, None, false, false);
              Model() == w.(clusters := w.clusters + [c], db := w.db[name := state])
    {
      var state := Row(false, config);
      db := db[name := state];
      var c := new ManagedCluster(name, Creating, config);
      c.hasCancel := true;
      c.workers := [CreateWorker(state)];
      AddCluster(c);
    }

    /** `add`: append to the list. */
    method AddCluster(c: ManagedCluster)
      requires Valid() && c !in clusters
      modifies this`clusters
      ensures Valid() && clusters == old(clusters) + [c]
      ensures Views(clusters) == old(Views(clusters)) + [c.View()]
    {
      clusters := clusters + [c];
    }

    method Update(name: string, req: Request, storage: StorageNodes) returns (reply: Reply)
      requires Valid()
      modifies this, clusters
      ensures Valid()
      ensures (Model(), reply) ==
              UpdateCall(old(Model()), name, req, ValidUpdate(old(Model()), name, req, storage))
    {
      var i := Get(name);
      if i == |clusters| {
        reply := NotFound;
      } else {
        var shown := ToScCluster(clusters[i].config);
        var valid := ValidateConfigForUpdate(shown, req, clusters[i].hasClient, storage);
        if !valid {
          reply := InvalidOption;
        } else if name !in db {
          reply := ServerError;
        } else {
          var config := ScClusterToZkeNodes(req.nodes);
          if db[name].created && !Can(clusters[i].status, UpdateEvent) {
            reply := PermissionDenied;
          } else {
            reply := StartUpdating(i, Row(db[name].created, config));
          }
        }
      }
    }

    /** Store the new configuration, then ask the state machine. */
    method StartUpdating(i: nat, state: Row) returns (reply: Reply)
      requires Valid() && i < |clusters|
      modifies this, clusters
      ensures Valid()
      ensures (Model(), reply) == StartUpdate(old(Model()), i, state)
    {
      var c := clusters[i];
      var target := Target(c.status, if state.created then UpdateEvent else ContinueCreateEvent);
      db := db[c.name := state];
      c.config := state.config;
      reply := if target.None? then ServerError else Accepted;
      if target.Some? {
        c.status := target.value;
        c.hasCancel := true;
        c.workers := c.workers + [UpdateWorker(state)];
      }
      assert Views(clusters) == old(Views(clusters))[i := c.View()];
    }

    method CloseStopChannel(ch: Option<nat>)
      modifies this`closed, this`panicked
      ensures Model() == CloseChannel(old(Model()), ch)
    {
      if ch.None? || ch.value in closed {
        panicked := true;
      } else {
        closed := closed + {ch.value};
      }
    }

    method Delete(name: string) returns (reply: Reply)
      requires Valid()
      modifies this, clusters
      ensures Valid()
      ensures (Model(), reply) == DeleteCall(old(Model()), name)
    {
      var i := Get(name);
      if i == |clusters| {
        reply := NotFound;
      } else if !Can(clusters[i].status, DeleteEvent) {
        reply := PermissionDenied;
      } else if name !in db {
        reply := ServerError;
      } else {
        StartDeleting(i, db[name].created);
        reply := Accepted;
      }
    }

    method StartDeleting(i: nat, created: bool)
      requires Valid() && i < |clusters|
      modifies this, clusters
      ensures Valid()
      ensures Model() == StartDelete(old(Model()), i, created)
    {
      var c := clusters[i];
      MarkDeleting(i);
      if created {
        StopAndPublish(c.stopCh, c.name);
      }
    }

    method StopAndPublish(ch: Option<nat>, name: string)
      modifies this`closed, this`panicked, this`log
      ensures Model() == CloseChannel(old(Model()), ch).(log := old(Model()).log + [Removed(name)])
    {
      CloseStopChannel(ch);
      log := log + [Removed(name)];
    }

    method MarkDeleting(i: nat)
      requires Valid() && i < |clusters|
      modifies clusters
      ensures clusters[i].stopCh == old(clusters[i].stopCh)
      ensures var c := old(Model()).clusters[i];
              Model() == Set(old(Model()), i, c.(status := Deleting, workers := c.workers + [DestroyWorker]))
    {
      var c := clusters[i];
      c.status := Deleting;
      c.workers := c.workers + [DestroyWorker];
      assert Views(clusters) == old(Views(clusters))[i := c.View()];
    }

    method CancelCluster(name: string) returns (reply: Reply)
      requires Valid()
      modifies this, clusters
      ensures Valid()
      ensures (Model(), reply) == CancelCall(old(Model()), name)
    {
      var i := Get(name);
      if i == |clusters| {
        return NotFound;
      }
      reply := CancelAt(i);
    }

    method CancelAt(i: nat) returns (reply: Reply)
      requires Valid() && i < |clusters|
      modifies this`panicked, clusters
      ensures Valid()
      ensures (Model(), reply) == CancelFound(old(Model()), i)
    {
      var ok, panics := clusters[i].Cancel();
      assert Views(clusters) == old(Views(clusters))[i := clusters[i].View()];
      panicked := panicked || panics;
      if ok {
        return Accepted;
      }
      assert Views(clusters) == old(Views(clusters));
      return PermissionDenied;
    }

    /** The delete callback: take the cluster off the list, then drop its row. */
    method RemoveWithRow(name: string)
      requires Valid()
      modifies this`clusters, this`db
      ensures Valid() && (forall c <- clusters :: c in old(clusters))
      ensures Model() == RemoveCluster(old(Model()), name)
    {
      Remove(name);
      db := db - {name};
    }

    /** `Remove`: drop the first cluster of that name. */
    method Remove(name: string)
      requires Valid()
      modifies this`clusters
      ensures Valid() && (forall c <- clusters :: c in old(clusters))
      ensures Views(clusters) == Unlisted(old(Views(clusters)), name)
    {
      var k := Get(name);
      if k < |clusters| {
        DropAt(k);
      }
    }

    method DropAt(k: nat)
      requires Valid() && k < |clusters|
      modifies this`clusters
      ensures Valid() && clusters == old(clusters[..k] + clusters[k + 1..])
      ensures Views(clusters) == old(Views(clusters)[..k] + Views(clusters)[k + 1..])
    {
      clusters := clusters[..k] + clusters[k + 1..];
    }

    /** Send an event to cluster i and run its callback. */
    method Event(i: nat, e: FsmEvent, state: Row)
      requires Valid() && i < |clusters|
      modifies this, clusters
      ensures Valid() && (forall c <- clusters :: c in old(clusters))
      ensures e != DeleteCompletedEvent ==> clusters == old(clusters)
      ensures Model() == Send(old(Model()), i, e, state)
    {
      var target := Target(clusters[i].status, e);
      if target.Some? {
        var name := clusters[i].name;
        Enter(i, target.value, e);
        if e == DeleteCompletedEvent {
          RemoveWithRow(name);
        } else {
          Record(name, e, state);
        }
      }
    }

    method Record(name: string, e: FsmEvent, state: Row)
      modifies this`db, this`log
      ensures Model() == Recorded(old(Model()), name, e, state)
    {
      if WritesRow(e) {
        db := db[name := state];
      }
      if e == CreateSucceedEvent {
        log := log + [Created(name)];
      }
    }

    method Enter(i: nat, s: Status, e: FsmEvent)
      requires Valid() && i < |clusters|
      modifies clusters
      ensures Model() == Set(old(Model()), i, Entered(old(Model()).clusters[i], s, e))
    {
      var c := clusters[i];
      c.status := s;
      if e == CreateCanceledEvent || e == UpdateCanceledEvent {
        c.isCanceled := false;
      }
      assert Views(clusters) == old(Views(clusters))[i := c.View()];
    }

    method SetClusterCache(i: nat, r: CacheResult)
      requires Valid() && i < |clusters|
      modifies this, clusters
      ensures Valid() && clusters == old(clusters)
      ensures Model() == SetCache(old(Model()), i, r)
    {
      var c := clusters[i];
      c.hasClient := true;
      if r != HttpClientFailed {
        c.stopCh := Some(channels);
        channels := channels + 1;
      }
      assert Views(clusters) == old(Views(clusters))[i := clusters[i].View()];
    }

    /** The part of a worker that runs after provisioning returned. */
    method FinishWorker(i: nat, k: nat, outcome: Outcome)
      requires Valid() && i < |clusters| && k < |clusters[i].workers|
      modifies this, clusters
      ensures Valid()
      ensures Model() == FinishStep(old(Model()), i, k, outcome)
    {
      var c := clusters[i];
      var worker := c.workers[k];
      c.workers := c.workers[..k] + c.workers[k + 1..];
      assert Views(clusters) == old(Views(clusters))[i := clusters[i].View()];
      match worker {
        case DestroyWorker => Event(i, DeleteCompletedEvent, Row(false, []));
        case CreateWorker(state) => FinishCreate(i, state, outcome);
        case UpdateWorker(state) => FinishUpdate(i, state, outcome);
      }
    }

    method FinishCreate(i: nat, state: Row, outcome: Outcome)
      requires Valid() && i < |clusters|
      modifies this, clusters
      ensures Valid()
      ensures Model() == Complete(old(Model()), i, CreateWorker(state), outcome)
    {
      if clusters[i].isCanceled {
        Event(i, CreateCanceledEvent, state);
        return;
      }
      if outcome.ProvisionFailed? {
        Event(i, CreateFailedEvent, state);
        return;
      }
      SetClusterCache(i, outcome.cache);
      if outcome.cache != CacheReady {
        Event(i, CreateFailedEvent, state);
        return;
      }
      ghost var before := Views(clusters);
      clusters[i].checker := true;
      assert Views(clusters) == before[i := clusters[i].View()];
      Event(i, CreateSucceedEvent, state.(created := true));
    }

    method FinishUpdate(i: nat, state: Row, outcome: Outcome)
      requires Valid() && i < |clusters|
      modifies this, clusters
      ensures Valid()
      ensures Model() == Complete(old(Model()), i, UpdateWorker(state), outcome)
    {
      if clusters[i].isCanceled {
        Event(i, if state.created then UpdateCanceledEvent else CreateCanceledEvent, state);
        return;
      }
      if outcome.ProvisionFailed? {
        Event(i, if state.created then UpdateCompletedEvent else CreateFailedEvent, state);
        return;
      }
      if state.created {
        Event(i, UpdateCompletedEvent, state);
      } else {
        SetClusterCache(i, outcome.cache);
        if outcome.cache != CacheReady {
          Event(i, CreateFailedEvent, state);
        }
        Event(i, CreateSucceedEvent, state.(created := true));
      }
    }

    /** One round of the connection check loop of cluster i. */
    method CheckConnection(i: nat, reachable: bool)
      requires Valid() && i < |clusters|
      modifies this, clusters
      ensures Valid()
      ensures Model() == CheckStep(old(Model()), i, reachable)
    {
      var c := clusters[i];
      if !c.checker || (c.stopCh.Some? && c.stopCh.value in closed) {
        return;
      }
      Event(i, if reachable then GetInfoSucceedEvent else GetInfoFailedEvent, Row(false, []));
    }

    /** A new process: an empty manager over the stored rows, then `loadDB`. */
    constructor (rows: map<string, Row>)
      ensures Valid() && clusters == [] && Model() == Fresh(rows, 0, [])
    {
      clusters, db, channels, closed, log, panicked := [], rows, 0, {}, [], false;
    }

    /** Walk the rows in whatever order the table yields them. */
    method LoadDb(initFailed: set<string>) returns (ghost order: seq<string>)
      requires Valid() && clusters == [] && Model() == Fresh(db, 0, [])
      modifies this
      ensures Valid() && Enumerates(order, old(db).Keys)
      ensures Model() == Load(old(db), order, initFailed)
    {
      var rest := db.Keys;
      order := [];
      while rest != {}
        invariant rest <= db.Keys && db == old(db)
        invariant Enumerates(order, db.Keys - rest)
        invariant forall n <- order :: n in db
        invariant Valid() && Model() == Load(db, order, initFailed)
        decreases |rest|
      {
        var name :| name in rest;
        assert (order + [name])[..|order|] == order;
        ExtendEnumeration(order, db.Keys - rest, name);
        assert db.Keys - rest + {name} == db.Keys - (rest - {name});
        LoadOne(name, name !in initFailed);
        rest := rest - {name};
        order := order + [name];
      }
      assert db.Keys - rest == db.Keys;
    }

    method LoadOne(name: string, initOk: bool)
      requires Valid() && name in db
      modifies this
      ensures Valid() && db == old(db)
      ensures Model() == LoadRow(old(Model()), name, initOk)
    {
      var row := db[name];
      if row.created {
        if !initOk {
          return;
        }
        var c := new ManagedCluster(name, Running, row.config);
        c.stopCh, c.hasClient, c.checker := Some(channels), true, true;
        channels := channels + 1;
        log := log + [Created(name)];
        AddCluster(c);
      } else {
        var c := new ManagedCluster(name, CreateFailed, row.config);
        AddCluster(c);
      }
    }
  }

  lemma FirstIsIndex(cs: seq<Cluster>, name: string, i: nat)
    requires i <= |cs| && (i < |cs| ==> cs[i].name == name)
    requires forall j :: 0 <= j < i ==> cs[j].name != name
    ensures IndexOf(cs, name) == i
  {
  }

  lemma ExtendEnumeration(order: seq<string>, keys: set<string>, name: string)
    requires Enumerates(order, keys) && name !in keys
    ensures Enumerates(order + [name], keys + {name})
  {
  }
}

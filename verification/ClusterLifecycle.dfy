/** The cluster lifecycle as a labelled transition system: the state machine of one cluster,
    the API calls, the background workers, the connection checker and a restart, over the
    manager's list, the stored rows, the stop channels and the published events. */
module ClusterLifecycle {
  import opened Common
  import opened ClusterConfig

  // ---------------------------------------------------------------------------
  // The state machine of one cluster
  // ---------------------------------------------------------------------------

  datatype Status = Creating | CreateFailed | Running | Unreachable | Updating | Deleting | Deleted

  datatype FsmEvent =
    | CreateSucceedEvent | CreateFailedEvent | CreateCanceledEvent | ContinueCreateEvent
    | UpdateEvent | UpdateCompletedEvent | UpdateCanceledEvent
    | GetInfoFailedEvent | GetInfoSucceedEvent
    | DeleteEvent | DeleteCompletedEvent

  /** The transition table. */
  function Target(s: Status, e: FsmEvent): Option<Status> {
    match (s, e)
    case (Creating, CreateSucceedEvent) => Some(Running)
    case (Creating, CreateFailedEvent) => Some(CreateFailed)
    case (Creating, CreateCanceledEvent) => Some(CreateFailed)
    case (CreateFailed, ContinueCreateEvent) => Some(Creating)
    case (Running, UpdateEvent) => Some(Updating)
    case (Updating, UpdateCompletedEvent) => Some(Running)
    case (Updating, UpdateCanceledEvent) => Some(Running)
    case (Running, GetInfoFailedEvent) => Some(Unreachable)
    case (Unreachable, GetInfoSucceedEvent) => Some(Running)
    case (Running, DeleteEvent) => Some(Deleting)
    case (CreateFailed, DeleteEvent) => Some(Deleting)
    case (Unreachable, DeleteEvent) => Some(Deleting)
    case (Deleting, DeleteCompletedEvent) => Some(Deleted)
    case _ => None
  }

  predicate Can(s: Status, e: FsmEvent) {
    Target(s, e).Some?
  }

  // ---------------------------------------------------------------------------
  // The state
  // ---------------------------------------------------------------------------

  /** A stored row: the `Created` flag and the configuration. */
  datatype Row = Row(created: bool, config: Config)

  /** A goroutine in flight, with its own copy of the row it was started with. */
  datatype Worker = CreateWorker(state: Row) | UpdateWorker(state: Row) | DestroyWorker

  datatype Cluster = Cluster(
    name: string,
    status: Status,
    config: Config,
    workers: seq<Worker>,   // goroutines started for this cluster and not finished
    isCanceled: bool,
    hasCancel: bool,        // the cancel function is set
    stopCh: Option<nat>,    // which stop channel, if one was made
    hasClient: bool,        // kubeClient is set
    checker: bool)          // the connection check loop was started

  datatype Published = Created(name: string) | Removed(name: string)

  datatype World = World(
    clusters: seq<Cluster>,
    db: map<string, Row>,
    channels: nat,          // stop channels made so far
    closed: set<nat>,       // stop channels closed so far
    log: seq<Published>,    // events published since the process started
    panicked: bool)         // a nil or closed channel was closed, or a nil function called

  datatype Reply = Accepted | NotFound | DuplicateResource | InvalidOption | PermissionDenied | ServerError

  /** What the provisioning library and `setCache` did for a worker. */
  datatype CacheResult = CacheReady | HttpClientFailed | CacheFailed
  datatype Outcome = ProvisionFailed | Provisioned(cache: CacheResult)

  datatype Label =
    | CallCreate(name: string, req: Request)
    | CallUpdate(name: string, req: Request, storage: StorageNodes)
    | CallDelete(name: string)
    | CallCancel(name: string)
    | Finish(cluster: nat, worker: nat, outcome: Outcome)
    | Check(cluster: nat, reachable: bool)
    | Restart(order: seq<string>, initFailed: set<string>)

  // ---------------------------------------------------------------------------
  // Steps
  // ---------------------------------------------------------------------------

  /** Position of the first cluster with the given name, or the length of the list. */
  function IndexOf(clusters: seq<Cluster>, name: string): (i: nat)
    ensures i <= |clusters|
    ensures i < |clusters| ==> clusters[i].name == name
    ensures forall j :: 0 <= j < i ==> clusters[j].name != name
  {
    if clusters == [] then 0
    else if clusters[0].name == name then 0
    else
      var i := IndexOf(clusters[1..], name);
      assert forall j :: 1 <= j < 1 + i ==> clusters[j] == clusters[1..][j - 1];
      1 + i
  }

  function Set(w: World, i: nat, c: Cluster): World
    requires i < |w.clusters|
  {
    w.(clusters := w.clusters[i := c])
  }

  /** The callbacks that write the cluster's row. */
  predicate WritesRow(e: FsmEvent) {
    e in {CreateSucceedEvent, CreateFailedEvent, CreateCanceledEvent, UpdateCompletedEvent, UpdateCanceledEvent}
  }

  /** The cluster in its new state; the two cancel callbacks clear the mark. */
  function Entered(c: Cluster, s: Status, e: FsmEvent): Cluster {
    c.(status := s, isCanceled := c.isCanceled && e != CreateCanceledEvent && e != UpdateCanceledEvent)
  }

  /** The callback's write and publication. */
  function Recorded(w: World, name: string, e: FsmEvent, state: Row): World {
    w.(db := if WritesRow(e) then w.db[name := state] else w.db,
       log := if e == CreateSucceedEvent then w.log + [Created(name)] else w.log)
  }

  /** Send an event with its callback; an event the table does not allow is only logged. */
  function Send(w: World, i: nat, e: FsmEvent, state: Row): World
    requires i < |w.clusters|
  {
    var c := w.clusters[i];
    match Target(c.status, e)
    case None => w
    case Some(s) =>
      var w1 := Set(w, i, Entered(c, s, e));
      if e == DeleteCompletedEvent then RemoveCluster(w1, c.name) else Recorded(w1, c.name, e, state)
  }

  /** The list without the first cluster of that name. */
  function Unlisted(clusters: seq<Cluster>, name: string): seq<Cluster> {
    var k := IndexOf(clusters, name);
    if k < |clusters| then clusters[..k] + clusters[k + 1..] else clusters
  }

  /** Drop the first cluster of that name from the list, and its row. */
  function RemoveCluster(w: World, name: string): World {
    w.(clusters := Unlisted(w.clusters, name), db := w.db - {name})
  }

  function CreateCall(w: World, name: string, req: Request, valid: bool): (World, Reply) {
    if IndexOf(w.clusters, name) < |w.clusters| then (w, DuplicateResource)
    else if !valid then (w, InvalidOption)
    else
      var config := ToZke(req.nodes);
      var state := Row(false, config);
      var c := Cluster(name, Creating, config, [CreateWorker(state)], false, true, None, false, false);
      (w.(clusters := w.clusters + [c], db := w.db[name := state]), Accepted)
  }

  function UpdateCall(w: World, name: string, req: Request, valid: bool): (World, Reply) {
    var i := IndexOf(w.clusters, name);
    if i == |w.clusters| then (w, NotFound)
    else if !valid then (w, InvalidOption)
    else if name !in w.db then (w, ServerError)
    else
      var c := w.clusters[i];
      var created := w.db[name].created;
      if created && !Can(c.status, UpdateEvent) then (w, PermissionDenied)
      else StartUpdate(w, i, Row(created, ToZke(req.nodes)))
  }

  /** The new configuration is stored before the state machine is asked. */
  function StartUpdate(w: World, i: nat, state: Row): (World, Reply)
    requires i < |w.clusters|
  {
    var c := w.clusters[i];
    var e := if state.created then UpdateEvent else ContinueCreateEvent;
    var c1 := c.(config := state.config);
    var w1 := w.(db := w.db[c.name := state]);
    match Target(c.status, e)
    case None => (Set(w1, i, c1), ServerError)
    case Some(s) =>
      (Set(w1, i, c1.(status := s, workers := c.workers + [UpdateWorker(state)], hasCancel := true)), Accepted)
  }

  function CloseChannel(w: World, ch: Option<nat>): World {
    if ch.None? || ch.value in w.closed then w.(panicked := true)
    else w.(closed := w.closed + {ch.value})
  }

  function DeleteCall(w: World, name: string): (World, Reply) {
    var i := IndexOf(w.clusters, name);
    if i == |w.clusters| then (w, NotFound)
    else
      var c := w.clusters[i];
      if !Can(c.status, DeleteEvent) then (w, PermissionDenied)
      else if name !in w.db then (w, ServerError)
      else (StartDelete(w, i, w.db[name].created), Accepted)
  }

  function StartDelete(w: World, i: nat, created: bool): World
    requires i < |w.clusters|
  {
    var c := w.clusters[i];
    var w1 := Set(w, i, c.(status := Deleting, workers := c.workers + [DestroyWorker]));
    if created then CloseChannel(w1, c.stopCh).(log := w.log + [Removed(c.name)]) else w1
  }

  function CancelCall(w: World, name: string): (World, Reply) {
    var i := IndexOf(w.clusters, name);
    if i == |w.clusters| then (w, NotFound) else CancelFound(w, i)
  }

  function CancelFound(w: World, i: nat): (World, Reply)
    requires i < |w.clusters|
  {
    var c := w.clusters[i];
    if c.status != Creating && c.status != Updating then (w, PermissionDenied)
    else if c.isCanceled then (w, PermissionDenied)
    else (Set(w, i, c.(isCanceled := true)).(panicked := w.panicked || !c.hasCancel), Accepted)
  }

  /** `setCache`: makes a stop channel unless the http client already failed. */
  function SetCache(w: World, i: nat, r: CacheResult): World
    requires i < |w.clusters|
  {
    var c := w.clusters[i].(hasClient := true);
    if r == HttpClientFailed then Set(w, i, c)
    else Set(w, i, c.(stopCh := Some(w.channels))).(channels := w.channels + 1)
  }

  /** The event a finishing worker fires first. */
  function FirstEvent(c: Cluster, worker: Worker, outcome: Outcome): FsmEvent {
    match worker
    case DestroyWorker => DeleteCompletedEvent
    case CreateWorker(_) =>
      if c.isCanceled then CreateCanceledEvent
      else if outcome.Provisioned? && outcome.cache == CacheReady then CreateSucceedEvent
      else CreateFailedEvent
    case UpdateWorker(state) =>
      if c.isCanceled then (if state.created then UpdateCanceledEvent else CreateCanceledEvent)
      else if state.created then UpdateCompletedEvent
      else if outcome.Provisioned? && outcome.cache == CacheReady then CreateSucceedEvent
      else CreateFailedEvent
  }

  /** What is left of a worker after provisioning: it reads `isCanceled`, sets the cache and
      fires its events. An update worker that continues a creation and whose cache failed
      fires a second event, which the table then refuses. */
  function Complete(w: World, i: nat, worker: Worker, outcome: Outcome): World
    requires i < |w.clusters|
  {
    var c := w.clusters[i];
    var e := FirstEvent(c, worker, outcome);
    match worker
    case DestroyWorker => Send(w, i, e, Row(false, []))
    case CreateWorker(state) =>
      if c.isCanceled || outcome.ProvisionFailed? then Send(w, i, e, state)
      else
        var w1 := SetCache(w, i, outcome.cache);
        if outcome.cache != CacheReady then Send(w1, i, e, state)
        else Send(Set(w1, i, w1.clusters[i].(checker := true)), i, e, state.(created := true))
    case UpdateWorker(state) =>
      if c.isCanceled || outcome.ProvisionFailed? || state.created then Send(w, i, e, state)
      else
        var w1 := SetCache(w, i, outcome.cache);
        if outcome.cache == CacheReady then Send(w1, i, e, state.(created := true))
        else
          var w2 := Send(w1, i, e, state);
          if i < |w2.clusters| then Send(w2, i, CreateSucceedEvent, state.(created := true)) else w2
  }

  function FinishStep(w: World, i: nat, k: nat, outcome: Outcome): World
    requires i < |w.clusters| && k < |w.clusters[i].workers|
  {
    var c := w.clusters[i];
    Complete(Set(w, i, c.(workers := c.workers[..k] + c.workers[k + 1..])), i, c.workers[k], outcome)
  }

  /** One round of the connection check loop. */
  function CheckStep(w: World, i: nat, reachable: bool): World
    requires i < |w.clusters|
  {
    var c := w.clusters[i];
    if !c.checker || (c.stopCh.Some? && c.stopCh.value in w.closed) then w
    else Send(w, i, if reachable then GetInfoSucceedEvent else GetInfoFailedEvent, Row(false, []))
  }

  ghost predicate Enumerates(order: seq<string>, keys: set<string>) {
    && (forall i, j :: 0 <= i < j < |order| ==> order[i] != order[j])
    && (set n | n in order) == keys
  }

  function Fresh(db: map<string, Row>, channels: nat, log: seq<Published>): World {
    World([], db, channels, {}, log, false)
  }

  /** Reload one row into the manager. */
  function LoadRow(w: World, name: string, initOk: bool): World
    requires name in w.db
  {
    var row := w.db[name];
    if !row.created then
      w.(clusters := w.clusters + [Cluster(name, CreateFailed, row.config, [], false, false, None, false, false)])
    else if initOk then
      w.(clusters := w.clusters + [Cluster(name, Running, row.config, [], false, false, Some(w.channels), true, true)],
         channels := w.channels + 1,
         log := w.log + [Created(name)])
    else w
  }

  /** `loadDB` over the rows in the given order, into an empty manager. */
  function Load(db: map<string, Row>, order: seq<string>, initFailed: set<string>): (w: World)
    requires forall n <- order :: n in db
    ensures w.db == db
  {
    if order == [] then Fresh(db, 0, [])
    else
      var name := order[|order| - 1];
      LoadRow(Load(db, order[..|order| - 1], initFailed), name, name !in initFailed)
  }

  /** One step; a label that does not apply leaves the world as it is. */
  ghost function Step(w: World, l: Label): World {
    match l
    case CallCreate(name, req) => CreateCall(w, name, req, CreateAccepted(req)).0
    case CallUpdate(name, req, storage) => UpdateCall(w, name, req, ValidUpdate(w, name, req, storage)).0
    case CallDelete(name) => DeleteCall(w, name).0
    case CallCancel(name) => CancelCall(w, name).0
    case Finish(i, k, outcome) =>
      if i < |w.clusters| && k < |w.clusters[i].workers| then FinishStep(w, i, k, outcome) else w
    case Check(i, reachable) => if i < |w.clusters| then CheckStep(w, i, reachable) else w
    case Restart(order, initFailed) => if Enumerates(order, w.db.Keys) then Load(w.db, order, initFailed) else w
  }

  ghost predicate ValidUpdate(w: World, name: string, req: Request, storage: StorageNodes) {
    var i := IndexOf(w.clusters, name);
    i < |w.clusters| && UpdateAccepted(ToSc(w.clusters[i].config), req, w.clusters[i].hasClient, storage)
  }

  /** The world after a sequence of steps from an empty store. */
  ghost function Run(labels: seq<Label>): World {
    if labels == [] then Fresh(map[], 0, [])
    else Step(Run(labels[..|labels| - 1]), labels[|labels| - 1])
  }
}

# singlecloud: verified models of its state machines, buffers, caches and translations

singlecloud manages Kubernetes clusters. This project models, in Dafny, the parts of it that
hold state over time or translate between two representations, and proves what they keep over
every run, every interleaving or every input.

| component | modules |
|---|---|
| cluster lifecycle (`pkg/zke`) | `ClusterConfig`, `ConfigMeaning`, `ClusterLifecycle`, `LifecycleProofs`, `LifecycleTheorems`, `LifecycleCalls`, `ClusterManager` |
| subscriber of the cluster events (`pkg/k8seventwatcher/watchermanager.go`) | `WatcherManager` |
| global DNS syncer (`pkg/globaldns`) | `DnsSyncer`, `DnsTracking`, `DnsMeaning`, `ClusterDnsSyncer` |
| bounded broadcast buffers (`eventwatcher.go`, `log_manager.go`) | `Words`, `BroadcastBuffer`, `BroadcastRuns` |
| alarm cache (`pkg/alarm`) | `AlarmCache`, `AlarmSteps`, `AlarmGap`, `AlarmListener`, `AlarmStore` |
| audit log ring (`pkg/auditlog/storage`) | `AuditLog` |
| ingress rules, UDP ingresses, autoscaler rules, pod templates (`pkg/handler`) | `IngressRules`, `UdpIngress`, `HpaRules`, `HpaRuns`, `HpaCalls`, `PodTemplate`, `PodVolumes`, `PodMeaning` |
| helpers | `Common`, `Sorting`, `Text` |

Every component has the same shape. Specification functions give the effect of one step or one
translation. Classes and methods, with the loops and the in-place updates of the source, are
proved equal to those functions. Lemmas then prove, over the functions, what holds in every
reachable state; none of them mentions the bodies of the methods. What a single step, call or
translation means is stated a second time, on plain fields, positions and literal constants, in
the modules named `Meaning`, `Calls` and `Steps`, and proved of the functions.

## What the proofs show about the code

The lifecycle is a transition system over the manager's list, the stored rows, the workers in
flight, the cancel marks, the stop channels and the published events. In every reachable state
the stored `Created` flag agrees with the status, exactly one worker is in flight when a cluster
is busy, its first completion event is enabled, no stop channel is closed twice or while nil,
and the subscriber never meets a duplicate or an unknown cluster. The other components have
their own versions of this: the zone is the cross product of the two lists, a listener receives
an increasing subsequence and knows exactly what it missed, the alarm rows cover the list under
every interleaving of concurrent adds, the audit table is the latest block, the adapter's rules
are the initial ones plus those of the live autoscalers.

Where a desirable property fails, the condition under which it holds is proved to be exact, for
one step and, where runs are meant, all along a run:

- A valid update that arrives while its cluster is being created is refused, but its
  configuration has already replaced the one in memory and in the row. Memory, row and worker
  hold one configuration exactly until such an update (`StaysInStep`, `RunInStep`). No call,
  worker or check ever takes an address out of the control plane; a restart keeps them exactly
  when the row has all that memory has (`ControlPlaneNeverShrinks`), and after such an update it
  need not (`RestartCanShrink`).
- Evicting alarms deletes the keys counted up from the first id. List and table stay equal
  exactly as long as no eviction counts over a gap (`StepKeepsMirror`, `MirrorExact`), and a
  cluster deletion followed by a full list gets there (`GapIsReached`).
- At most one add is between its locked section and its increment, with its alarm listed last,
  exactly as long as no step takes that alarm away (`StaysSettled`); a deletion of its cluster
  makes the next add take the same id (`IdGivenTwice`).
- A listener's position is moved by counting alarms. It stays in place, and so receives each alarm
  exactly once, exactly as long as no add evicts and no cluster deletion removes an alarm ahead of
  it, and no deletion removes the alarm of an add in flight (`AlarmListener.RunExact`). A deletion
  ahead of it makes the last alarm arrive twice (`DeletionRepeatsLast`); a deletion of an alarm in
  flight that it had received makes it miss the next one (`ReusedIdIsMissed`).
- Hosts are compared as text but listed as names, and listed once however many ingresses claim
  them. The lists track the objects exactly as long as no update or deletion drops a host whose
  name is still claimed, by another ingress or in another spelling (`ListsTrackObjects`). Deleting
  one of two ingresses that share a host drops it (`SharedHostLost`), and so does changing its
  case (`RespellingLosesName`), although Kubernetes itself admits lower case hosts only. Where each
  name has one spelling and one claimant the lists always track (`CanonicalHostsTracked`).
- An ingress object that names one unlisted name twice lists it twice (`EventKeepsInv`,
  `ZoneExact`), and deleting an object that names it once then breaks the zone
  (`RepeatedHostBreaksZone`).
- A call on an autoscaler whose own write fails after the rules were written keeps the rules
  right exactly when it asked for the rules the autoscaler had (`CallExact`, `RunExact`).
  Otherwise a create leaves its rules behind and is refused when tried again
  (`FailedStoreLeaks`), and a delete or update leaves an autoscaler all of whose deletes and
  updates fail until some call asks for the lost alias (`FailedStoreSticks`, `StuckFails`,
  `StaysStuck`).
- An audit log limited to fewer than two records never evicts (`TooSmallNeverEvicts`). A reload,
  after any history of adds and reloads, is noticed exactly when a later add fails in evicting the
  absent key 0 (`RestartIsInvisible`, `CanBeToldApart`).
- Containers survive the translation to a pod specification and back exactly when protocols are
  lower case, ports fit in 32 bits and no mount name stands for two volumes
  (`PodTemplate.RoundTrip`); a claim named like a generated volume is lost (`LookalikeLost`).

## Model

| member | source | states |
|---|---|---|
| `LifecycleTheorems.ReachableClusters` | pkg/zke/manager.go:71-289 | in every reachable state: names are unique, each cluster has a row, Creating and CreateFailed mean not created, Running, Unreachable and Updating mean created with an open stop channel, exactly one worker in flight iff Creating, Updating or Deleting, a cancel mark only while Creating or Updating, and no channel was ever closed while nil or closed |
| `LifecycleTheorems.FirstEventEnabled` | pkg/zke/cluster.go:204-302 | in every reachable state, whatever provisioning and caching did, the first event a finishing worker fires is allowed by the transition table |
| `LifecycleTheorems.RestartRebuilds` | pkg/zke/manager.go:262-289 | a restart from any reachable state, in any row order, satisfies the same invariant, keeps the rows, holds exactly the stored names except created ones whose connection failed, and makes created rows Running and the others CreateFailed with nothing in flight |
| `LifecycleTheorems.RestartIsComplete` | pkg/zke/manager.go:262-289 | when every connection succeeds the manager's names are the stored names |
| `LifecycleTheorems.PublishedEventsAlternate` | pkg/zke/fsm.go:50-64 | in every run the create and delete events about each name alternate starting with a create, any prefix is free of duplicates and unknown deletes, and the fold of all of it is the set of clusters that are up |
| `LifecycleTheorems.RefusedCalls` | pkg/zke/manager.go:113-158 | refused creates, deletes and cancels change nothing; a refused update changes nothing except in the server-error case, which arises exactly when a valid update meets a cluster that was never created and is not CreateFailed, and then memory and row both hold the refused configuration |
| `LifecycleTheorems.StaysInStep` | pkg/zke/manager.go:130-158 | memory, row and worker in flight hold one configuration after a step if and only if the step is not a valid update that changes the nodes of a cluster in creation |
| `LifecycleTheorems.RunInStep` | pkg/zke/manager.go:113-158 | the three copies agree all along a run if and only if no step of it is such an update |
| `LifecycleTheorems.ControlPlaneNeverShrinks` | pkg/zke/validation.go:139-156 | from every reachable state no call, worker completion or check takes a controlplane address away from a cluster, and a restart keeps them if and only if the row, before it, has every controlplane address that memory has |
| `LifecycleTheorems.InStepNeverShrinks` | pkg/zke/manager.go:113-158 | in runs without an update refused in flight not even a restart takes a controlplane address away |
| `LifecycleTheorems.ConfigsAlwaysGood` | pkg/zke/manager.go:71-158 | in every reachable state every configuration in memory, in a row or held by a worker has distinct names and addresses, both roles present, and each node exactly one of controlplane and worker |
| `LifecycleTheorems.RestartCanShrink` | pkg/zke/manager.go:130-158 | a concrete run in which a refused in-flight update and a restart remove a controlplane address |
| `LifecycleTheorems.RefusedInFlight` | pkg/zke/manager.go:136-158 | for every pair of valid requests, create, update in flight, successful completion leaves the refused nodes in memory and the created ones in the row |
| `LifecycleCalls.CheckFollowsServer` | pkg/zke/cluster.go:159-173 | in every reachable state a check of a cluster that is Running or Unreachable with its loop started makes it Running iff the server answered, and Unreachable otherwise; in any other status, without a loop, and for all other clusters it does nothing |
| `LifecycleCalls.CheckStops` | pkg/zke/cluster.go:161-164 | in any state a loop that was not started or whose channel is closed does nothing |
| `LifecycleCalls.DeleteDecides` | pkg/zke/manager.go:211-246 | a delete is accepted iff the cluster is Running, Unreachable or CreateFailed; then it is Deleting with one destroy worker, and unless it was CreateFailed its open channel is closed and its end published; otherwise permission is denied and nothing changes |
| `LifecycleCalls.CreateDecides` | pkg/zke/manager.go:71-111 | a create is accepted iff the name is new and the request valid, with the reply for each other case; then a Creating cluster with one create worker is appended and its row says not created |
| `LifecycleCalls.UpdateDecides` | pkg/zke/manager.go:113-158 | a valid update is accepted iff the cluster is Running or CreateFailed, which mean created and not created; permission is denied iff it is created and not Running, a server error iff it is not created and not CreateFailed |
| `LifecycleCalls.UpdateStarts` | pkg/zke/manager.go:136-158 | an accepted update turns Running into Updating and CreateFailed into Creating, with the new configuration in memory, in the row and in its one worker |
| `LifecycleCalls.CancelDecides` | pkg/zke/cluster.go:114-125 | a cancel is accepted iff the cluster is Creating or Updating and not being cancelled already, and only leaves its mark |
| `LifecycleCalls.UnknownName` | pkg/zke/manager.go:113-260 | update, delete and cancel of an unknown name are not found and change nothing |
| `LifecycleCalls.CreationEnds` | pkg/zke/cluster.go:204-281 | a creation ends Running, with a created row and a create event, iff it was not cancelled, the machines were provisioned and the cache was set; otherwise CreateFailed, with a row that is not created and no event |
| `LifecycleCalls.UpdateEnds` | pkg/zke/cluster.go:238-275 | an update ends Running whatever happened to it, and publishes nothing |
| `LifecycleCalls.DestroyEnds` | pkg/zke/cluster.go:283-302 | a destroy worker takes its cluster and row away whatever happened to the machines |
| `LifecycleCalls.ReloadedAll` | pkg/zke/manager.go:262-289 | a reloaded created row is Running with a client, an open channel and its loop started; another is CreateFailed with none of them |
| `LifecycleTheorems.WatchedAlternates` | pkg/k8seventwatcher/watchermanager.go:28-60 | a log that folds without a warning alternates for each name, and a name is watched iff it has an odd number of events |
| `LifecycleTheorems.RunKeeps` | pkg/zke/fsm.go:36-139 | the whole lifecycle invariant holds after every sequence of steps |
| `LifecycleProofs.StepKeeps` | pkg/zke/fsm.go:36-139 | every call, worker completion, connection check and restart keeps the lifecycle invariant |
| `LifecycleProofs.ReplaceKeeps` | pkg/zke/db.go:48-75 | replacing one cluster and its row, with at most one new channel, one closed channel and the matching published event, keeps the invariant |
| `LifecycleProofs.AppendKeeps` | pkg/zke/manager.go:291-293 | appending a cluster whose name is new keeps the invariant and adds exactly that name |
| `LifecycleProofs.RemoveKeeps` | pkg/zke/manager.go:299-309 | dropping a cluster that is not up, with its row, keeps the invariant |
| `LifecycleProofs.FinishReplaces` | pkg/zke/cluster.go:204-281 | a finishing create or update worker leaves exactly one changed cluster, its row with `Created` true iff it ends up Running, at most one new channel and at most one create event, also when it fires two events |
| `LifecycleProofs.FinishRemoves` | pkg/zke/cluster.go:283-302 | a finishing destroy worker takes away exactly its own cluster and row |
| `LifecycleProofs.FinishKeeps` | pkg/zke/cluster.go:204-302 | any worker completion keeps the invariant |
| `LifecycleProofs.UpdateCallKeeps` | pkg/zke/manager.go:113-158 | an update, accepted or refused, keeps the invariant |
| `LifecycleProofs.DeleteCallKeeps` | pkg/zke/manager.go:211-246 | a delete keeps the invariant: the channel it closes was open |
| `LifecycleProofs.CancelCallKeeps` | pkg/zke/cluster.go:114-125 | a cancel keeps the invariant: the cancel function it calls was set |
| `LifecycleProofs.CheckKeeps` | pkg/zke/cluster.go:159-173 | a connection check keeps the invariant |
| `LifecycleProofs.LoadKeeps` | pkg/zke/manager.go:262-289 | loading distinct rows in any order satisfies the invariant and manages exactly the rows that are not created or could be connected |
| `ClusterManager.ManagedCluster.Cancel` | pkg/zke/cluster.go:114-125 | succeeds iff the cluster is Creating or Updating and not already being cancelled, and then only sets the mark |
| `ClusterManager.ZkeManager.Get` | pkg/zke/manager.go:182-189 | finds the first cluster of that name |
| `ClusterManager.ZkeManager.Create` | pkg/zke/manager.go:71-111 | reply and whole new state are those of the lifecycle's create step |
| `ClusterManager.ZkeManager.Update` | pkg/zke/manager.go:113-158 | reply and whole new state are those of the lifecycle's update step, with the validators of the source deciding validity |
| `ClusterManager.ZkeManager.Delete` | pkg/zke/manager.go:211-246 | reply and whole new state are those of the lifecycle's delete step |
| `ClusterManager.ZkeManager.CancelCluster` | pkg/zke/manager.go:248-260 | reply and whole new state are those of the lifecycle's cancel step |
| `ClusterManager.ZkeManager.Remove` | pkg/zke/manager.go:299-309 | the list loses the first cluster of that name and nothing else |
| `ClusterManager.ZkeManager.Event` | pkg/zke/fsm.go:36-139 | an allowed event and its callback change status, cancel mark, row, list and log as the lifecycle's send step; a disallowed one changes nothing |
| `ClusterManager.ZkeManager.SetClusterCache` | pkg/zke/cluster.go:175-191 | makes a new stop channel unless the http client failed |
| `ClusterManager.ZkeManager.FinishWorker` | pkg/zke/cluster.go:204-302 | a worker's completion performs the lifecycle's finish step |
| `ClusterManager.ZkeManager.FinishCreate` | pkg/zke/cluster.go:215-235 | the create worker after provisioning performs the lifecycle's completion step |
| `ClusterManager.ZkeManager.FinishUpdate` | pkg/zke/cluster.go:250-280 | the update worker after provisioning performs the lifecycle's completion step, including the second event after a failed cache |
| `ClusterManager.ZkeManager.CheckConnection` | pkg/zke/cluster.go:159-173 | one round of the loop performs the lifecycle's check step, and nothing once the channel is closed |
| `ClusterManager.ZkeManager.LoadDb` | pkg/zke/manager.go:262-289 | loads every row exactly once, in some order, as the lifecycle's load |
| `WatcherManager.Watchers.Handle` | pkg/k8seventwatcher/watchermanager.go:28-60 | warns iff a create is for a watched name or a delete for an unwatched one, and changes only that name otherwise |
| `WatcherManager.Watchers.EventLoop` | pkg/k8seventwatcher/watchermanager.go:28-60 | over any prefix of the log of any lifecycle run it never warns, and after the whole log it watches exactly the clusters that are up |
| `ClusterConfig.ScClusterToZkeNodes` | pkg/zke/zke.go:93-109 | the stored nodes are the given ones, each controlplane role followed by an etcd role |
| `ClusterConfig.ToScCluster` | pkg/zke/cluster.go:323-335 | the shown nodes are the stored ones without their etcd roles |
| `ClusterConfig.StripUndoesAdd` | pkg/zke/cluster.go:328-333 | the etcd role one conversion adds is stripped by the other |
| `ClusterConfig.RoundTrip` | pkg/zke/zke.go:93-109 | storing and showing gives the node list back if and only if the caller gave no node the etcd role |
| `ClusterConfig.ValidateDuplicateNodes` | pkg/zke/validation.go:87-102 | accepts iff names and addresses are pairwise distinct |
| `ClusterConfig.ValidateNodeCount` | pkg/zke/validation.go:104-119 | accepts iff there is a controlplane node and a worker node |
| `ClusterConfig.IsNodeRoleDuplicate` | pkg/zke/validation_util.go:28-34 | true iff some role occurs twice |
| `ClusterConfig.ValidateNodeRoles` | pkg/zke/validation.go:121-137 | accepts iff every node is exactly one of controlplane and worker and repeats no role |
| `ClusterConfig.ValidateCannotDeleteNode` | pkg/zke/validation.go:139-156 | accepts iff every old controlplane address is a controlplane address of the new list |
| `ClusterConfig.IsNodeRolesChanged` | pkg/zke/validation_util.go:13-26 | true iff the two role sets differ |
| `ClusterConfig.ValidateNodesUnchanged` | pkg/zke/validation.go:171-195 | accepts iff every kept address keeps its role set and its name |
| `ClusterConfig.ValidateToDeleteStorageNodes` | pkg/zke/validation.go:54-69 | accepts iff for every removed node the storage lookup succeeds and says that it is not in use |
| `ClusterConfig.ValidateConfigForCreate` | pkg/zke/validation.go:30-37 | accepts exactly the good node lists with a key and valid other fields |
| `ClusterConfig.ValidateConfigForUpdate` | pkg/zke/validation.go:39-52 | accepts exactly the good node lists that keep controlplane addresses, kept identities and storage nodes |
| `ClusterConfig.GoodNodesStored` | pkg/zke/zke.go:50-109 | an accepted node list is still good when stored and shown |
| `ClusterConfig.UpdateKeeps` | pkg/zke/manager.go:125-139 | through both conversions, an accepted update yields a good configuration, never loses a controlplane address, and a kept address keeps its name and roles |
| `ClusterConfig.ChainKeepsControlPlane` | pkg/zke/validation.go:30-52 | along any chain of accepted updates every configuration is good, controlplane addresses never shrink and controlplane nodes keep their identity between any two points |
| `ConfigMeaning.CreateMeans` | pkg/zke/validation.go:30-37 | what a create accepts, on positions and role counts: distinct names and addresses, a controlplane and a worker, each node exactly one of them and no role twice, a key, other fields valid |
| `ConfigMeaning.UpdateMeans` | pkg/zke/validation.go:39-69 | what an update accepts, likewise: every old controlplane address is one still, kept addresses keep name and roles, and no node is missing that storage uses or cannot answer for |
| `ConfigMeaning.AddedRoles` | pkg/zke/zke.go:93-109 | storing adds exactly one etcd role for each controlplane role |
| `ConfigMeaning.AddedBehind` | pkg/zke/zke.go:93-109 | each etcd role added stands right behind its controlplane role |
| `ConfigMeaning.ShownCounts` | pkg/zke/cluster.go:328-333 | showing takes away exactly the etcd roles |
| `ConfigMeaning.ShownInOrder` | pkg/zke/cluster.go:328-333 | showing keeps the other roles in their order |
| `ConfigMeaning.GoodConfigMeans` | pkg/zke/validation.go:87-137 | what every stored configuration satisfies, on the stored roles |
| `DnsSyncer.ZoneIsCrossProduct` | pkg/globaldns/clusterdnssyncer.go:148-379 | after every event sequence whose ingress objects name distinct hosts, the A records are exactly domains times addresses and both lists are duplicate-free |
| `DnsSyncer.ZoneExact` | pkg/globaldns/clusterdnssyncer.go:148-379 | that holds all along any event sequence if and only if no event names one unlisted in-zone name at two newly spelled positions |
| `DnsSyncer.EventKeepsInv` | pkg/globaldns/clusterdnssyncer.go:148-379 | one event keeps that invariant if and only if it is not a parsable ingress in which two positions, neither spelled as before, resolve to one in-zone name that is not listed |
| `DnsSyncer.CommandsAreExact` | pkg/globaldns/proxy.go:78-102 | after every such sequence, each command the next event sends adds only records that are absent and deletes only records that are present |
| `DnsSyncer.CommandsMakeZone` | pkg/globaldns/proxy.go:78-102 | each event sends at most one command, and applying it to the zone gives the zone after the event |
| `DnsSyncer.RepeatedHostBreaksZone` | pkg/globaldns/clusterdnssyncer.go:235-340 | adding an object that names an unlisted host twice and deleting one that names it once leaves the name listed with none of its records in the zone |
| `DnsTracking.ListsTrackObjects` | pkg/globaldns/clusterdnssyncer.go:96-379 | over every object history the addresses are those of the ready edge nodes, the domains the in-zone hosts of the live ingresses and the zone their cross product, all along, if and only if no update or deletion drops a host whose name is still claimed, by another object or in another spelling |
| `DnsTracking.ChangeTracked` | pkg/globaldns/clusterdnssyncer.go:96-379 | one change of nodes or ingresses is tracked if and only if it drops no such host |
| `DnsTracking.CanonicalHostsTracked` | pkg/globaldns/clusterdnssyncer.go:96-379 | when each name has one spelling and no two objects claim one name at once, the lists track the history all along |
| `DnsTracking.IngressChangedTracked` | pkg/globaldns/clusterdnssyncer.go:283-303 | an ingress update is tracked if and only if no host it drops stands for a name claimed after it |
| `DnsTracking.NodeChangeTracked` | pkg/globaldns/clusterdnssyncer.go:139-233 | adding, changing and deleting a node keeps the tracking |
| `DnsTracking.IngressAddedTracked` | pkg/globaldns/clusterdnssyncer.go:235-259 | a new ingress object keeps the tracking |
| `DnsTracking.IngressGoneTracked` | pkg/globaldns/clusterdnssyncer.go:316-340 | a deleted ingress is tracked if and only if no other ingress claims a name of it |
| `DnsTracking.LostSpelling` | pkg/globaldns/clusterdnssyncer.go:342-379 | respelling a kept host drops its name although an ingress still claims it |
| `DnsTracking.RespellingLosesName` | pkg/globaldns/clusterdnssyncer.go:342-379 | with names compared without case, changing the host of the only ingress from a to A drops a listed and live name |
| `DnsTracking.SharedHostLost` | pkg/globaldns/clusterdnssyncer.go:316-340 | deleting one of two ingresses with the same host drops a listed and live name |
| `DnsMeaning.ListsMean` | pkg/globaldns/clusterdnssyncer.go:96-379 | along every history that drops no claimed name: an address is listed iff some edge node has it as its first nonempty internal or external address and has, at some place, a condition of type ready whose status is true; a name iff a live ingress has at some place a host for it; a record iff name and address are listed |
| `DnsMeaning.NewNodeLists` | pkg/globaldns/clusterdnssyncer.go:96-103 | a node event lists an address iff the node is an edge node, has a ready condition that is true and has that first address |
| `DnsMeaning.DeletedNodeGoes` | pkg/globaldns/clusterdnssyncer.go:199-233 | a deleted edge node that was ready takes its address off the list, and no other deletion does |
| `DnsMeaning.UpdatedNodeFollows` | pkg/globaldns/clusterdnssyncer.go:179-197 | an edge node that becomes ready is listed, one that stops being ready is taken off, any other update changes nothing |
| `DnsMeaning.NewIngressLists` | pkg/globaldns/clusterdnssyncer.go:235-259 | a new ingress lists exactly its in-zone names in addition; one unparsable host and it does nothing |
| `DnsMeaning.DeletedIngressGoes` | pkg/globaldns/clusterdnssyncer.go:316-340 | a deleted ingress takes exactly its in-zone names away; one unparsable host and it does nothing |
| `DnsMeaning.UpdatedIngressFollows` | pkg/globaldns/clusterdnssyncer.go:283-379 | an update takes away the listed names of hosts no longer spelled and lists the unlisted names of newly spelled ones; one unparsable host among those and it does nothing |
| `DnsSyncer.FirstIp` | pkg/globaldns/clusterdnssyncer.go:168-177 | the address at the least place that is internal or external and not empty, and the empty text iff there is none |
| `ClusterDnsSyncer.GenAuthRRs` | pkg/globaldns/proxy.go:104-119 | one record per domain and address, together exactly the cross product |
| `ClusterDnsSyncer.DnsSyncerObject.constructor` | pkg/globaldns/clusterdnssyncer.go:68-90 | the initial state is that of one new-node event per listed node |
| `ClusterDnsSyncer.DnsSyncerObject.AddAuthRRs` | pkg/globaldns/proxy.go:78-84 | the zone gains exactly the cross product, also when a list is empty |
| `ClusterDnsSyncer.DnsSyncerObject.DeleteAuthRRs` | pkg/globaldns/proxy.go:86-92 | the zone loses exactly the cross product |
| `ClusterDnsSyncer.DnsSyncerObject.UpdateAuthRRs` | pkg/globaldns/proxy.go:94-102 | the zone loses the old cross product, then gains the new one |
| `ClusterDnsSyncer.DnsSyncerObject.OnNewNode` | pkg/globaldns/clusterdnssyncer.go:96-146 | performs the new-node step of the specification |
| `ClusterDnsSyncer.DnsSyncerObject.OnUpdateNode` | pkg/globaldns/clusterdnssyncer.go:179-187 | performs the node-update step |
| `ClusterDnsSyncer.DnsSyncerObject.OnDeleteNode` | pkg/globaldns/clusterdnssyncer.go:199-206 | performs the node-delete step |
| `ClusterDnsSyncer.DnsSyncerObject.AddEdgeNode` | pkg/globaldns/clusterdnssyncer.go:148-166 | adds an unlisted nonempty address and its records |
| `ClusterDnsSyncer.DnsSyncerObject.DeleteEdgeNode` | pkg/globaldns/clusterdnssyncer.go:208-233 | removes a listed address and its records |
| `ClusterDnsSyncer.DnsSyncerObject.OnNewIngressObject` | pkg/globaldns/clusterdnssyncer.go:235-259 | performs the new-ingress step; an unparsable host changes nothing |
| `ClusterDnsSyncer.DnsSyncerObject.OnUpdateIngressObject` | pkg/globaldns/clusterdnssyncer.go:283-303 | performs the ingress-update step |
| `ClusterDnsSyncer.DnsSyncerObject.OnDeleteIngressObject` | pkg/globaldns/clusterdnssyncer.go:316-340 | performs the ingress-delete step |
| `ClusterDnsSyncer.DnsSyncerObject.DiffIngressRules` | pkg/globaldns/clusterdnssyncer.go:342-379 | fails iff a host only in the first list does not parse, otherwise yields the in-zone names of those hosts that are, or are not, listed |
| `ClusterDnsSyncer.DnsSyncerObject.DeleteIngressDomains` | pkg/globaldns/clusterdnssyncer.go:305-314 | cuts the first occurrence of each given domain |
| `BroadcastBuffer.Watcher.Add` | pkg/k8seventwatcher/eventwatcher.go:92-106 | the list is the old one and the value under the next id, without its oldest entry iff it was full; ids stay consecutive |
| `BroadcastBuffer.Watcher.GetAfterId` | pkg/k8seventwatcher/eventwatcher.go:150-209 | panics iff the id is past the newest entry of a nonempty buffer; otherwise, with next the greater of id + 1 and the oldest id, the count is the smaller of the buffer length and the number of entries from next on, buf[i] is the value under next + i, the last id is next + count - 1, and the rest of buf is untouched |
| `BroadcastBuffer.Watcher.FromOutdated` | pkg/k8seventwatcher/eventwatcher.go:181-187 | the forward seek, panicking iff nothing is newer |
| `BroadcastBuffer.Watcher.FromLatest` | pkg/k8seventwatcher/eventwatcher.go:189-196 | the backward seek, panicking iff nothing is newer |
| `BroadcastBuffer.Watcher.FromElem` | pkg/k8seventwatcher/eventwatcher.go:198-209 | copies entries from the given place until buffer or list ends, and computes the last id without underflow |
| `BroadcastBuffer.Listener.Publish` | pkg/k8seventwatcher/eventwatcher.go:119-148 | panics iff the position is past the newest entry; otherwise sends the smaller of a quarter of the buffer size and what is left from the next entry on, in order, and moves the position to the last id sent |
| `BroadcastBuffer.NextBatch` | pkg/k8seventwatcher/eventwatcher.go:150-209 | over consecutive ids a read yields the stretch from the next id, or the oldest, until list or buffer ends |
| `BroadcastRuns.DeliveredIsSubsequence` | pkg/k8seventwatcher/eventwatcher.go:92-148 | in every run of adds and reads a listener receives a strictly increasing subsequence of what was added, and each id it passed was delivered or had been evicted at a read that jumped over it |
| `BroadcastRuns.PollIsSafe` | pkg/zke/zkelog/log_manager.go:130-190 | in every run the position never passes the newest entry, so no read panics, and a read that finds nothing means the listener is up to date |
| `BroadcastRuns.PollTakesNext` | pkg/k8seventwatcher/eventwatcher.go:119-148 | in every run a poll hands over, of all that was ever added, the entries from the next id on, as many as a quarter of the buffer size or all there are, and moves the position to the last of them |
| `BroadcastRuns.BufferIsLatest` | pkg/k8seventwatcher/eventwatcher.go:92-106 | in every run the buffer is the latest stretch of what was added, all of it or as much as fits, under consecutive ids |
| `BroadcastRuns.NeverLappedGetsEverything` | pkg/zke/zkelog/log_manager.go:103-159 | a listener never lapped has received exactly the stretch from the oldest entry of its first read to its position |
| `BroadcastRuns.PolledBatch` | pkg/k8seventwatcher/eventwatcher.go:150-209 | what a poll hands over is a stretch of what was added, beginning right after the position or at the oldest buffered entry |
| `BroadcastRuns.RunKeeps` | pkg/k8seventwatcher/eventwatcher.go:92-148 | the buffer is always the latest stretch of what was added, and the listener's position and history are accounted for |
| `BroadcastRuns.Drive` | pkg/k8seventwatcher/eventwatcher.go:92-148 | a watcher and a listener driven through any steps are in the state of the run, buffer, counter, position and what was sent, and no read panics |
| `Common.AboveIsSuffix` | pkg/zke/zkelog/log_manager.go:161-207 | where the ids cross the argument at one point, the entries with a greater id are the suffix from that point, which is what both seeks and the alarm scan find |
| `AlarmCache.InterleavingsKeepRows` | pkg/alarm/alarmcache.go:147-258 | under any interleaving of locked sections, increments, evictions, cluster deletions, acknowledgements and restarts, ids grow strictly along the list, the last is at most `eventID`+1 and every listed alarm has its row |
| `AlarmSteps.AddDecides` | pkg/alarm/alarmcache.go:147-177 | an add is taken iff no row has the next id and the list is empty or its last alarm differs in cluster, kind, name, reason, message or namespace, the empty one for the four cluster kinds; a taken alarm is listed last and stored with those fields; otherwise nothing changes |
| `AlarmSteps.AddEvicts` | pkg/alarm/alarmcache.go:222-240 | with a thousand listed, a taken alarm is listed too, then the first alarm goes with those right behind it up to the first younger than the cutoff, and as many keys counted up from the first id |
| `AlarmSteps.DifferentAlarmsBothListed` | pkg/alarm/alarmcache.go:147-177 | two finished adds that differ in any one of the fields are both listed, one behind the other |
| `AlarmSteps.RepeatIsDropped` | pkg/alarm/alarmcache.go:264-271 | the same alarm again right behind the first is dropped |
| `AlarmSteps.AcknowledgeDecides` | pkg/alarm/alarmcache.go:179-192 | an acknowledgement replaces the row and sets the flag of the listed alarm with that id and nothing else; without a row it changes nothing |
| `AlarmSteps.DeleteDecides` | pkg/alarm/alarmcache.go:242-258 | a cluster deletion takes away exactly the listed alarms of the cluster and their rows, in order |
| `AlarmSteps.RestartDecides` | pkg/alarm/alarmcache.go:63-75 | a restart lists the rows by id and continues behind the last |
| `AlarmCache.StepKeeps` | pkg/alarm/alarmcache.go:147-258 | every step keeps that invariant |
| `AlarmCache.EvictionKeepsRows` | pkg/alarm/alarmcache.go:222-240 | counting keys up from the first id never reaches the row of an alarm that stays, gaps or not |
| `AlarmCache.EvictionKeepsMirror` | pkg/alarm/alarmcache.go:222-240 | eviction keeps list and table keys equal if and only if the evicted ids are consecutive |
| `AlarmCache.StepKeepsMirror` | pkg/alarm/alarmcache.go:147-258 | every step keeps list and table keys equal, except exactly an add that evicts over a gap |
| `AlarmCache.MirrorExact` | pkg/alarm/alarmcache.go:147-258 | list and table keys are equal all along an interleaving if and only if no add of it evicts over a gap |
| `AlarmGap.GapIsReached` | pkg/alarm/alarmcache.go:222-258 | a run that deletes the cluster of the second alarm and then fills the list reaches an add that evicts over the missing id and leaves rows behind |
| `AlarmListener.ListenerGetsEachOnce` | pkg/alarm/alarmcache.go:91-258 | in runs of concurrent adds, acknowledgements, cluster deletions and reads that keep the listener in place, it receives each alarm above its starting id exactly once, in id order and unchanged but for the acknowledged flag, the rest being listed ahead of it |
| `AlarmListener.StepExact` | pkg/alarm/alarmcache.go:103-258 | a step keeps the listener in place if and only if it evicts and deletes nothing ahead of it and leaves the add in flight its alarm |
| `AlarmListener.RunExact` | pkg/alarm/alarmcache.go:103-258 | the listener is in place all along a run if and only if every step of it is such |
| `AlarmListener.PollSends` | pkg/alarm/alarmcache.go:103-145 | a poll sends exactly the alarms from the first id above the position on and moves the position by their number |
| `AlarmListener.LagRepeats` | pkg/alarm/alarmcache.go:103-130 | whenever fewer alarms are ahead than ids, the counted position stays below the last id and two polls send the last alarm twice |
| `AlarmListener.DeletionRepeatsLast` | pkg/alarm/alarmcache.go:103-258 | a cluster deletion that takes an alarm from ahead of the listener, but not the last one, makes the last one arrive twice |
| `AlarmListener.DeletionReusesId` | pkg/alarm/alarmcache.go:147-258 | a deletion of the alarm of an add in flight lets the next add take its id |
| `AlarmListener.ReusedIdIsMissed` | pkg/alarm/alarmcache.go:103-258 | a listener that had received the deleted alarm does not get the one that takes its id |
| `AlarmListener.LateListenerGetsEachOnce` | pkg/alarm/alarmcache.go:91-258 | the same for a listener added after any history of adds, deletions, acknowledgements and restarts in which, since the last restart, no add in flight lost its alarm |
| `AlarmListener.StaysSettled` | pkg/alarm/alarmcache.go:147-258 | at most one add is between its locked section and its increment and its alarm is last: a step keeps this if and only if it is not a deletion of that alarm's cluster nor an add that evicts its own alarm |
| `AlarmListener.SettledRuns` | pkg/alarm/alarmcache.go:63-258 | that holds after every history whose steps since the last restart kept it |
| `AlarmListener.IdGivenTwice` | pkg/alarm/alarmcache.go:147-258 | an add, a deletion of its cluster before the increment, and another add: both take id 1 |
| `AlarmStore.AlarmStoreObject.constructor` | pkg/alarm/alarmcache.go:63-75 | loads the rows sorted by id and takes the last id as counter |
| `AlarmStore.LoadRows` | pkg/alarm/table.go:47-68 | exactly the rows of the table, ids strictly increasing |
| `AlarmStore.AlarmStoreObject.AddAlarm` | pkg/alarm/alarmcache.go:147-177 | the locked section takes the alarm iff it is no repeat and its row is free, and performs the add step with its eviction |
| `AlarmStore.AlarmStoreObject.FinishAdd` | pkg/alarm/alarmcache.go:170-177 | performs the increment step after the lock was released |
| `AlarmStore.AlarmStoreObject.Acknowledge` | pkg/alarm/alarmcache.go:179-192 | succeeds iff there is a row and a listed alarm with that id, panics iff there is a row and the list is empty, and performs the acknowledge step, in which the row is replaced first |
| `AlarmStore.AlarmStoreObject.DeleteOldest` | pkg/alarm/alarmcache.go:222-240 | performs the eviction step: first alarm and the old ones right behind it, keys counted up |
| `AlarmStore.AlarmStoreObject.DeleteAlarmForCluster` | pkg/alarm/alarmcache.go:242-258 | list and table lose exactly the listed alarms of the cluster |
| `AlarmStore.AlarmStoreObject.GetAlarmsAfterId` | pkg/alarm/alarmcache.go:132-145 | scan back, sort: exactly the alarms with a greater id, in id order |
| `AlarmStore.AlarmStoreObject.GetAlarmFromList` | pkg/alarm/alarmcache.go:194-220 | for every list with unique ids and every id, also those that make the unsigned distances wrap, the same answer from either end: the alarm with that id, or missing iff there is none; panics iff the list is empty |
| `AuditLog.TableIsLatestBlock` | pkg/auditlog/storage/storage.go:40-98 | after any history of adds and reloads, in which adds may fail in their eviction or after it, the keys are one block ending at the number of records written, at most `maxRecordCount` long, each row the record written under that number |
| `AuditLog.LatestAreKept` | pkg/auditlog/storage/storage.go:81-98 | after any history the last `maxRecordCount - 1` records written are in the table, whatever failed |
| `AuditLog.ReloadKeeps` | pkg/auditlog/storage/storage.go:40-56 | a reload keeps the block invariant and differs from the driver it replaces at most in a first id of 0 that becomes 1 |
| `AuditLog.RestartIsInvisible` | pkg/auditlog/storage/storage.go:40-56 | a driver reloaded after any history of adds and reloads has the same table and counter as the one it replaced after each of any later adds and reloads if and only if no later add fails in evicting the absent key 0 where its write would succeed |
| `AuditLog.EvictionsSucceed` | pkg/auditlog/storage/storage.go:81-98 | so the restart is invisible for all later steps when no eviction fails |
| `AuditLog.CanBeToldApart` | pkg/auditlog/storage/storage.go:40-98 | a reload after the first of two records and a failing eviction that tells the drivers apart |
| `AuditLog.TooSmallNeverEvicts` | pkg/auditlog/storage/storage.go:40-98 | with fewer than two records allowed the unsigned bound wraps around and over any adds and reloads nothing is ever evicted |
| `AuditLog.AlikeStep` | pkg/auditlog/storage/storage.go:40-98 | one add or reload keeps the original and the reloaded driver alike if and only if it is not such an add |
| `AuditLog.DefaultDriver.constructor` | pkg/auditlog/storage/storage.go:40-56 | sorts the stored records and takes the least and the greatest id |
| `AuditLog.DefaultDriver.Add` | pkg/auditlog/storage/storage.go:81-98 | performs the add step: a failing eviction ends it, a failing write leaves the eviction done |
| `IngressRules.ValidateAndSortRules` | pkg/handler/ingress_manager.go:263-301 | sorts, and accepts exactly the lists with nonempty hosts and paths and no repeated (host, path) anywhere |
| `IngressRules.ScIngressToK8sIngress` | pkg/handler/ingress_manager.go:164-193 | succeeds iff accepted, and yields the grouping of a sorted permutation of the rules |
| `IngressRules.K8sIngressToScIngress` | pkg/handler/ingress_manager.go:222-261 | panics iff a rule has no HTTP section, otherwise lists the rules host by host, path by path |
| `IngressRules.TranslationShape` | pkg/handler/ingress_manager.go:164-193 | hosts increase strictly, every host has a path, and flattening gives a strictly sorted permutation of the input |
| `IngressRules.TranslationMeans` | pkg/handler/ingress_manager.go:164-193 | the groups have exactly the paths and backends of the rules under their hosts; hosts, and the paths of each host, ascend |
| `IngressRules.AcceptedMeans` | pkg/handler/ingress_manager.go:263-285 | what is accepted, place by place |
| `IngressRules.RuleLessMeans` | pkg/handler/ingress_manager.go:289-297 | rules are ordered by host, and by path within a host |
| `Text.LessMeans` | pkg/handler/ingress_manager.go:289-297 | one text is less than another iff it is a proper beginning of it or has the smaller character at the first difference |
| `IngressRules.TranslationIsCanonical` | pkg/handler/ingress_manager.go:263-301 | any two permutations of accepted rules have one and the same translation |
| `IngressRules.RoundTrip` | pkg/handler/ingress_manager.go:222-233 | what is read back is accepted again and translates to the same groups |
| `IngressRules.FlattenGroup` | pkg/handler/ingress_manager.go:176-193 | flattening undoes grouping, for every rule list |
| `IngressRules.BodySizeRoundTrip` | pkg/handler/ingress_manager.go:195-252 | the body size annotation gives size and unit back iff nothing was set, or the size is a positive 64-bit number and the unit one character |
| `UdpIngress.ParsePrint` | pkg/handler/udpingress_manager.go:176-254 | an entry parses if and only if its names are free of the separators and its ports are nonzero 64-bit numbers, and then to itself |
| `UdpIngress.PrefixSelects` | pkg/handler/udpingress_manager.go:150-174 | a clean entry has the prefix of a namespace, or of a namespace and service, iff it is theirs |
| `UdpIngress.TextMirrorsEntries` | pkg/handler/udpingress_manager.go:134-254 | over any run of clean creates, deletes and clears the config map is exactly the entries, printed, under unique ports |
| `UdpIngress.EveryEntryParses` | pkg/handler/udpingress_manager.go:176-228 | after such a run every line parses to the port, namespace, service and service port it was created with |
| `UdpIngress.ListingShowsEntries` | pkg/handler/udpingress_manager.go:176-228 | after such a run each entry is listed, unchanged, to its own namespace only |
| `UdpIngress.RefusedIffTaken` | pkg/handler/udpingress_manager.go:230-254 | a create is refused iff its port is already an entry |
| `UdpIngress.BadKeyRefuses` | pkg/handler/udpingress_manager.go:230-254 | a key that is no 64-bit number makes every create fail and change nothing |
| `UdpIngress.LineReads` | pkg/handler/udpingress_manager.go:176-228 | how a line of the form namespace/service:port reads, with the result for each test that fails |
| `UdpIngress.OtherLinesAreBad` | pkg/handler/udpingress_manager.go:176-228 | a line of any other form is bad |
| `UdpIngress.ParseIsRead` | pkg/handler/udpingress_manager.go:176-228 | parsing an entry is reading its line for all namespaces |
| `UdpIngress.EntryText` | pkg/handler/udpingress_manager.go:150-254 | an entry and the two prefixes letter by letter |
| `Text.NumbersAreDigits` | pkg/handler/udpingress_manager.go:191-216 | exactly digits behind at most one sign are a number, and a minus negates |
| `Text.OneMoreDigit` | pkg/handler/udpingress_manager.go:191-216 | each further digit counts ten times what stands before it |
| `Text.OneDigit` | pkg/handler/udpingress_manager.go:191-216 | a single digit is its decimal value |
| `Text.AtoiRange` | pkg/handler/udpingress_manager.go:191-216 | a number out of the 64-bit range is an error |
| `Text.NumbersPrintPlain` | pkg/handler/udpingress_manager.go:230-254 | a number prints as its digits without a zero in front, behind a minus when negative |
| `UdpIngress.Create` | pkg/handler/udpingress_manager.go:230-254 | refused iff a key is no number or names the port; otherwise adds one line under a new key, and the write back meets no duplicate |
| `UdpIngress.Delete` | pkg/handler/udpingress_manager.go:134-148 | removes the line with exactly that key and says whether there was one |
| `UdpIngress.Clear` | pkg/handler/udpingress_manager.go:150-174 | removes exactly the lines with the prefix |
| `UdpIngress.List` | pkg/handler/udpingress_manager.go:176-228 | the entries of a namespace or the wanted one, whatever the order of the lines; fails only on a bad line, and always on one when no key is wanted |
| `UdpIngress.ToConfigs` | pkg/handler/configmap_manager.go:193-211 | every line of the config map once, in some order |
| `UdpIngress.ToData` | pkg/handler/configmap_manager.go:171-184 | refused iff a name occurs twice, otherwise the map with exactly those lines |
| `HpaRuns.RulesAreInitialPlusLive` | pkg/handler/hpa_manager.go:139-173 | over any calls whose writes succeed or fail harmlessly, aliases stay distinct and the rules are the initial ones plus exactly those of the live autoscalers |
| `HpaRuns.CallExact` | pkg/handler/hpa_manager.go:139-635 | a call keeps that invariant if and only if, when it is not stored, it asked for exactly the rules its autoscaler owned; and it never meets a missing rule |
| `HpaRuns.RunExact` | pkg/handler/hpa_manager.go:139-635 | the invariant holds all along a sequence of calls if and only if every call that was not stored was harmless in that sense |
| `HpaRuns.StoredCallsKeep` | pkg/handler/hpa_manager.go:139-635 | in particular the invariant holds all along calls that are all stored |
| `HpaRuns.NeverMissing` | pkg/handler/hpa_manager.go:319-392 | after any such calls no further call, stored or not, meets a missing rule, and a refused one changes nothing |
| `HpaRuns.CreateThenDelete` | pkg/handler/hpa_manager.go:606-635 | create followed by delete restores the rule sequence, in order, and the stored autoscalers |
| `HpaRuns.FailedStoreLeaks` | pkg/handler/hpa_manager.go:139-173 | a create with custom metrics whose own write fails keeps its rules, and the same create is then refused |
| `HpaRuns.FailedStoreSticks` | pkg/handler/hpa_manager.go:569-635 | an update or delete that is not stored and did not ask again for an alias leaves a stored autoscaler using an alias that no rule has |
| `HpaRuns.StuckFails` | pkg/handler/hpa_manager.go:319-392 | every delete and valid update of such an autoscaler fails on the missing rule and changes nothing |
| `HpaRuns.StaysStuck` | pkg/handler/hpa_manager.go:319-392 | it stays so under every call that does not ask for the alias |
| `HpaRuns.FailedDeleteSticks` | pkg/handler/hpa_manager.go:606-621 | after an unstored delete of an autoscaler with custom metrics, and any later calls that do not ask for one of its aliases, every delete of it fails on the missing rule |
| `HpaRuns.CreateKeeps` | pkg/handler/hpa_manager.go:139-173 | a create keeps the ownership invariant and never meets a missing rule |
| `HpaCalls.CreateDecides` | pkg/handler/hpa_manager.go:139-173 | a create is done iff all targets parse, no stored autoscaler of the namespace has the name or the same kind and target, and the new aliases are distinct and unused; then its rules are appended and it is stored; otherwise it is refused and changes nothing |
| `HpaCalls.UpdateDecides` | pkg/handler/hpa_manager.go:569-586 | an update of a live autoscaler is done iff all targets parse and the new aliases are distinct and unused among the rules of all others; then its rules stand behind those, which keep their order |
| `HpaCalls.DeleteDecides` | pkg/handler/hpa_manager.go:606-621 | a delete of a live autoscaler is done and leaves exactly the rules of all others, in their order |
| `HpaCalls.WorkloadsExact` | pkg/handler/hpa_manager.go:147-154 | all along any calls two autoscalers of one namespace never scale the same workload, if and only if no update moves one to the workload of another |
| `HpaCalls.WorkloadsKept` | pkg/handler/hpa_manager.go:147-154 | in particular when updates keep the workload of their autoscaler |
| `HpaCalls.CallOneEach` | pkg/handler/hpa_manager.go:139-173 | one call keeps the workloads different iff it is not such an update |
| `HpaCalls.StoredMeans` | pkg/handler/hpa_manager.go:175-213 | what is stored scales the requested kind and target by the resource metrics and then the custom ones, each under the alias of its rule |
| `HpaCalls.AliasInjective` | pkg/handler/hpa_manager.go:235-251 | without underscores in hash, namespace and name, an alias determines metric, hash, namespace and name |
| `HpaCalls.RuleText` | pkg/handler/hpa_manager.go:235-251 | the rule of one metric letter by letter |
| `HpaRuns.UpdateKeeps` | pkg/handler/hpa_manager.go:569-586 | an update, found by its id and building rules under the name in its body, keeps the ownership invariant and never meets a missing rule |
| `HpaRuns.DeleteKeeps` | pkg/handler/hpa_manager.go:606-621 | a delete keeps the ownership invariant and succeeds iff the autoscaler exists |
| `HpaRules.StoredAliases` | pkg/handler/hpa_manager.go:175-251 | the aliases read off a stored autoscaler are those of the rules generated for it, in order |
| `HpaRules.GetOldRules` | pkg/handler/hpa_manager.go:623-635 | collects the aliases of the pod metrics in order |
| `HpaRules.UpdateAdapterRules` | pkg/handler/hpa_manager.go:319-378 | performs the edit: drop each old rule, stop at a missing one, append each new rule, stop at a duplicate |
| `HpaRules.DropAllMembers` | pkg/handler/hpa_manager.go:319-378 | dropping distinct aliases that are there succeeds and removes exactly their rules |
| `HpaRules.AddAllResult` | pkg/handler/hpa_manager.go:319-378 | appending succeeds if and only if the new aliases are distinct and unused, and then appends exactly them |
| `HpaRules.AddThenDrop` | pkg/handler/hpa_manager.go:319-378 | dropping what was appended gives the original sequence back |
| `PodTemplate.RoundTrip` | pkg/handler/podtemplate.go:251-500 | for every accepted input, translating to a pod specification and back gives the same containers if and only if protocols are lower case, ports fit in 32 bits and no mount name stands for two volumes |
| `PodVolumes.TemplatesExact` | pkg/handler/podtemplate.go:414-500 | for every accepted input in which no mount name stands for two volumes, the volume templates read back are exactly those of the persistent volumes in use, each name once |
| `PodTemplate.VolumesExact` | pkg/handler/podtemplate.go:251-386 | the volumes of all containers read back unchanged if and only if no mount name is ambiguous |
| `PodTemplate.PortsExact` | pkg/handler/podtemplate.go:332-357 | ports read back unchanged if and only if protocols are lower case and numbers fit |
| `PodTemplate.CollectFirst` | pkg/handler/podtemplate.go:305-325 | skipping repeated persistent volumes never changes which volume a name finds |
| `PodVolumes.GeneratedInjective` | pkg/handler/podtemplate.go:258-261 | container and position can be read off a generated volume name, also for container names that end in digits or look generated |
| `PodVolumes.NamesSuffice` | pkg/handler/podtemplate.go:251-386 | distinct container names and no persistent volume named like a generated one leave no mount name ambiguous |
| `PodVolumes.CleanPods` | pkg/handler/podtemplate.go:251-500 | under those conditions the volumes have distinct names, every mount names one of them, and the round trip is exact iff the ports are |
| `PodMeaning.AcceptedMeans` | pkg/handler/podtemplate.go:251-357 | a pod is accepted iff every volume is a config map, a secret or a persistent one at hand, every protocol is tcp or udp in any case, every port name is good, and no container repeats one |
| `PodMeaning.PortNameMeans` | pkg/handler/podtemplate.go:395-412 | one to fifteen small letters, digits and hyphens, at least one letter, no hyphen at an end or next to another |
| `PodMeaning.ContainerMeans` | pkg/handler/podtemplate.go:319-380 | what an accepted container becomes, field by field: mounts at their paths, read-only iff not persistent, ports with name, number and protocol |
| `PodMeaning.VolumeMeans` | pkg/handler/podtemplate.go:258-316 | a config map or secret under the generated name, the first emptyDir volume of the name as it is, or else the claim |
| `PodMeaning.CollectMeans` | pkg/handler/podtemplate.go:305-325 | the volumes of the pod are those in use, except a persistent one whose name is taken |
| `PodMeaning.ShownMeans` | pkg/handler/podtemplate.go:422-455 | what a mounted volume shows as, and the template it gives |
| `PodMeaning.ProtocolMeans` | pkg/handler/podtemplate.go:332-357 | tcp and udp in any case, shown in lower case |
| `PodMeaning.PortNumberMeans` | pkg/handler/podtemplate.go:352-357 | the number up to multiples of 2^32, in the signed range |
| `PodVolumes.LookalikeLost` | pkg/handler/podtemplate.go:251-500 | an accepted pod with a config map volume and a claim named like its generated volume does not come back |
| `PodVolumes.BuildPodSpec` | pkg/handler/podtemplate.go:251-386 | the nested loops compute the translation, and fail exactly when it does |
| `PodVolumes.BuildContainer` | pkg/handler/podtemplate.go:254-380 | one container's mounts, ports and contribution to the volumes; fails iff a volume cannot be had or a port is bad |
| `PodVolumes.BuildMounts` | pkg/handler/podtemplate.go:258-330 | mounts in order and volumes collected without repeating a persistent one; fails iff a volume cannot be had |
| `PodVolumes.BuildPorts` | pkg/handler/podtemplate.go:332-357 | fails iff a protocol or name is invalid or a name repeats, otherwise the converted ports |
| `PodVolumes.ResolveVolume` | pkg/handler/podtemplate.go:258-316 | the volume a mount is taken from: config map, secret, emptyDir before claim, or none |
| `PodVolumes.ReadPodSpec` | pkg/handler/podtemplate.go:414-500 | the loops compute the reverse translation, containers and volume templates |
| `PodVolumes.ReadMounts` | pkg/handler/podtemplate.go:419-465 | each mount shows as its first volume of that name, a mount without one is left out, and a template is added when its name is new |

## Left out

- Finer interleavings of the lifecycle: an API call, an event with its callback, and a worker's whole completion are one step each. A cancel that lands between the read of `isCanceled` and the event, an update racing a worker's row write, and a create between list removal and row deletion are not modelled.
- Failed database writes, worker panics and their recovery: the lifecycle invariants assume writes succeed.
- Provisioning, the Kubernetes client and caches: outcomes are parameters of the steps. Timestamps, logs, mail and the zke version are not part of the state.
- Validators that look only at the text of fields (addresses, CIDRs, names, load balancer, DNS servers) are one parameter, `othersValid`, of a request.
- The restart of a created cluster whose connection fails: it is skipped as in the source, and the row stays; a later create under that name then overwrites the row.
- Broadcast buffers: one producer per buffer, ids do not wrap around 2^64, wakeups and the stop handshake of listeners are not modelled; the linked list is a sequence.
- BroadcastBuffer.Watcher.Add: requires the next id to fit in 64 bits.
- DNS: proxy commands succeed, host parsing and zone membership are an abstract resolver, edge labels and node addresses are fixed over a history, no ingress object names one name twice (`EventKeepsInv` is exact about that), and a node's readiness does not change between the initial listing and the watch.
- Alarm cache: unacknowledged counts, their publication and mail are not modelled.
- AlarmStore.AlarmStoreObject.DeleteAlarmForCluster: builds the list of kept alarms and assigns it once, where the source unlinks elements one by one.
- Sorting is a method on sequences that yields a sorted permutation, not the in-place algorithm of the standard library.
- AuditLog.TooSmallNeverEvicts: for fewer than 2^62 steps, so that ids do not wrap.
- AuditLog listing and paging, which only read and sort the table.
- Ingress rules: service ports fit in 32 bits, the width the Kubernetes port type stores; strings are sequences of characters, not bytes.
- Autoscalers: a failing write of the rules themselves, which changes nothing; label hashing and label printing are given with the metric; target values are only valid or not; the rules file itself is not rendered. Reading an autoscaler back is not modelled.
- PodTemplate.RoundTrip: covers name, image, command, arguments, ports, environment and volumes; resource requests and annotations are not modelled, nor the later completion of claim templates from the cluster.
- Claims and their creation, deployment of workloads, and the other resource managers (jobs, secrets, services, storage, workflows): field copying around client calls, which would only add easy members.
- HTTP, websockets, authentication, charts and fluent-bit configuration.

/** The node list of a cluster: the form the API carries, the form ZKE stores, the two
    conversions between them, and the validators that decide whether a create or an
    update is accepted. */
module ClusterConfig {

  /** The role names the code knows; any other text is carried along. */
  datatype Role = ControlPlane | Etcd | Worker | Edge | Storage | Other(text: string)

  /** A node as the API carries it. */
  datatype Node = Node(name: string, address: string, roles: seq<Role>) {
    predicate HasRole(role: Role) {
      role in roles
    }

    ghost function RoleSet(): set<Role> {
      set r | r in roles
    }
  }

  /** A node as the ZKE configuration stores it. */
  datatype ZkeNode = ZkeNode(nodeName: string, address: string, role: seq<Role>)

  type Config = seq<ZkeNode>

  /** A create or update request. `othersValid` is the verdict of the validators that only
      parse text: addresses, CIDRs, the singlecloud address and the load balancer. */
  datatype Request = Request(nodes: seq<Node>, sshKey: string, othersValid: bool)

  // ---------------------------------------------------------------------------
  // Conversions
  // ---------------------------------------------------------------------------

  /** Roles as stored: every controlplane role is followed by an etcd role. */
  function AddEtcd(roles: seq<Role>): seq<Role> {
    if roles == [] then []
    else
      var last := roles[|roles| - 1];
      AddEtcd(roles[..|roles| - 1]) + if last == ControlPlane then [last, Etcd] else [last]
  }

  /** Roles as shown: the etcd roles are left out. */
  function StripEtcd(roles: seq<Role>): seq<Role> {
    if roles == [] then []
    else
      var last := roles[|roles| - 1];
      StripEtcd(roles[..|roles| - 1]) + if last == Etcd then [] else [last]
  }

  function ToZkeNode(n: Node): ZkeNode {
    ZkeNode(n.name, n.address, AddEtcd(n.roles))
  }

  function ToScNode(n: ZkeNode): Node {
    Node(n.nodeName, n.address, StripEtcd(n.role))
  }

  function ToZke(nodes: seq<Node>): Config {
    seq(|nodes|, i requires 0 <= i < |nodes| => ToZkeNode(nodes[i]))
  }

  function ToSc(config: Config): seq<Node> {
    seq(|config|, i requires 0 <= i < |config| => ToScNode(config[i]))
  }

  method ScClusterToZkeNodes(nodes: seq<Node>) returns (ns: Config)
    ensures ns == ToZke(nodes)
  {
    ns := [];
    for i := 0 to |nodes|
      invariant ns == ToZke(nodes)[..i]
    {
      var role := [];
      for j := 0 to |nodes[i].roles|
        invariant role == AddEtcd(nodes[i].roles[..j])
      {
        var r := nodes[i].roles[j];
        assert nodes[i].roles[..j + 1][..j] == nodes[i].roles[..j];
        role := role + [r];
        if r == ControlPlane {
          role := role + [Etcd];
        }
      }
      assert nodes[i].roles[..|nodes[i].roles|] == nodes[i].roles;
      ns := ns + [ZkeNode(nodes[i].name, nodes[i].address, role)];
    }
  }

  method ToScCluster(config: Config) returns (nodes: seq<Node>)
    ensures nodes == ToSc(config)
  {
    nodes := [];
    for i := 0 to |config|
      invariant nodes == ToSc(config)[..i]
    {
      var roles := [];
      for j := 0 to |config[i].role|
        invariant roles == StripEtcd(config[i].role[..j])
      {
        assert config[i].role[..j + 1][..j] == config[i].role[..j];
        if config[i].role[j] != Etcd {
          roles := roles + [config[i].role[j]];
        }
      }
      assert config[i].role[..|config[i].role|] == config[i].role;
      nodes := nodes + [Node(config[i].nodeName, config[i].address, roles)];
    }
  }

  /** Which roles the two conversions let through. */
  lemma {:induction false} ConvertedRoles(roles: seq<Role>)
    ensures forall r :: r in StripEtcd(roles) <==> r in roles && r != Etcd
    ensures forall r :: r in AddEtcd(roles) <==> r in roles || (r == Etcd && ControlPlane in roles)
    ensures Etcd !in roles ==> StripEtcd(roles) == roles
  {
    if roles != [] {
      var front, last := roles[..|roles| - 1], roles[|roles| - 1];
      ConvertedRoles(front);
      assert roles == front + [last];
    }
  }

  lemma StripLast(roles: seq<Role>, last: Role)
    ensures StripEtcd(roles + [last]) == StripEtcd(roles) + if last == Etcd then [] else [last]
  {
  }

  /** The etcd role added by one conversion is stripped by the other. */
  lemma {:induction false} StripUndoesAdd(roles: seq<Role>)
    ensures StripEtcd(AddEtcd(roles)) == StripEtcd(roles)
  {
    if roles != [] {
      var front, last := roles[..|roles| - 1], roles[|roles| - 1];
      StripUndoesAdd(front);
      StripLast(AddEtcd(front), last);
      if last == ControlPlane {
        StripLast(AddEtcd(front) + [last], Etcd);
        assert AddEtcd(roles) == AddEtcd(front) + [last] + [Etcd];
      }
    }
  }

  /** Storing a node list and showing it again gives the list back exactly when no node
      was given the etcd role by the caller. */
  lemma {:induction false} RoundTrip(nodes: seq<Node>)
    ensures ToSc(ToZke(nodes)) == nodes <==> forall n <- nodes :: !n.HasRole(Etcd)
  {
    forall i | 0 <= i < |nodes|
      ensures ToSc(ToZke(nodes))[i] == nodes[i] <==> !nodes[i].HasRole(Etcd)
    {
      StripUndoesAdd(nodes[i].roles);
      ConvertedRoles(nodes[i].roles);
    }
    if forall n <- nodes :: !n.HasRole(Etcd) {
      assert ToSc(ToZke(nodes)) == nodes;
    }
  }

  // ---------------------------------------------------------------------------
  // What the validators accept
  // ---------------------------------------------------------------------------

  ghost predicate DistinctNodes(nodes: seq<Node>) {
    forall i, j :: 0 <= i < j < |nodes| ==>
                     nodes[i].address != nodes[j].address && nodes[i].name != nodes[j].name
  }

  ghost predicate HasBothRoles(nodes: seq<Node>) {
    && (exists i :: 0 <= i < |nodes| && nodes[i].HasRole(ControlPlane))
    && (exists i :: 0 <= i < |nodes| && nodes[i].HasRole(Worker))
  }

  ghost predicate DistinctRoles(n: Node) {
    forall i, j :: 0 <= i < j < |n.roles| ==> n.roles[i] != n.roles[j]
  }

  ghost predicate OneRole(n: Node) {
    (n.HasRole(ControlPlane) <==> !n.HasRole(Worker)) && DistinctRoles(n)
  }

  ghost predicate OneRoleEach(nodes: seq<Node>) {
    forall i :: 0 <= i < |nodes| ==> OneRole(nodes[i])
  }

  ghost predicate GoodNodes(nodes: seq<Node>) {
    DistinctNodes(nodes) && HasBothRoles(nodes) && OneRoleEach(nodes)
  }

  ghost predicate CreateAccepted(req: Request) {
    GoodNodes(req.nodes) && req.othersValid && req.sshKey != ""
  }

  ghost predicate ControlPlaneKept(old_: seq<Node>, new_: seq<Node>) {
    forall i :: 0 <= i < |old_| && old_[i].HasRole(ControlPlane) ==>
                  exists j :: 0 <= j < |new_| && new_[j].address == old_[i].address && new_[j].HasRole(ControlPlane)
  }

  ghost predicate RolesKept(old_: seq<Node>, new_: seq<Node>) {
    forall i, j :: 0 <= i < |old_| && 0 <= j < |new_| && old_[i].address == new_[j].address ==>
                     old_[i].RoleSet() == new_[j].RoleSet()
  }

  ghost predicate NamesKept(old_: seq<Node>, new_: seq<Node>) {
    forall i, j :: 0 <= i < |old_| && 0 <= j < |new_| && old_[i].address == new_[j].address ==>
                     old_[i].name == new_[j].name
  }

  ghost predicate Removed(n: Node, new_: seq<Node>) {
    forall j :: 0 <= j < |new_| ==> new_[j].name != n.name
  }

  /** The answers of the storage lookup: the nodes in use, and those it fails for. */
  datatype StorageNodes = StorageNodes(used: set<string>, failing: set<string>)

  ghost predicate StorageKept(old_: seq<Node>, new_: seq<Node>, storage: StorageNodes) {
    forall i :: 0 <= i < |old_| && Removed(old_[i], new_) ==>
                  old_[i].name !in storage.failing && old_[i].name !in storage.used
  }

  ghost predicate UpdateAccepted(old_: seq<Node>, req: Request, hasClient: bool, storage: StorageNodes) {
    && GoodNodes(req.nodes)
    && req.othersValid
    && ControlPlaneKept(old_, req.nodes)
    && RolesKept(old_, req.nodes)
    && NamesKept(old_, req.nodes)
    && (hasClient ==> StorageKept(old_, req.nodes, storage))
  }

  // ---------------------------------------------------------------------------
  // The validators
  // ---------------------------------------------------------------------------

  method ValidateDuplicateNodes(nodes: seq<Node>) returns (ok: bool)
    ensures ok <==> DistinctNodes(nodes)
  {
    for i := 0 to |nodes|
      invariant forall k, j :: 0 <= k < i && 0 <= j < |nodes| && k != j ==>
                                 nodes[k].address != nodes[j].address && nodes[k].name != nodes[j].name
    {
      for j := 0 to |nodes|
        invariant forall k :: 0 <= k < j && k != i ==>
                                nodes[i].address != nodes[k].address && nodes[i].name != nodes[k].name
      {
        if i != j {
          if nodes[i].address == nodes[j].address || nodes[i].name == nodes[j].name {
            return false;
          }
        }
      }
    }
    return true;
  }

  method ValidateNodeCount(nodes: seq<Node>) returns (ok: bool)
    ensures ok <==> HasBothRoles(nodes)
  {
    var hasControlPlane, hasWorker := false, false;
    for i := 0 to |nodes|
      invariant hasControlPlane <==> exists k :: 0 <= k < i && nodes[k].HasRole(ControlPlane)
      invariant hasWorker <==> exists k :: 0 <= k < i && nodes[k].HasRole(Worker)
    {
      if nodes[i].HasRole(ControlPlane) {
        hasControlPlane := true;
      }
      if nodes[i].HasRole(Worker) {
        hasWorker := true;
      }
    }
    ok := hasControlPlane && hasWorker;
  }

  /** Collects the roles in a set and compares sizes. */
  method IsNodeRoleDuplicate(n: Node) returns (dup: bool)
    ensures dup <==> !DistinctRoles(n)
  {
    var roles := {};
    ghost var clean := true;
    for i := 0 to |n.roles|
      invariant roles == set k | 0 <= k < i :: n.roles[k]
      invariant |roles| <= i
      invariant clean <==> |roles| == i
      invariant clean <==> forall k, l :: 0 <= k < l < i ==> n.roles[k] != n.roles[l]
    {
      clean := clean && n.roles[i] !in roles;
      roles := roles + {n.roles[i]};
    }
    dup := |roles| != |n.roles|;
  }

  method ValidateNodeRoles(nodes: seq<Node>) returns (ok: bool)
    ensures ok <==> OneRoleEach(nodes)
  {
    for i := 0 to |nodes|
      invariant forall k :: 0 <= k < i ==> OneRole(nodes[k])
    {
      if !nodes[i].HasRole(ControlPlane) && !nodes[i].HasRole(Worker) {
        return false;
      }
      if nodes[i].HasRole(ControlPlane) && nodes[i].HasRole(Worker) {
        return false;
      }
      var dup := IsNodeRoleDuplicate(nodes[i]);
      if dup {
        return false;
      }
    }
    return true;
  }

  method ValidateCannotDeleteNode(old_: seq<Node>, new_: seq<Node>) returns (ok: bool)
    ensures ok <==> ControlPlaneKept(old_, new_)
  {
    var cpHosts := {};
    for i := 0 to |new_|
      invariant forall a :: a in cpHosts <==>
                              exists k :: 0 <= k < i && new_[k].address == a && new_[k].HasRole(ControlPlane)
    {
      if new_[i].HasRole(ControlPlane) {
        cpHosts := cpHosts + {new_[i].address};
      }
    }
    for i := 0 to |old_|
      invariant forall k :: 0 <= k < i && old_[k].HasRole(ControlPlane) ==> old_[k].address in cpHosts
    {
      if old_[i].HasRole(ControlPlane) && old_[i].address !in cpHosts {
        return false;
      }
    }
    return true;
  }

  method IsNodeRolesChanged(o: Node, n: Node) returns (changed: bool)
    ensures changed <==> o.RoleSet() != n.RoleSet()
  {
    var oldRoles, newRoles := {}, {};
    for i := 0 to |o.roles|
      invariant oldRoles == set r | r in o.roles[..i]
    {
      oldRoles := oldRoles + {o.roles[i]};
    }
    for i := 0 to |n.roles|
      invariant newRoles == set r | r in n.roles[..i]
    {
      newRoles := newRoles + {n.roles[i]};
    }
    assert o.roles[..|o.roles|] == o.roles && n.roles[..|n.roles|] == n.roles;
    changed := newRoles != oldRoles;
  }

  method ValidateNodesUnchanged(old_: seq<Node>, new_: seq<Node>) returns (ok: bool)
    ensures ok <==> RolesKept(old_, new_) && NamesKept(old_, new_)
  {
    for i := 0 to |old_|
      invariant forall k, j :: 0 <= k < i && 0 <= j < |new_| && old_[k].address == new_[j].address ==>
                                 old_[k].RoleSet() == new_[j].RoleSet() && old_[k].name == new_[j].name
    {
      for j := 0 to |new_|
        invariant forall k :: 0 <= k < j && old_[i].address == new_[k].address ==>
                                old_[i].RoleSet() == new_[k].RoleSet() && old_[i].name == new_[k].name
      {
        if old_[i].address == new_[j].address {
          var changed := IsNodeRolesChanged(old_[i], new_[j]);
          if changed || old_[i].name != new_[j].name {
            return false;
          }
        }
      }
    }
    return true;
  }

  method ValidateToDeleteStorageNodes(old_: seq<Node>, new_: seq<Node>, storage: StorageNodes) returns (ok: bool)
    ensures ok <==> StorageKept(old_, new_, storage)
  {
    var newNodes := {};
    for i := 0 to |new_|
      invariant forall a :: a in newNodes <==> exists k :: 0 <= k < i && new_[k].name == a
    {
      newNodes := newNodes + {new_[i].name};
    }
    for i := 0 to |old_|
      invariant forall k :: 0 <= k < i && old_[k].name !in newNodes ==>
                              old_[k].name !in storage.failing && old_[k].name !in storage.used
    {
      var n := old_[i].name;
      if n !in newNodes && (n in storage.failing || n in storage.used) {
        assert Removed(old_[i], new_);
        return false;
      }
    }
    return true;
  }

  method ValidateConfigForCreate(req: Request) returns (ok: bool)
    ensures ok <==> CreateAccepted(req)
  {
    var distinct := ValidateDuplicateNodes(req.nodes);
    var count := ValidateNodeCount(req.nodes);
    var roles := ValidateNodeRoles(req.nodes);
    ok := distinct && count && roles && req.othersValid && req.sshKey != "";
  }

  method ValidateConfigForUpdate(old_: seq<Node>, req: Request, hasClient: bool, storage: StorageNodes)
    returns (ok: bool)
    ensures ok <==> UpdateAccepted(old_, req, hasClient, storage)
  {
    var distinct := ValidateDuplicateNodes(req.nodes);
    var count := ValidateNodeCount(req.nodes);
    var roles := ValidateNodeRoles(req.nodes);
    var kept := ValidateCannotDeleteNode(old_, req.nodes);
    var unchanged_ := ValidateNodesUnchanged(old_, req.nodes);
    var storageOk := true;
    if hasClient {
      storageOk := ValidateToDeleteStorageNodes(old_, req.nodes, storage);
    }
    ok := distinct && count && roles && req.othersValid && kept && unchanged_ && storageOk;
  }

  // ---------------------------------------------------------------------------
  // Chains of accepted configurations
  // ---------------------------------------------------------------------------

  ghost predicate GoodConfig(config: Config) {
    GoodNodes(ToSc(config))
  }

  ghost function ControlPlaneAddresses(config: Config): set<string> {
    set i | 0 <= i < |config| && ControlPlane in config[i].role :: config[i].address
  }

  /** `next` is what some accepted update stores over `config`. */
  ghost predicate UpdateTo(config: Config, next: Config) {
    exists req: Request, hasClient: bool, storage: StorageNodes ::
      UpdateAccepted(ToSc(config), req, hasClient, storage) && next == ToZke(req.nodes)
  }

  ghost predicate Linked(configs: seq<Config>, i: nat)
    requires i + 1 < |configs|
  {
    UpdateTo(configs[i], configs[i + 1])
  }

  ghost predicate Chain(configs: seq<Config>) {
    && configs != []
    && (exists req :: CreateAccepted(req) && configs[0] == ToZke(req.nodes))
    && forall i: nat :: i + 1 < |configs| ==> Linked(configs, i)
  }

  lemma {:induction false} StripKeepsDistinct(roles: seq<Role>)
    requires forall i, j :: 0 <= i < j < |roles| ==> roles[i] != roles[j]
    ensures forall i, j :: 0 <= i < j < |StripEtcd(roles)| ==> StripEtcd(roles)[i] != StripEtcd(roles)[j]
  {
    if roles != [] {
      var front, last := roles[..|roles| - 1], roles[|roles| - 1];
      StripKeepsDistinct(front);
      ConvertedRoles(front);
      assert last !in front;
    }
  }

  /** What is shown of one stored node. */
  lemma ShownNode(n: Node)
    ensures ToScNode(ToZkeNode(n)).RoleSet() == n.RoleSet() - {Etcd}
    ensures OneRole(n) ==> OneRole(ToScNode(ToZkeNode(n)))
    ensures forall r | r != Etcd :: ToScNode(ToZkeNode(n)).HasRole(r) == n.HasRole(r)
  {
    StripUndoesAdd(n.roles);
    ConvertedRoles(n.roles);
    if OneRole(n) {
      StripKeepsDistinct(n.roles);
    }
  }

  /** Stored node lists are as good as the accepted request they come from. */
  lemma {:induction false} GoodNodesStored(nodes: seq<Node>)
    requires GoodNodes(nodes)
    ensures GoodConfig(ToZke(nodes))
  {
    var shown := ToSc(ToZke(nodes));
    forall i | 0 <= i < |nodes|
      ensures OneRole(shown[i])
    {
      ShownNode(nodes[i]);
    }
    assert HasBothRoles(shown) by {
      var i :| 0 <= i < |nodes| && nodes[i].HasRole(ControlPlane);
      var j :| 0 <= j < |nodes| && nodes[j].HasRole(Worker);
      ShownNode(nodes[i]);
      ShownNode(nodes[j]);
      assert shown[i].HasRole(ControlPlane) && shown[j].HasRole(Worker);
    }
  }

  /** A kept address: same address before and after implies same name and shown roles. */
  ghost predicate SameIdentity(n: ZkeNode, m: ZkeNode) {
    n.address == m.address ==>
      n.nodeName == m.nodeName && ToScNode(n).RoleSet() == ToScNode(m).RoleSet()
  }

  ghost predicate SameIdentities(config: Config, next: Config) {
    forall a, b :: 0 <= a < |config| && 0 <= b < |next| ==> SameIdentity(config[a], next[b])
  }

  /** One accepted update, as seen through the stored configurations: every controlplane
      address stays a controlplane address, and a kept address keeps its name and its roles. */
  lemma {:induction false} UpdateKeeps(config: Config, next: Config)
    requires UpdateTo(config, next)
    ensures GoodConfig(next)
    ensures ControlPlaneAddresses(config) <= ControlPlaneAddresses(next)
    ensures SameIdentities(config, next)
  {
    var req, hasClient, storage :|
      UpdateAccepted(ToSc(config), req, hasClient, storage) && next == ToZke(req.nodes);
    GoodNodesStored(req.nodes);
    forall i, j | 0 <= i < |config| && 0 <= j < |next|
      ensures SameIdentity(config[i], next[j])
    {
      assert ToSc(config)[i] == ToScNode(config[i]);
      KeptNode(config[i], req.nodes[j]);
    }
    ControlPlaneGrows(config, req.nodes);
  }

  lemma ControlPlaneGrows(config: Config, nodes: seq<Node>)
    requires ControlPlaneKept(ToSc(config), nodes)
    ensures ControlPlaneAddresses(config) <= ControlPlaneAddresses(ToZke(nodes))
  {
    forall i | 0 <= i < |config| && ControlPlane in config[i].role
      ensures config[i].address in ControlPlaneAddresses(ToZke(nodes))
    {
      ConvertedRoles(config[i].role);
      assert ToSc(config)[i] == ToScNode(config[i]);
      var j :| 0 <= j < |nodes| && nodes[j].address == config[i].address && nodes[j].HasRole(ControlPlane);
      ConvertedRoles(nodes[j].roles);
      assert ToZke(nodes)[j] == ToZkeNode(nodes[j]);
    }
  }

  lemma KeptNode(n: ZkeNode, m: Node)
    requires n.address == m.address ==> ToScNode(n).RoleSet() == m.RoleSet() && n.nodeName == m.name
    ensures SameIdentity(n, ToZkeNode(m))
  {
    ConvertedRoles(n.role);
    assert Etcd !in ToScNode(n).RoleSet();
    ShownNode(m);
  }

  lemma ChainGood(configs: seq<Config>, j: nat)
    requires Chain(configs) && j < |configs|
    ensures GoodConfig(configs[j])
  {
    if j == 0 {
      var req :| CreateAccepted(req) && configs[0] == ToZke(req.nodes);
      GoodNodesStored(req.nodes);
    } else {
      ChainStep(configs, j - 1);
    }
  }

  lemma ChainStep(configs: seq<Config>, k: nat)
    requires Chain(configs) && k + 1 < |configs|
    ensures GoodConfig(configs[k + 1])
    ensures ControlPlaneAddresses(configs[k]) <= ControlPlaneAddresses(configs[k + 1])
    ensures SameIdentities(configs[k], configs[k + 1])
  {
    assert Linked(configs, k);
    UpdateKeeps(configs[k], configs[k + 1]);
  }

  lemma {:induction false} ChainIdentity(configs: seq<Config>, i: nat, j: nat)
    requires Chain(configs) && i <= j < |configs|
    ensures ControlPlaneAddresses(configs[i]) <= ControlPlaneAddresses(configs[j])
    ensures KeepsIdentity(configs[i], configs[j])
    decreases j
  {
    if i == j {
      ChainGood(configs, j);
      GoodIsIdentity(configs[j]);
    } else {
      ChainIdentity(configs, i, j - 1);
      ChainStep(configs, j - 1);
      IdentityThrough(configs[i], configs[j - 1], configs[j]);
    }
  }

  /** Along any chain of accepted updates every configuration is good, the controlplane
      addresses never shrink, and a controlplane node keeps its name and roles for good. */
  lemma ChainKeepsControlPlane(configs: seq<Config>, i: nat, j: nat)
    requires Chain(configs)
    requires i <= j < |configs|
    ensures GoodConfig(configs[j])
    ensures ControlPlaneAddresses(configs[i]) <= ControlPlaneAddresses(configs[j])
    ensures KeepsIdentity(configs[i], configs[j])
  {
    ChainGood(configs, j);
    ChainIdentity(configs, i, j);
  }

  ghost predicate KeepsIdentity(config: Config, next: Config) {
    forall a, b :: 0 <= a < |config| && 0 <= b < |next| && ControlPlane in config[a].role ==>
                     SameIdentity(config[a], next[b])
  }

  /** A controlplane node keeps its identity through a configuration that still has its address. */
  lemma IdentityThrough(config: Config, mid: Config, next: Config)
    requires KeepsIdentity(config, mid) && ControlPlaneAddresses(config) <= ControlPlaneAddresses(mid)
    requires SameIdentities(mid, next)
    ensures KeepsIdentity(config, next)
  {
    forall a, b | 0 <= a < |config| && 0 <= b < |next| && ControlPlane in config[a].role
      ensures SameIdentity(config[a], next[b])
    {
      var addr := config[a].address;
      assert addr in ControlPlaneAddresses(config) && addr in ControlPlaneAddresses(mid);
      var p :| 0 <= p < |mid| && ControlPlane in mid[p].role && mid[p].address == addr;
      assert SameIdentity(config[a], mid[p]) && SameIdentity(mid[p], next[b]);
    }
  }

  lemma GoodIsIdentity(config: Config)
    requires GoodConfig(config)
    ensures SameIdentities(config, config)
  {
    forall a, b | 0 <= a < |config| && 0 <= b < |config| && config[a].address == config[b].address
      ensures a == b
    {
      assert ToSc(config)[a].address == ToSc(config)[b].address;
      assert a < b || b < a || a == b;
    }
  }
}

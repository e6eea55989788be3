/** Which node lists are accepted and how roles are stored and shown, place by place. */
module ConfigMeaning {
  import opened ClusterConfig

  // ---------------------------------------------------------------------------
  // Roles
  // ---------------------------------------------------------------------------

  /** Storing adds one etcd role for each controlplane role and changes nothing else. */
  lemma {:induction false} AddedRoles(roles: seq<Role>)
    ensures forall r :: multiset(AddEtcd(roles))[r] ==
                        multiset(roles)[r] + if r == Etcd then multiset(roles)[ControlPlane] else 0
  {
    if roles != [] {
      var front, last := roles[..|roles| - 1], roles[|roles| - 1];
      AddedRoles(front);
      assert roles == front + [last];
      assert multiset(AddEtcd(roles)) ==
             multiset(AddEtcd(front)) + multiset{last} + if last == ControlPlane then multiset{Etcd} else multiset{};
    }
  }

  ghost predicate EtcdFollows(s: seq<Role>) {
    forall i :: 0 <= i < |s| && s[i] == ControlPlane ==> i + 1 < |s| && s[i + 1] == Etcd
  }

  /** The etcd role stands right behind the controlplane role. */
  lemma {:induction false} AddedBehind(roles: seq<Role>)
    ensures EtcdFollows(AddEtcd(roles))
  {
    if roles != [] {
      AddedBehind(roles[..|roles| - 1]);
    }
  }

  /** Showing keeps the other roles in their order. */
  lemma {:induction false} ShownInOrder(roles: seq<Role>, more: seq<Role>)
    ensures StripEtcd(roles + more) == StripEtcd(roles) + StripEtcd(more)
  {
    if more == [] {
      assert roles + more == roles;
    } else {
      ShownInOrder(roles, more[..|more| - 1]);
      assert (roles + more)[..|roles + more| - 1] == roles + more[..|more| - 1];
    }
  }

  lemma {:induction false} ShownCounts(roles: seq<Role>)
    ensures forall r :: multiset(StripEtcd(roles))[r] == if r == Etcd then 0 else multiset(roles)[r]
  {
    if roles != [] {
      var front, last := roles[..|roles| - 1], roles[|roles| - 1];
      ShownCounts(front);
      assert roles == front + [last];
    }
  }

  lemma {:induction false} CountsDecide(s: seq<Role>)
    ensures (forall i, j :: 0 <= i < j < |s| ==> s[i] != s[j]) <==> forall r: Role :: multiset(s)[r] <= 1
  {
    if s != [] {
      var front, last := s[..|s| - 1], s[|s| - 1];
      CountsDecide(front);
      assert s == front + [last];
      assert forall i :: 0 <= i < |front| ==> front[i] == s[i];
      assert forall r: Role :: multiset(s)[r] == multiset(front)[r] + if r == last then 1 else 0;
      assert multiset(front)[last] > 0 <==> last in front;
      if last in front {
        var i :| 0 <= i < |front| && front[i] == last;
        assert s[i] == s[|s| - 1] && multiset(s)[last] >= 2;
      } else if forall r: Role :: multiset(front)[r] <= 1 {
        assert multiset(s)[last] == 1;
      }
    }
  }

  // ---------------------------------------------------------------------------
  // What is accepted
  // ---------------------------------------------------------------------------

  ghost predicate AllDiffer(nodes: seq<Node>) {
    forall i, j :: 0 <= i < j < |nodes| ==> nodes[i].address != nodes[j].address && nodes[i].name != nodes[j].name
  }

  ghost predicate SomeHas(nodes: seq<Node>, r: Role) {
    exists i :: 0 <= i < |nodes| && r in nodes[i].roles
  }

  /** The node has exactly one of the two roles, and no role twice. */
  ghost predicate OneOfTwo(n: Node) {
    && (ControlPlane in n.roles || Worker in n.roles) && !(ControlPlane in n.roles && Worker in n.roles)
    && forall r: Role :: multiset(n.roles)[r] <= 1
  }

  ghost predicate GoodList(nodes: seq<Node>) {
    && AllDiffer(nodes) && SomeHas(nodes, ControlPlane) && SomeHas(nodes, Worker)
    && forall i :: 0 <= i < |nodes| ==> OneOfTwo(nodes[i])
  }

  lemma GoodListMeans(nodes: seq<Node>)
    ensures GoodNodes(nodes) <==> GoodList(nodes)
  {
    forall i | 0 <= i < |nodes|
      ensures OneRole(nodes[i]) <==> OneOfTwo(nodes[i])
    {
      CountsDecide(nodes[i].roles);
    }
    BothMeans(nodes);
  }

  lemma BothMeans(nodes: seq<Node>)
    ensures HasBothRoles(nodes) <==> SomeHas(nodes, ControlPlane) && SomeHas(nodes, Worker)
  {
    if SomeHas(nodes, ControlPlane) && SomeHas(nodes, Worker) {
      var i :| 0 <= i < |nodes| && ControlPlane in nodes[i].roles;
      var j :| 0 <= j < |nodes| && Worker in nodes[j].roles;
      assert nodes[i].HasRole(ControlPlane) && nodes[j].HasRole(Worker);
    }
    if HasBothRoles(nodes) {
      var i :| 0 <= i < |nodes| && nodes[i].HasRole(ControlPlane);
      var j :| 0 <= j < |nodes| && nodes[j].HasRole(Worker);
    }
  }

  /** A create is accepted exactly for a good list, with a key and the other fields valid. */
  lemma CreateMeans(req: Request)
    ensures CreateAccepted(req) <==> GoodList(req.nodes) && req.othersValid && req.sshKey != ""
  {
    GoodListMeans(req.nodes);
  }

  /** An update is accepted exactly for a good list, with the other fields valid, in which every old
      controlplane address is one still, every kept address has its name and its roles, and, when
      there is a client to ask, no node is missing that storage uses or cannot answer for. */
  lemma UpdateMeans(old_: seq<Node>, req: Request, hasClient: bool, storage: StorageNodes)
    ensures UpdateAccepted(old_, req, hasClient, storage) <==>
            && GoodList(req.nodes) && req.othersValid
            && (forall i :: 0 <= i < |old_| && ControlPlane in old_[i].roles ==>
                              exists j :: StillControls(req.nodes, j, old_[i].address))
            && (forall i, j :: 0 <= i < |old_| && 0 <= j < |req.nodes| && old_[i].address == req.nodes[j].address ==>
                                 old_[i].name == req.nodes[j].name && SameRoles(old_[i], req.nodes[j]))
            && (hasClient ==>
                  forall i :: 0 <= i < |old_| && (old_[i].name in storage.used || old_[i].name in storage.failing) ==>
                                exists j :: StillNamed(req.nodes, j, old_[i].name))
  {
    GoodListMeans(req.nodes);
    forall i | 0 <= i < |old_|
      ensures (exists j :: StillControls(req.nodes, j, old_[i].address)) <==>
              exists j :: 0 <= j < |req.nodes| && req.nodes[j].address == old_[i].address
                          && req.nodes[j].HasRole(ControlPlane)
      ensures (exists j :: StillNamed(req.nodes, j, old_[i].name)) <==> !Removed(old_[i], req.nodes)
    {
      if j :| 0 <= j < |req.nodes| && req.nodes[j].address == old_[i].address && req.nodes[j].HasRole(ControlPlane) {
        assert StillControls(req.nodes, j, old_[i].address);
      }
      if j :| 0 <= j < |req.nodes| && req.nodes[j].name == old_[i].name {
        assert StillNamed(req.nodes, j, old_[i].name);
      }
    }
    forall i, j | 0 <= i < |old_| && 0 <= j < |req.nodes|
      ensures SameRoles(old_[i], req.nodes[j]) <==> old_[i].RoleSet() == req.nodes[j].RoleSet()
    {
      RolesMean(old_[i], req.nodes[j]);
    }
  }

  ghost predicate StillControls(nodes: seq<Node>, j: int, address: string) {
    0 <= j < |nodes| && nodes[j].address == address && ControlPlane in nodes[j].roles
  }

  ghost predicate StillNamed(nodes: seq<Node>, j: int, name: string) {
    0 <= j < |nodes| && nodes[j].name == name
  }

  ghost predicate SameRoles(n: Node, m: Node) {
    forall r :: r in n.roles <==> r in m.roles
  }

  lemma RolesMean(n: Node, m: Node)
    ensures SameRoles(n, m) <==> n.RoleSet() == m.RoleSet()
  {
    assert forall r :: r in n.RoleSet() <==> r in n.roles;
    assert forall r :: r in m.RoleSet() <==> r in m.roles;
  }

  // ---------------------------------------------------------------------------
  // What is stored
  // ---------------------------------------------------------------------------

  /** Storing keeps names, addresses and order, and showing undoes it but for the etcd roles. */
  lemma StoredMeans(nodes: seq<Node>, i: nat)
    requires i < |nodes|
    ensures |ToZke(nodes)| == |nodes| && |ToSc(ToZke(nodes))| == |nodes|
    ensures ToZke(nodes)[i].nodeName == nodes[i].name && ToZke(nodes)[i].address == nodes[i].address
    ensures ToZke(nodes)[i].role == AddEtcd(nodes[i].roles)
    ensures ToSc(ToZke(nodes))[i] == Node(nodes[i].name, nodes[i].address, StripEtcd(nodes[i].roles))
  {
    StripUndoesAdd(nodes[i].roles);
  }

  lemma ShownNodeMeans(n: ZkeNode)
    ensures ToScNode(n).name == n.nodeName && ToScNode(n).address == n.address
    ensures forall r :: r != Etcd ==> (r in ToScNode(n).roles <==> r in n.role)
    ensures OneOfTwo(ToScNode(n)) ==> OneOfTwoStored(n)
  {
    ConvertedRoles(n.role);
    ShownCounts(n.role);
  }

  ghost predicate SomeStores(config: Config, r: Role) {
    exists i :: 0 <= i < |config| && r in config[i].role
  }

  lemma SomeShows(config: Config, r: Role)
    requires SomeHas(ToSc(config), r) && r != Etcd
    ensures SomeStores(config, r)
  {
    var i :| 0 <= i < |config| && r in ToSc(config)[i].roles;
    ShownNodeMeans(config[i]);
  }

  /** A good stored configuration, on the stored roles. */
  lemma GoodConfigMeans(config: Config)
    requires GoodConfig(config)
    ensures forall i, j :: 0 <= i < j < |config| ==>
                             config[i].address != config[j].address && config[i].nodeName != config[j].nodeName
    ensures SomeStores(config, ControlPlane) && SomeStores(config, Worker)
    ensures forall i :: 0 <= i < |config| ==> OneOfTwoStored(config[i])
  {
    var shown := ToSc(config);
    GoodListMeans(shown);
    SomeShows(config, ControlPlane);
    SomeShows(config, Worker);
    forall i | 0 <= i < |config|
      ensures OneOfTwoStored(config[i])
    {
      assert shown[i] == ToScNode(config[i]);
      ShownNodeMeans(config[i]);
    }
    forall i, j | 0 <= i < j < |config|
      ensures config[i].address != config[j].address && config[i].nodeName != config[j].nodeName
    {
      assert shown[i].address != shown[j].address && shown[i].name != shown[j].name;
    }
  }

  ghost predicate OneOfTwoStored(n: ZkeNode) {
    && (ControlPlane in n.role <==> Worker !in n.role)
    && forall r: Role :: r != Etcd ==> multiset(n.role)[r] <= 1
  }
}

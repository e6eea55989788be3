/** The syncer in its own form: an object that splices and appends its two lists and sends
    record commands to the remote zone. */
module ClusterDnsSyncer {
  import opened DnsSyncer

  /** `genAuthRRs`: one record per domain and address, in order. */
  method GenAuthRRs(domains: seq<Name>, ips: seq<string>) returns (rrs: seq<(Name, string)>)
    ensures |rrs| == |domains| * |ips|
    ensures (set rr <- rrs) == Cross(domains, ips)
  {
    rrs := [];
    for i := 0 to |domains|
      invariant |rrs| == i * |ips|
      invariant forall rr :: rr in rrs <==> rr.0 in domains[..i] && rr.1 in ips
    {
      ghost var before := rrs;
      for j := 0 to |ips|
        invariant |rrs| == i * |ips| + j
        invariant forall rr :: rr in rrs <==> rr in before || (rr.0 == domains[i] && rr.1 in ips[..j])
      {
        rrs := rrs + [(domains[i], ips[j])];
        assert ips[..j + 1] == ips[..j] + [ips[j]];
      }
      assert ips[..|ips|] == ips;
      assert domains[..i + 1] == domains[..i] + [domains[i]];
    }
    assert domains[..|domains|] == domains;
  }

  class DnsSyncerObject {
    const resolve: Resolver
    var edgeNodeIPs: seq<string>
    var ingressDomains: seq<Name>
    var zone: set<(Name, string)>   // the A records held by the remote server
    var sent: seq<Command>          // the record commands sent to it

    ghost function Model(): Syncer
      reads this
    {
      Syncer(edgeNodeIPs, ingressDomains, zone)
    }

    /** The zone is deleted and created again, then the listed edge nodes are added. */
    constructor (resolve: Resolver, nodes: seq<K8sNode>)
      ensures this.resolve == resolve
      ensures Model() == Run(resolve, seq(|nodes|, i requires 0 <= i < |nodes| => NewNode(nodes[i])))
    {
      this.resolve := resolve;
      edgeNodeIPs, ingressDomains, zone, sent := [], [], {}, [];
      new;
      ghost var events := seq(|nodes|, i requires 0 <= i < |nodes| => NewNode(nodes[i]));
      for i := 0 to |nodes|
        invariant Model() == Run(resolve, events[..i])
      {
        assert events[..i + 1] == events[..i] + [NewNode(nodes[i])];
        assert events[..i + 1][..i] == events[..i];
        OnNewNode(nodes[i]);
      }
      assert events[..|nodes|] == events;
    }

    method AddAuthRRs(domains: seq<Name>, ips: seq<string>)
      modifies this`zone, this`sent
      ensures zone == old(zone) + Cross(domains, ips)
      ensures sent == old(sent) + AddCommand(domains, ips)
    {
      if |domains| != 0 && |ips| != 0 {
        var rrs := GenAuthRRs(domains, ips);
        zone := zone + set rr <- rrs;
        sent := sent + [AddRRs(set rr <- rrs)];
      }
    }

    method DeleteAuthRRs(domains: seq<Name>, ips: seq<string>)
      modifies this`zone, this`sent
      ensures zone == old(zone) - Cross(domains, ips)
      ensures sent == old(sent) + DeleteCommand(domains, ips)
    {
      if |domains| != 0 && |ips| != 0 {
        var rrs := GenAuthRRs(domains, ips);
        zone := zone - set rr <- rrs;
        sent := sent + [DeleteRRs(set rr <- rrs)];
      }
    }

    method UpdateAuthRRs(oldDomains: seq<Name>, newDomains: seq<Name>, ips: seq<string>)
      modifies this`zone, this`sent
      ensures zone == old(zone) - Cross(oldDomains, ips) + Cross(newDomains, ips)
      ensures sent == old(sent) + UpdateCommand(oldDomains, newDomains, ips)
    {
      if (|oldDomains| != 0 || |newDomains| != 0) && |ips| != 0 {
        var oldRrs := GenAuthRRs(oldDomains, ips);
        var newRrs := GenAuthRRs(newDomains, ips);
        zone := (zone - set rr <- oldRrs) + set rr <- newRrs;
        sent := sent + [UpdateRRs(set rr <- oldRrs, set rr <- newRrs)];
      }
    }

    method OnNewNode(n: K8sNode)
      modifies this
      ensures Model() == Handle(resolve, old(Model()), NewNode(n))
      ensures sent == old(sent) + Commands(resolve, old(Model()), NewNode(n))
    {
      if n.edge {
        if n.Ready() {
          AddEdgeNode(n.Ip());
        }
      }
    }

    method OnUpdateNode(o: K8sNode, n: K8sNode)
      modifies this
      ensures Model() == Handle(resolve, old(Model()), UpdateNode(o, n))
      ensures sent == old(sent) + Commands(resolve, old(Model()), UpdateNode(o, n))
    {
      if n.edge {
        if n.Ready() != o.Ready() {
          if n.Ready() {
            AddEdgeNode(n.Ip());
          } else {
            DeleteEdgeNode(n.Ip());
          }
        }
      }
    }

    method OnDeleteNode(n: K8sNode)
      modifies this
      ensures Model() == Handle(resolve, old(Model()), DeleteNode(n))
      ensures sent == old(sent) + Commands(resolve, old(Model()), DeleteNode(n))
    {
      if n.edge {
        if n.Ready() {
          DeleteEdgeNode(n.Ip());
        }
      }
    }

    method AddEdgeNode(ip: string)
      modifies this
      ensures Model() == AddNode(old(Model()), ip)
      ensures sent == old(sent) + AddNodeCommands(old(Model()), ip)
    {
      if ip == "" {
        return;
      }
      for i := 0 to |edgeNodeIPs|
        invariant ip !in edgeNodeIPs[..i]
      {
        if edgeNodeIPs[i] == ip {
          return;
        }
      }
      assert edgeNodeIPs[..|edgeNodeIPs|] == edgeNodeIPs;
      edgeNodeIPs := edgeNodeIPs + [ip];
      AddAuthRRs(ingressDomains, [ip]);
    }

    method DeleteEdgeNode(ip: string)
      modifies this
      ensures Model() == RemoveNode(old(Model()), ip)
      ensures sent == old(sent) + RemoveNodeCommands(old(Model()), ip)
    {
      if ip == "" {
        return;
      }
      var rest, found := Splice(edgeNodeIPs, ip);
      if !found {
        return;
      }
      edgeNodeIPs := rest;
      DeleteAuthRRs(ingressDomains, [ip]);
    }

    method OnNewIngressObject(hosts: seq<string>)
      modifies this
      ensures Model() == Handle(resolve, old(Model()), NewIngress(hosts))
      ensures sent == old(sent) + Commands(resolve, old(Model()), NewIngress(hosts))
    {
      var newDomains, ok := HostsToDomains(hosts, false);
      if ok {
        ingressDomains := ingressDomains + newDomains;
        AddAuthRRs(newDomains, edgeNodeIPs);
      }
    }

    method OnDeleteIngressObject(hosts: seq<string>)
      modifies this
      ensures Model() == Handle(resolve, old(Model()), DeleteIngress(hosts))
      ensures sent == old(sent) + Commands(resolve, old(Model()), DeleteIngress(hosts))
    {
      var oldDomains, ok := HostsToDomains(hosts, true);
      if ok {
        DeleteIngressDomains(oldDomains);
        DeleteAuthRRs(oldDomains, edgeNodeIPs);
      }
    }

    method OnUpdateIngressObject(oldHosts: seq<string>, newHosts: seq<string>)
      modifies this
      ensures Model() == Handle(resolve, old(Model()), UpdateIngress(oldHosts, newHosts))
      ensures sent == old(sent) + Commands(resolve, old(Model()), UpdateIngress(oldHosts, newHosts))
    {
      var oldDomains, ok := DiffIngressRules(oldHosts, newHosts, true);
      if !ok {
        return;
      }
      var newDomains, ok' := DiffIngressRules(newHosts, oldHosts, false);
      if !ok' {
        return;
      }
      if |oldDomains| == 0 && |newDomains| == 0 {
        return;
      }
      DeleteIngressDomains(oldDomains);
      ingressDomains := ingressDomains + newDomains;
      UpdateAuthRRs(oldDomains, newDomains, edgeNodeIPs);
    }

    /** The in-zone names of the hosts that are, or are not, listed; stops at a bad host. */
    method HostsToDomains(hosts: seq<string>, listed: bool) returns (names: seq<Name>, ok: bool)
      ensures ok <==> AllParse(resolve, hosts)
      ensures ok ==> names == Select(resolve, hosts, ingressDomains, listed)
    {
      names := [];
      for i := 0 to |hosts|
        invariant AllParse(resolve, hosts[..i])
        invariant names == Select(resolve, hosts[..i], ingressDomains, listed)
      {
        assert hosts[..i + 1][..i] == hosts[..i];
        assert hosts[..i + 1] == hosts[..i] + [hosts[i]];
        match resolve(hosts[i]) {
          case Unparsable =>
            assert hosts[i] in hosts;
            return names, false;
          case Outside =>
          case Inside(n) =>
            if (n in ingressDomains) == listed {
              names := names + [n];
            }
        }
      }
      assert hosts[..|hosts|] == hosts;
      ok := true;
    }

    method DiffIngressRules(rules: seq<string>, others: seq<string>, needExist: bool)
      returns (names: seq<Name>, ok: bool)
      ensures ok <==> AllParse(resolve, Missing(rules, others))
      ensures ok ==> names == Select(resolve, Missing(rules, others), ingressDomains, needExist)
    {
      names := [];
      for i := 0 to |rules|
        invariant AllParse(resolve, Missing(rules[..i], others))
        invariant names == Select(resolve, Missing(rules[..i], others), ingressDomains, needExist)
      {
        DiffStep(resolve, rules, others, i, ingressDomains, needExist);
        if rules[i] !in others {
          match resolve(rules[i]) {
            case Unparsable =>
              MissingHosts(rules, others);
              assert rules[i] in Missing(rules, others);
              return names, false;
            case Outside =>
            case Inside(n) =>
              if (n in ingressDomains) == needExist {
                names := names + [n];
              }
          }
        }
      }
      assert rules[..|rules|] == rules;
      ok := true;
    }

    method DeleteIngressDomains(domains: seq<Name>)
      modifies this`ingressDomains
      ensures ingressDomains == RemoveEach(old(ingressDomains), domains)
    {
      for i := 0 to |domains|
        invariant ingressDomains == RemoveEach(old(ingressDomains), domains[..i])
      {
        var rest, found := Splice(ingressDomains, domains[i]);
        ingressDomains := rest;
        assert domains[..i + 1][..i] == domains[..i];
      }
      assert domains[..|domains|] == domains;
    }
  }

  lemma DiffStep(r: Resolver, rules: seq<string>, others: seq<string>, i: nat, domains: seq<Name>, listed: bool)
    requires i < |rules| && AllParse(r, Missing(rules[..i], others))
    ensures AllParse(r, Missing(rules[..i + 1], others)) <==> rules[i] in others || r(rules[i]) != Unparsable
    ensures var before, h := Select(r, Missing(rules[..i], others), domains, listed), rules[i];
            Select(r, Missing(rules[..i + 1], others), domains, listed) ==
            if h !in others && r(h).Inside? && (r(h).name in domains) == listed then before + [r(h).name] else before
  {
    assert rules[..i + 1][..i] == rules[..i];
    var seen := Missing(rules[..i], others);
    if rules[i] !in others {
      assert (seen + [rules[i]])[..|seen|] == seen;
      assert (seen + [rules[i]])[|seen|] == rules[i];
    }
  }

  /** Cut the first occurrence out of a list. */
  method Splice(s: seq<string>, x: string) returns (r: seq<string>, found: bool)
    ensures r == RemoveFirst(s, x) && (found <==> x in s)
  {
    for i := 0 to |s|
      invariant x !in s[..i]
    {
      if s[i] == x {
        CutIsRemoveFirst(s, x, i);
        return s[..i] + s[i + 1..], true;
      }
    }
    assert s[..|s|] == s;
    return s, false;
  }

  lemma {:induction false} CutIsRemoveFirst(s: seq<string>, x: string, i: nat)
    requires i < |s| && s[i] == x && x !in s[..i]
    ensures s[..i] + s[i + 1..] == RemoveFirst(s, x)
  {
    if i > 0 {
      assert s[0] == s[..i][0];
      assert x !in s[1..][..i - 1] by {
        assert s[1..][..i - 1] == s[..i][1..];
      }
      CutIsRemoveFirst(s[1..], x, i - 1);
      assert s[..i] + s[i + 1..] == [s[0]] + (s[1..][..i - 1] + s[1..][i..]);
    }
  }
}

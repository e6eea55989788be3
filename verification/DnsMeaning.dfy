/** What the syncer lists, spelled out on conditions, addresses and hosts. */
module DnsMeaning {
  import opened Common
  import opened DnsSyncer
  import opened DnsTracking

  /** The condition at this place says that the node is ready. */
  ghost predicate ReadyAt(n: K8sNode, c: int) {
    0 <= c < |n.conditions| && n.conditions[c].isNodeReady && n.conditions[c].isTrue
  }

  lemma ReadyMeans(n: K8sNode)
    ensures n.Ready() <==> exists c :: ReadyAt(n, c)
  {
    if n.Ready() {
      var x :| x in n.conditions && x.isNodeReady && x.isTrue;
      var c :| 0 <= c < |n.conditions| && n.conditions[c] == x;
      assert ReadyAt(n, c);
    }
    if c :| ReadyAt(n, c) {
      assert n.conditions[c] in n.conditions;
    }
  }

  lemma IpMeans(n: K8sNode, ip: string)
    ensures n.Ip() == ip && ip != "" <==> exists i :: FirstAt(n.addresses, i) && n.addresses[i].address == ip
  {
    if i :| FirstAt(n.addresses, i) && n.addresses[i].address == ip {
      assert n.Ip() != "";
      var j :| FirstAt(n.addresses, j) && n.addresses[j].address == n.Ip();
      assert i < j || j < i || i == j;
    }
  }

  /** A node is listed by an event exactly when it is an edge node, has a ready condition and has
      an address; its address is the first internal or external one. */
  lemma NewNodeLists(r: Resolver, s: Syncer, n: K8sNode, ip: string)
    requires Inv(s)
    ensures var s' := Handle(r, s, NewNode(n));
            && s'.domains == s.domains
            && (ip in s'.ips <==>
                  || ip in s.ips
                  || (n.edge && (exists c :: ReadyAt(n, c))
                      && exists i :: FirstAt(n.addresses, i) && n.addresses[i].address == ip))
  {
    ReadyMeans(n);
    IpMeans(n, ip);
  }

  /** An event that deletes a node takes its address away, if it was an edge node that was ready. */
  lemma DeletedNodeGoes(r: Resolver, s: Syncer, n: K8sNode, ip: string)
    requires Inv(s)
    ensures var s' := Handle(r, s, DeleteNode(n));
            && s'.domains == s.domains
            && (ip in s'.ips <==>
                  && ip in s.ips
                  && !(n.edge && (exists c :: ReadyAt(n, c))
                       && exists i :: FirstAt(n.addresses, i) && n.addresses[i].address == ip))
  {
    ReadyMeans(n);
    IpMeans(n, ip);
  }

  /** An update lists the new address when an edge node becomes ready, takes it away when it stops
      being ready, and otherwise changes nothing. */
  lemma UpdatedNodeFollows(r: Resolver, s: Syncer, o: K8sNode, n: K8sNode, ip: string)
    requires Inv(s)
    ensures var s' := Handle(r, s, UpdateNode(o, n));
            var was, is_ := exists c :: ReadyAt(o, c), exists c :: ReadyAt(n, c);
            var its := exists i :: FirstAt(n.addresses, i) && n.addresses[i].address == ip;
            && s'.domains == s.domains
            && (ip in s'.ips <==>
                  if n.edge && is_ && !was then ip in s.ips || its
                  else if n.edge && !is_ && was then ip in s.ips && !its
                  else ip in s.ips)
  {
    ReadyMeans(o);
    ReadyMeans(n);
    IpMeans(n, ip);
  }

  /** A host at some place stands for this name. */
  ghost predicate NamedAt(r: Resolver, hosts: seq<string>, i: int, n: Name) {
    0 <= i < |hosts| && r(hosts[i]) == Inside(n)
  }

  lemma NamesMeans(r: Resolver, hosts: seq<string>, n: Name)
    ensures Names(r, hosts, n) <==> exists i :: NamedAt(r, hosts, i, n)
  {
    if Names(r, hosts, n) {
      var h :| h in hosts && r(h) == Inside(n);
      var i :| 0 <= i < |hosts| && hosts[i] == h;
      assert NamedAt(r, hosts, i, n);
    }
  }

  /** A new ingress lists every in-zone name it has; one host that does not parse and it does
      nothing. */
  lemma NewIngressLists(r: Resolver, s: Syncer, hosts: seq<string>, n: Name)
    ensures var s' := Handle(r, s, NewIngress(hosts));
            && s'.ips == s.ips
            && ((exists i :: 0 <= i < |hosts| && r(hosts[i]) == Unparsable) ==> s' == s)
            && ((forall i :: 0 <= i < |hosts| ==> r(hosts[i]) != Unparsable) ==>
                  (n in s'.domains <==> n in s.domains || exists i :: NamedAt(r, hosts, i, n)))
  {
    SelectedNames(r, hosts, s.domains, false);
    NamesMeans(r, hosts, n);
    assert forall i :: 0 <= i < |hosts| ==> hosts[i] in hosts;
  }

  /** A deleted ingress takes every in-zone name it has off the list; one host that does not parse
      and it does nothing. */
  lemma DeletedIngressGoes(r: Resolver, s: Syncer, hosts: seq<string>, n: Name)
    requires Inv(s)
    ensures var s' := Handle(r, s, DeleteIngress(hosts));
            && s'.ips == s.ips
            && ((exists i :: 0 <= i < |hosts| && r(hosts[i]) == Unparsable) ==> s' == s)
            && ((forall i :: 0 <= i < |hosts| ==> r(hosts[i]) != Unparsable) ==>
                  (n in s'.domains <==> n in s.domains && !exists i :: NamedAt(r, hosts, i, n)))
  {
    SelectedNames(r, hosts, s.domains, true);
    NamesMeans(r, hosts, n);
    assert forall i :: 0 <= i < |hosts| ==> hosts[i] in hosts;
  }

  /** An updated ingress takes a listed name away when a host that stood for it is no longer spelled,
      and lists an unlisted name when a newly spelled host stands for it; one host among those that
      come or go that does not parse and it does nothing. */
  lemma UpdatedIngressFollows(r: Resolver, s: Syncer, before: seq<string>, after: seq<string>, n: Name)
    requires Inv(s)
    ensures var s' := Handle(r, s, UpdateIngress(before, after));
            var goes := exists i :: NamedAt(r, before, i, n) && before[i] !in after;
            var comes := exists i :: NamedAt(r, after, i, n) && after[i] !in before;
            && s'.ips == s.ips
            && ((exists h :: (h in before) != (h in after) && r(h) == Unparsable) ==> s' == s)
            && ((forall h :: (h in before) != (h in after) ==> r(h) != Unparsable) ==>
                  (n in s'.domains <==> if n in s.domains then !goes else comes))
  {
    MissingHosts(before, after);
    MissingHosts(after, before);
    SelectedNames(r, Missing(before, after), s.domains, true);
    SelectedNames(r, Missing(after, before), s.domains, false);
    GoingName(r, before, after, n);
    GoingName(r, after, before, n);
  }

  lemma GoingName(r: Resolver, before: seq<string>, after: seq<string>, n: Name)
    ensures Names(r, Missing(before, after), n) <==> exists i :: NamedAt(r, before, i, n) && before[i] !in after
  {
    MissingHosts(before, after);
    if Names(r, Missing(before, after), n) {
      var h :| h in Missing(before, after) && r(h) == Inside(n);
      var i :| 0 <= i < |before| && before[i] == h;
      assert NamedAt(r, before, i, n);
    }
  }

  /** All along a history that drops no claimed name: an address is listed exactly when some edge
      node has it as its first internal or external address and has a condition that says it is
      ready; a name is listed exactly when some live ingress has a host that stands for it; and
      the zone has a record for exactly each listed name and each listed address. */
  lemma ListsMean(r: Resolver, changes: seq<Change>, o: Objects, s: Syncer, ip: string, n: Name)
    requires History(r, changes) && NeverDropsLive(r, changes)
    requires o == State(changes) && s == Synced(r, changes)
    ensures ip in s.ips <==>
            exists id, c, i :: id in o.nodes && o.nodes[id].edge && ReadyAt(o.nodes[id], c)
              && FirstAt(o.nodes[id].addresses, i) && o.nodes[id].addresses[i].address == ip
    ensures n in s.domains <==> exists id, i :: id in o.ingresses && NamedAt(r, o.ingresses[id], i, n)
    ensures (n, ip) in s.zone <==> n in s.domains && ip in s.ips
  {
    ListsTrackObjects(r, changes);
    HistoryConsistent(r, changes);
    assert Tracks(r, o, s);
    ReadyAddressMeans(r, o, ip);
    LiveNameMeans(r, o, n);
  }

  lemma ReadyAddressMeans(r: Resolver, o: Objects, ip: string)
    requires Consistent(r, o)
    ensures ReadyAddress(o, ip) <==>
            exists id, c, i :: id in o.nodes && o.nodes[id].edge && ReadyAt(o.nodes[id], c)
              && FirstAt(o.nodes[id].addresses, i) && o.nodes[id].addresses[i].address == ip
  {
    forall id <- o.nodes
      ensures Serves(o.nodes[id], ip) <==>
              o.nodes[id].edge && (exists c :: ReadyAt(o.nodes[id], c))
              && exists i :: FirstAt(o.nodes[id].addresses, i) && o.nodes[id].addresses[i].address == ip
    {
      ReadyMeans(o.nodes[id]);
      IpMeans(o.nodes[id], ip);
    }
    if ReadyAddress(o, ip) {
      var id :| id in o.nodes && Serves(o.nodes[id], ip);
      var c :| ReadyAt(o.nodes[id], c);
      var i :| FirstAt(o.nodes[id].addresses, i) && o.nodes[id].addresses[i].address == ip;
    }
  }

  lemma LiveNameMeans(r: Resolver, o: Objects, n: Name)
    ensures LiveName(r, o, n) <==> exists id, i :: id in o.ingresses && NamedAt(r, o.ingresses[id], i, n)
  {
    forall id <- o.ingresses
      ensures Names(r, o.ingresses[id], n) <==> exists i :: NamedAt(r, o.ingresses[id], i, n)
    {
      NamesMeans(r, o.ingresses[id], n);
    }
    if LiveName(r, o, n) {
      var id :| id in o.ingresses && Names(r, o.ingresses[id], n);
      var i :| NamedAt(r, o.ingresses[id], i, n);
    }
  }
}

/** The syncer against the cluster objects it is told about: over consistent histories its two
    lists are the ready edge addresses and the in-zone hosts of the live ingresses. */
module DnsTracking {
  import opened Common
  import opened DnsSyncer
  import opened Text

  datatype Objects = Objects(nodes: map<string, K8sNode>, ingresses: map<string, seq<string>>)

  datatype Change =
    | NodeAdded(id: string, node: K8sNode)
    | NodeChanged(id: string, node: K8sNode)
    | NodeGone(id: string)
    | IngressAdded(id: string, hosts: seq<string>)
    | IngressChanged(id: string, hosts: seq<string>)
    | IngressGone(id: string)

  /** Addresses are distinct and not empty, hosts parse, and no object names one name twice. */
  ghost predicate Consistent(r: Resolver, o: Objects) {
    && (forall a <- o.nodes | o.nodes[a].edge :: o.nodes[a].Ip() != "")
    && (forall a <- o.nodes, b <- o.nodes | a != b && o.nodes[a].edge && o.nodes[b].edge ::
          o.nodes[a].Ip() != o.nodes[b].Ip())
    && (forall a <- o.ingresses :: AllParse(r, o.ingresses[a]) && DistinctHosts(r, o.ingresses[a]))
  }

  /** No name is claimed by two objects. */
  ghost predicate Unshared(r: Resolver, o: Objects) {
    forall a <- o.ingresses, b <- o.ingresses, n: Name | a != b ::
      !(Names(r, o.ingresses[a], n) && Names(r, o.ingresses[b], n))
  }

  ghost function After(o: Objects, ch: Change): Objects {
    match ch
    case NodeAdded(id, n) => o.(nodes := o.nodes[id := n])
    case NodeChanged(id, n) => o.(nodes := o.nodes[id := n])
    case NodeGone(id) => o.(nodes := o.nodes - {id})
    case IngressAdded(id, hosts) => o.(ingresses := o.ingresses[id := hosts])
    case IngressChanged(id, hosts) => o.(ingresses := o.ingresses[id := hosts])
    case IngressGone(id) => o.(ingresses := o.ingresses - {id})
  }

  /** A change the cluster can report: edge labels and addresses are fixed. A node may be
      reported as added again unchanged, as it is after the initial listing. */
  ghost predicate Possible(r: Resolver, o: Objects, ch: Change) {
    && Consistent(r, After(o, ch))
    && match ch
       case NodeAdded(id, n) => id !in o.nodes || o.nodes[id] == n
       case NodeChanged(id, n) => id in o.nodes && o.nodes[id].edge == n.edge && o.nodes[id].Ip() == n.Ip()
       case NodeGone(id) => id in o.nodes
       case IngressAdded(id, _) => id !in o.ingresses
       case IngressChanged(id, _) => id in o.ingresses
       case IngressGone(id) => id in o.ingresses
  }

  ghost function EventOf(r: Resolver, o: Objects, ch: Change): Event
    requires Possible(r, o, ch)
  {
    match ch
    case NodeAdded(_, n) => NewNode(n)
    case NodeChanged(id, n) => UpdateNode(o.nodes[id], n)
    case NodeGone(id) => DeleteNode(o.nodes[id])
    case IngressAdded(_, hosts) => NewIngress(hosts)
    case IngressChanged(id, hosts) => UpdateIngress(o.ingresses[id], hosts)
    case IngressGone(id) => DeleteIngress(o.ingresses[id])
  }

  ghost predicate ReadyAddress(o: Objects, ip: string) {
    exists id <- o.nodes :: Serves(o.nodes[id], ip)
  }

  ghost predicate Serves(n: K8sNode, ip: string) {
    n.edge && n.Ready() && n.Ip() == ip
  }

  ghost predicate ReadyElsewhere(o: Objects, id: string, ip: string) {
    exists a <- o.nodes :: a != id && Serves(o.nodes[a], ip)
  }

  ghost predicate Names(r: Resolver, hosts: seq<string>, n: Name) {
    exists h <- hosts :: r(h) == Inside(n)
  }

  ghost predicate LiveName(r: Resolver, o: Objects, n: Name) {
    exists id <- o.ingresses :: Names(r, o.ingresses[id], n)
  }

  ghost predicate Tracks(r: Resolver, o: Objects, s: Syncer) {
    && Inv(s)
    && (forall ip :: ip in s.ips <==> ReadyAddress(o, ip))
    && (forall n :: n in s.domains <==> LiveName(r, o, n))
  }

  /** The change takes this host away from its object. */
  ghost predicate Drops(o: Objects, ch: Change, h: string) {
    match ch
    case IngressChanged(id, hosts) => id in o.ingresses && h in o.ingresses[id] && h !in hosts
    case IngressGone(id) => id in o.ingresses && h in o.ingresses[id]
    case _ => false
  }

  /** A host it takes away stands for a name that is still claimed after it, by another object or
      by the same one in another spelling. */
  ghost predicate DropsLive(r: Resolver, o: Objects, ch: Change) {
    exists h :: Drops(o, ch, h) && r(h).Inside? && LiveName(r, After(o, ch), r(h).name)
  }

  /** An address is ready through the changed node or through another one. */
  lemma ReadyAddressSplit(o: Objects, o': Objects, id: string, ip: string)
    requires o'.nodes - {id} == o.nodes - {id}
    ensures ReadyAddress(o', ip) <==> (id in o'.nodes && Serves(o'.nodes[id], ip)) || ReadyElsewhere(o, id, ip)
    ensures ReadyAddress(o, ip) <==> (id in o.nodes && Serves(o.nodes[id], ip)) || ReadyElsewhere(o, id, ip)
  {
    forall a | a != id
      ensures a in o.nodes <==> a in o'.nodes
      ensures a in o.nodes ==> o.nodes[a] == o'.nodes[a]
    {
      assert a in o.nodes <==> a in o.nodes - {id};
      assert a in o'.nodes <==> a in o'.nodes - {id};
      if a in o.nodes {
        assert (o.nodes - {id})[a] == (o'.nodes - {id})[a];
      }
    }
    if ReadyElsewhere(o, id, ip) {
      var a :| a in o.nodes && a != id && Serves(o.nodes[a], ip);
      assert a in o'.nodes && Serves(o'.nodes[a], ip);
    }
  }

  ghost function NodeOf(o: Objects, ch: Change): K8sNode
    requires ch.NodeAdded? || ch.NodeChanged? || (ch.NodeGone? && ch.id in o.nodes)
  {
    if ch.NodeGone? then o.nodes[ch.id] else ch.node
  }

  /** No other edge node has the address of the changed one. */
  lemma AddressIsOwn(r: Resolver, o: Objects, ch: Change)
    requires Consistent(r, o) && Possible(r, o, ch) && (ch.NodeAdded? || ch.NodeChanged? || ch.NodeGone?)
    ensures NodeOf(o, ch).edge ==> NodeOf(o, ch).Ip() != "" && !ReadyElsewhere(o, ch.id, NodeOf(o, ch).Ip())
  {
    var o', node := After(o, ch), NodeOf(o, ch);
    forall a <- o.nodes | a != ch.id && node.edge && o.nodes[a].edge
      ensures o.nodes[a].Ip() != node.Ip()
    {
      if !ch.NodeGone? {
        assert a in o'.nodes && o'.nodes[a] == o.nodes[a] && ch.id in o'.nodes && o'.nodes[ch.id] == node;
      }
    }
    assert !ch.NodeGone? ==> ch.id in o'.nodes && o'.nodes[ch.id] == node;
  }

  /** What a node event does to one address. */
  lemma AddressAfter(r: Resolver, o: Objects, s: Syncer, ch: Change, ip: string)
    requires Consistent(r, o) && Tracks(r, o, s) && Possible(r, o, ch)
    requires ch.NodeAdded? || ch.NodeChanged? || ch.NodeGone?
    ensures ip in Handle(r, s, EventOf(r, o, ch)).ips <==> ReadyAddress(After(o, ch), ip)
  {
    AddressIsOwn(r, o, ch);
    assert After(o, ch).nodes - {ch.id} == o.nodes - {ch.id};
    ReadyAddressSplit(o, After(o, ch), ch.id, ip);
  }

  lemma NodeChangeTracked(r: Resolver, o: Objects, s: Syncer, ch: Change)
    requires Consistent(r, o) && Tracks(r, o, s) && Possible(r, o, ch)
    requires ch.NodeAdded? || ch.NodeChanged? || ch.NodeGone?
    ensures Tracks(r, After(o, ch), Handle(r, s, EventOf(r, o, ch)))
  {
    var o', e := After(o, ch), EventOf(r, o, ch);
    EventKeepsInv(r, s, e);
    forall ip
      ensures ip in Handle(r, s, e).ips <==> ReadyAddress(o', ip)
    {
      AddressAfter(r, o, s, ch, ip);
    }
    assert o'.ingresses == o.ingresses && Handle(r, s, e).domains == s.domains;
    assert forall n :: LiveName(r, o', n) <==> LiveName(r, o, n);
  }

  lemma IngressAddedTracked(r: Resolver, o: Objects, s: Syncer, ch: Change)
    requires Consistent(r, o) && Tracks(r, o, s) && Possible(r, o, ch) && ch.IngressAdded?
    ensures Tracks(r, After(o, ch), Handle(r, s, EventOf(r, o, ch)))
  {
    var o', e := After(o, ch), EventOf(r, o, ch);
    var s' := Handle(r, s, e);
    assert o'.ingresses[ch.id] == ch.hosts;
    SelectedNames(r, ch.hosts, s.domains, false);
    EventKeepsInv(r, s, e);
    forall n
      ensures n in s'.domains <==> LiveName(r, o', n)
    {
      LiveNameSplit(r, o, o', ch.id, n);
      assert n in s'.domains <==> n in s.domains || Names(r, ch.hosts, n);
    }
  }

  /** A name is live if the changed ingress has it or another one does. */
  lemma LiveNameSplit(r: Resolver, o: Objects, o': Objects, id: string, n: Name)
    requires o'.ingresses - {id} == o.ingresses - {id}
    ensures LiveName(r, o', n) <==>
            (id in o'.ingresses && Names(r, o'.ingresses[id], n)) || Elsewhere(r, o, id, n)
    ensures LiveName(r, o, n) <==>
            (id in o.ingresses && Names(r, o.ingresses[id], n)) || Elsewhere(r, o, id, n)
  {
    forall a | a != id
      ensures a in o.ingresses <==> a in o'.ingresses
      ensures a in o.ingresses ==> o.ingresses[a] == o'.ingresses[a]
    {
      assert a in o.ingresses <==> a in o.ingresses - {id};
      assert a in o'.ingresses <==> a in o'.ingresses - {id};
      if a in o.ingresses {
        assert (o.ingresses - {id})[a] == (o'.ingresses - {id})[a];
      }
    }
    if LiveName(r, o', n) {
      var a :| a in o'.ingresses && Names(r, o'.ingresses[a], n);
    }
    if Elsewhere(r, o, id, n) {
      var a :| a in o.ingresses && a != id && Names(r, o.ingresses[a], n);
      assert a in o'.ingresses && Names(r, o'.ingresses[a], n);
    }
  }

  ghost predicate Elsewhere(r: Resolver, o: Objects, id: string, n: Name) {
    exists a <- o.ingresses :: a != id && Names(r, o.ingresses[a], n)
  }

  /** A deleted ingress is tracked exactly when no other one claims a name of it. */
  lemma IngressGoneTracked(r: Resolver, o: Objects, s: Syncer, ch: Change)
    requires Consistent(r, o) && Tracks(r, o, s) && Possible(r, o, ch) && ch.IngressGone?
    ensures Tracks(r, After(o, ch), Handle(r, s, EventOf(r, o, ch))) <==> !DropsLive(r, o, ch)
  {
    var o', e := After(o, ch), EventOf(r, o, ch);
    var s', hosts := Handle(r, s, e), o.ingresses[ch.id];
    SelectedNames(r, hosts, s.domains, true);
    EventKeepsInv(r, s, e);
    assert o'.ingresses - {ch.id} == o.ingresses - {ch.id};
    forall n
      ensures n in s'.domains <==> LiveName(r, o', n) && !Names(r, hosts, n)
    {
      LiveNameSplit(r, o, o', ch.id, n);
      assert n in s'.domains <==> n in s.domains && !Names(r, hosts, n);
    }
    TracksIff(r, o, s, ch, s', hosts);
  }

  /** When the new list is the live names without those of the hosts dropped, it lacks one
      exactly when a live name was dropped. */
  lemma TracksIff(r: Resolver, o: Objects, s: Syncer, ch: Change, s': Syncer, dropped: seq<string>)
    requires Tracks(r, o, s) && Inv(s') && s'.ips == s.ips && After(o, ch).nodes == o.nodes
    requires forall h :: h in dropped <==> Drops(o, ch, h)
    requires forall n :: n in s'.domains <==> LiveName(r, After(o, ch), n) && !Names(r, dropped, n)
    ensures Tracks(r, After(o, ch), s') <==> !DropsLive(r, o, ch)
  {
    var o' := After(o, ch);
    assert forall ip :: ReadyAddress(o', ip) <==> ReadyAddress(o, ip);
    if DropsLive(r, o, ch) {
      var h :| Drops(o, ch, h) && r(h).Inside? && LiveName(r, o', r(h).name);
      assert h in dropped && Names(r, dropped, r(h).name);
    } else {
      forall n
        ensures n in s'.domains <==> LiveName(r, o', n)
      {
        if Names(r, dropped, n) {
          var h :| h in dropped && r(h) == Inside(n);
          assert Drops(o, ch, h);
        }
      }
    }
  }

  /** Where one name ends up when its ingress is updated. */
  lemma UpdatedName(r: Resolver, s: Syncer, before: seq<string>, after: seq<string>, n: Name)
    requires AllParse(r, before) && AllParse(r, after) && NoDup(s.domains)
    ensures n in OnUpdateIngress(r, s, before, after).domains <==>
            if n in s.domains then !Names(r, Missing(before, after), n) else Names(r, Missing(after, before), n)
  {
    MissingHosts(before, after);
    MissingHosts(after, before);
    SelectedNames(r, Missing(before, after), s.domains, true);
    SelectedNames(r, Missing(after, before), s.domains, false);
  }

  /** An updated ingress is tracked exactly when no host it drops stands for a name still claimed:
      hosts are compared as text, but listed as names. */
  lemma IngressChangedTracked(r: Resolver, o: Objects, s: Syncer, ch: Change)
    requires Consistent(r, o) && Tracks(r, o, s) && Possible(r, o, ch) && ch.IngressChanged?
    ensures Tracks(r, After(o, ch), Handle(r, s, EventOf(r, o, ch))) <==> !DropsLive(r, o, ch)
  {
    var o', e := After(o, ch), EventOf(r, o, ch);
    var s', before, after := Handle(r, s, e), o.ingresses[ch.id], ch.hosts;
    assert o'.ingresses[ch.id] == after && o'.ingresses - {ch.id} == o.ingresses - {ch.id};
    EventKeepsInv(r, s, e);
    MissingHosts(before, after);
    forall n
      ensures n in s'.domains <==> LiveName(r, o', n) && !Names(r, Missing(before, after), n)
    {
      LiveNameSplit(r, o, o', ch.id, n);
      UpdatedName(r, s, before, after, n);
      UpdatedHosts(r, before, after, n);
    }
    TracksIff(r, o, s, ch, s', Missing(before, after));
  }

  /** A name that loses no spelling and was claimed stays claimed; one that was not claimed comes
      with a new spelling. */
  lemma UpdatedHosts(r: Resolver, before: seq<string>, after: seq<string>, n: Name)
    ensures Names(r, before, n) && !Names(r, Missing(before, after), n) ==> Names(r, after, n)
    ensures !Names(r, before, n) ==> (Names(r, Missing(after, before), n) <==> Names(r, after, n))
    ensures Names(r, Missing(before, after), n) ==> Names(r, before, n)
  {
    MissingHosts(before, after);
    MissingHosts(after, before);
  }

  /** A host respelled by an update loses its name. */
  lemma RespelledName(r: Resolver, s: Syncer, before: seq<string>, after: seq<string>, h: string, k: string)
    requires AllParse(r, before) && AllParse(r, after) && NoDup(s.domains) && DistinctHosts(r, after)
    requires h in before && k in after && r(h).Inside? && r(h) == r(k) && h != k && r(h).name in s.domains
    ensures r(h).name !in OnUpdateIngress(r, s, before, after).domains
  {
    OneSpelling(r, after, k, h);
    MissingHosts(before, after);
    assert h in Missing(before, after);
    UpdatedName(r, s, before, after, r(h).name);
  }

  lemma LostSpelling(r: Resolver, o: Objects, s: Syncer, ch: Change, h: string, k: string)
    requires Consistent(r, o) && Tracks(r, o, s) && Possible(r, o, ch) && ch.IngressChanged?
    requires h in o.ingresses[ch.id] && k in ch.hosts && r(h).Inside? && r(h) == r(k) && h != k
    ensures r(h).name !in Handle(r, s, EventOf(r, o, ch)).domains && LiveName(r, After(o, ch), r(h).name)
  {
    var before := o.ingresses[ch.id];
    NamedIsLive(r, o, ch.id, h);
    assert After(o, ch).ingresses[ch.id] == ch.hosts;
    NamedIsLive(r, After(o, ch), ch.id, k);
    RespelledName(r, s, before, ch.hosts, h, k);
  }

  lemma NamedIsLive(r: Resolver, o: Objects, id: string, h: string)
    requires Consistent(r, o) && id in o.ingresses && h in o.ingresses[id] && r(h).Inside?
    ensures LiveName(r, o, r(h).name) && AllParse(r, o.ingresses[id]) && DistinctHosts(r, o.ingresses[id])
  {
  }

  lemma OneSpelling(r: Resolver, hosts: seq<string>, h: string, k: string)
    requires DistinctHosts(r, hosts) && h in hosts && r(h).Inside? && r(h) == r(k) && h != k
    ensures k !in hosts
  {
  }

  // ---------------------------------------------------------------------------
  // Whole histories
  // ---------------------------------------------------------------------------

  /** Every change of a history was possible. */
  ghost predicate History(r: Resolver, changes: seq<Change>) {
    changes != [] ==>
      var front, ch := changes[..|changes| - 1], changes[|changes| - 1];
      History(r, front) && Possible(r, State(front), ch)
  }

  ghost function State(changes: seq<Change>): Objects {
    if changes == [] then Objects(map[], map[])
    else After(State(changes[..|changes| - 1]), changes[|changes| - 1])
  }

  ghost function Synced(r: Resolver, changes: seq<Change>): Syncer
    requires History(r, changes)
  {
    if changes == [] then Syncer([], [], {})
    else
      var front, ch := changes[..|changes| - 1], changes[|changes| - 1];
      Handle(r, Synced(r, front), EventOf(r, State(front), ch))
  }

  /** No change of the history dropped a name still claimed. */
  ghost predicate NeverDropsLive(r: Resolver, changes: seq<Change>) {
    changes != [] ==>
      var front, ch := changes[..|changes| - 1], changes[|changes| - 1];
      NeverDropsLive(r, front) && !DropsLive(r, State(front), ch)
  }

  ghost predicate TracksThroughout(r: Resolver, changes: seq<Change>)
    requires History(r, changes)
  {
    && Tracks(r, State(changes), Synced(r, changes))
    && (changes != [] ==> TracksThroughout(r, changes[..|changes| - 1]))
  }

  lemma HistoryConsistent(r: Resolver, changes: seq<Change>)
    requires History(r, changes)
    ensures Consistent(r, State(changes))
  {
  }

  /** One change of a tracked world is tracked exactly when it drops no name still claimed. */
  lemma ChangeTracked(r: Resolver, o: Objects, s: Syncer, ch: Change)
    requires Consistent(r, o) && Tracks(r, o, s) && Possible(r, o, ch)
    ensures Tracks(r, After(o, ch), Handle(r, s, EventOf(r, o, ch))) <==> !DropsLive(r, o, ch)
  {
    match ch
    case IngressAdded(_, _) => IngressAddedTracked(r, o, s, ch);
    case IngressChanged(_, _) => IngressChangedTracked(r, o, s, ch);
    case IngressGone(_) => IngressGoneTracked(r, o, s, ch);
    case _ => NodeChangeTracked(r, o, s, ch);
  }

  /** Over every history, the addresses are those of the ready edge nodes, the domains are the
      in-zone hosts of the live ingresses and the zone is their cross product, all along, if
      and only if no change drops a host whose name is still claimed. */
  lemma {:induction false} ListsTrackObjects(r: Resolver, changes: seq<Change>)
    requires History(r, changes)
    ensures TracksThroughout(r, changes) <==> NeverDropsLive(r, changes)
  {
    if changes != [] {
      var front, ch := changes[..|changes| - 1], changes[|changes| - 1];
      ListsTrackObjects(r, front);
      HistoryConsistent(r, front);
      if TracksThroughout(r, front) {
        ChangeTracked(r, State(front), Synced(r, front), ch);
      }
    }
  }

  /** Among these hosts no name has two spellings, as when only lower case is admitted. */
  ghost predicate OneSpellingEach(r: Resolver, hosts: iset<string>) {
    forall h, k :: h in hosts && k in hosts && r(h).Inside? && r(h) == r(k) ==> h == k
  }

  ghost predicate HostsFrom(ch: Change, hosts: iset<string>) {
    ch.IngressAdded? || ch.IngressChanged? ==> forall h <- ch.hosts :: h in hosts
  }

  lemma {:induction false} LiveHostsFrom(changes: seq<Change>, hosts: iset<string>)
    requires forall ch <- changes :: HostsFrom(ch, hosts)
    ensures forall id <- State(changes).ingresses, h <- State(changes).ingresses[id] :: h in hosts
  {
    if changes != [] {
      var front, ch := changes[..|changes| - 1], changes[|changes| - 1];
      LiveHostsFrom(front, hosts);
      assert HostsFrom(ch, hosts);
    }
  }

  ghost predicate AlwaysUnshared(r: Resolver, changes: seq<Change>) {
    Unshared(r, State(changes)) && (changes != [] ==> AlwaysUnshared(r, changes[..|changes| - 1]))
  }

  lemma NothingLiveDropped(r: Resolver, o: Objects, ch: Change, hosts: iset<string>)
    requires OneSpellingEach(r, hosts) && HostsFrom(ch, hosts) && Unshared(r, o)
    requires forall id <- o.ingresses, h <- o.ingresses[id] :: h in hosts
    ensures !DropsLive(r, o, ch)
  {
    forall h | Drops(o, ch, h) && r(h).Inside?
      ensures !LiveName(r, After(o, ch), r(h).name)
    {
      var o', n := After(o, ch), r(h).name;
      assert Names(r, o.ingresses[ch.id], n);
      forall a <- o'.ingresses
        ensures !Names(r, o'.ingresses[a], n)
      {
        if a != ch.id {
          assert o'.ingresses[a] == o.ingresses[a];
        }
      }
    }
  }

  /** With one spelling for each name, and no name claimed by two objects at once, every history is
      tracked all along. */
  lemma {:induction false} CanonicalHostsTracked(r: Resolver, changes: seq<Change>, hosts: iset<string>)
    requires History(r, changes) && AlwaysUnshared(r, changes)
    requires OneSpellingEach(r, hosts) && forall ch <- changes :: HostsFrom(ch, hosts)
    ensures TracksThroughout(r, changes)
  {
    ListsTrackObjects(r, changes);
    if changes != [] {
      var front, ch := changes[..|changes| - 1], changes[|changes| - 1];
      CanonicalHostsTracked(r, front, hosts);
      ListsTrackObjects(r, front);
      LiveHostsFrom(front, hosts);
      assert HostsFrom(ch, hosts);
      NothingLiveDropped(r, State(front), ch, hosts);
    }
  }

  // ---------------------------------------------------------------------------
  // A name lost by respelling, and by sharing
  // ---------------------------------------------------------------------------

  /** Names are equal whatever their case, and every nonempty host is in the zone. */
  function FoldCase(host: string): Resolution {
    if host == "" then Unparsable else Inside(Lower(host))
  }

  const EDGE := K8sNode(true, [Condition(true, true)], [Address(InternalIP, "1")])
  const BEFORE := Objects(map["n" := EDGE], map["i" := ["a"]])
  const RESPELL := IngressChanged("i", ["A"])

  const LISTED := Syncer(["1"], ["a"], {("a", "1")})

  lemma ExampleHosts()
    ensures FoldCase("a") == FoldCase("A") == Inside("a") && "a" != "A"
    ensures forall n :: Names(FoldCase, ["a"], n) <==> n == "a"
  {
    assert Lower("a") == "a" && Lower("A") == "a" && "a"[0] != "A"[0];
    var r: Resolver := FoldCase;
    assert ["a"][0] == "a" && "a" in ["a"] && r("a") == Inside("a");
    assert Names(r, ["a"], "a");
  }

  lemma ExampleConsistent()
    ensures Consistent(FoldCase, BEFORE) && Possible(FoldCase, BEFORE, RESPELL)
    ensures forall ip :: Serves(EDGE, ip) <==> ip == "1"
  {
    assert EDGE.conditions[0].isTrue && EDGE.Ready() && EDGE.Ip() == "1";
  }

  lemma ExampleTracked()
    ensures Tracks(FoldCase, BEFORE, LISTED)
  {
    ExampleHosts();
    ExampleConsistent();
    assert Inv(LISTED);
    assert ["a"][0] == "a" && ["1"][0] == "1";
    assert BEFORE.nodes["n"] == EDGE && BEFORE.ingresses["i"] == ["a"];
    forall ip
      ensures ip in LISTED.ips <==> ReadyAddress(BEFORE, ip)
    {
      assert ReadyAddress(BEFORE, ip) <==> Serves(BEFORE.nodes["n"], ip);
    }
    forall n
      ensures n in LISTED.domains <==> LiveName(FoldCase, BEFORE, n)
    {
      assert LiveName(FoldCase, BEFORE, n) <==> Names(FoldCase, BEFORE.ingresses["i"], n);
    }
  }

  /** Changing the host of the only ingress from "a" to "A" drops the name from the list although
      the ingress is live under it. */
  lemma RespellingLosesName()
    ensures Tracks(FoldCase, BEFORE, LISTED) && Possible(FoldCase, BEFORE, RESPELL)
    ensures "a" !in Handle(FoldCase, LISTED, EventOf(FoldCase, BEFORE, RESPELL)).domains
    ensures LiveName(FoldCase, After(BEFORE, RESPELL), "a")
  {
    ExampleHosts();
    ExampleConsistent();
    ExampleTracked();
    assert ["a"][0] == "a" && ["A"][0] == "A";
    LostSpelling(FoldCase, BEFORE, LISTED, RESPELL, "a", "A");
  }

  const SHARED := Objects(map["n" := EDGE], map["i" := ["a"], "j" := ["a"]])

  /** Two ingresses share a host: deleting one drops the name although the other is live under it. */
  lemma SharedHostLost()
    ensures Tracks(FoldCase, SHARED, LISTED) && Possible(FoldCase, SHARED, IngressGone("j"))
    ensures "a" !in Handle(FoldCase, LISTED, EventOf(FoldCase, SHARED, IngressGone("j"))).domains
    ensures LiveName(FoldCase, After(SHARED, IngressGone("j")), "a")
  {
    ExampleHosts();
    SharedTracked();
    SelectedNames(FoldCase, ["a"], ["a"], true);
    var r: Resolver := FoldCase;
    assert ["a"][0] == "a" && "a" in ["a"] && r("a") == Inside("a");
    var o' := After(SHARED, IngressGone("j"));
    assert "i"[0] != "j"[0] && "i" in o'.ingresses && o'.ingresses["i"] == ["a"];
  }

  lemma SharedTracked()
    ensures Tracks(FoldCase, SHARED, LISTED) && Possible(FoldCase, SHARED, IngressGone("j"))
  {
    ExampleHosts();
    ExampleTracked();
    ExampleConsistent();
    assert SHARED.nodes == BEFORE.nodes;
    assert forall ip :: ReadyAddress(SHARED, ip) <==> ReadyAddress(BEFORE, ip);
    assert SHARED.ingresses["i"] == ["a"] && SHARED.ingresses["j"] == ["a"] && BEFORE.ingresses["i"] == ["a"];
    assert forall n :: LiveName(FoldCase, SHARED, n) <==> LiveName(FoldCase, BEFORE, n);
  }
}

/** What the global DNS syncer does to its two lists and to the remote zone, as functions. */
module DnsSyncer {
  import opened Common

  type Name = string

  /** A host name parsed and tested against the zone by the DNS library. Names that the
      library calls equal are one `Name`. */
  datatype Resolution = Unparsable | Outside | Inside(name: Name)
  type Resolver = string -> Resolution

  datatype Condition = Condition(isNodeReady: bool, isTrue: bool)
  datatype AddressKind = InternalIP | ExternalIP | OtherAddress
  datatype Address = Address(kind: AddressKind, address: string)

  datatype K8sNode = K8sNode(edge: bool, conditions: seq<Condition>, addresses: seq<Address>) {
    predicate Ready() {
      exists c <- conditions :: c.isNodeReady && c.isTrue
    }

    function Ip(): string {
      FirstIp(addresses)
    }
  }

  /** The first nonempty internal or external address, or nothing. */
  function FirstIp(addresses: seq<Address>): (ip: string)
    ensures ip != "" ==> exists i :: FirstAt(addresses, i) && addresses[i].address == ip
    ensures ip == "" ==> forall i :: 0 <= i < |addresses| && !addresses[i].kind.OtherAddress? ==>
                                       addresses[i].address == ""
  {
    if addresses == [] then ""
    else if addresses[0].kind != OtherAddress && addresses[0].address != "" then
      assert FirstAt(addresses, 0);
      addresses[0].address
    else
      var rest := FirstIp(addresses[1..]);
      assert forall i :: 1 <= i < |addresses| ==> addresses[i] == addresses[1..][i - 1];
      assert forall i :: FirstAt(addresses[1..], i) ==> FirstAt(addresses, i + 1);
      rest
  }

  /** The first internal or external address that is not empty. */
  ghost predicate FirstAt(addresses: seq<Address>, i: int) {
    && 0 <= i < |addresses|
    && (addresses[i].kind.InternalIP? || addresses[i].kind.ExternalIP?) && addresses[i].address != ""
    && forall j :: 0 <= j < i ==> addresses[j].kind == OtherAddress || addresses[j].address == ""
  }

  /** The two lists and the A records of the remote zone. */
  datatype Syncer = Syncer(ips: seq<string>, domains: seq<Name>, zone: set<(Name, string)>)

  datatype Event =
    | NewNode(node: K8sNode)
    | UpdateNode(oldNode: K8sNode, newNode: K8sNode)
    | DeleteNode(node: K8sNode)
    | NewIngress(hosts: seq<string>)
    | UpdateIngress(oldHosts: seq<string>, newHosts: seq<string>)
    | DeleteIngress(hosts: seq<string>)

  // ---------------------------------------------------------------------------
  // Lists
  // ---------------------------------------------------------------------------

  function Cross(domains: seq<Name>, ips: seq<string>): set<(Name, string)> {
    set d <- domains, i <- ips :: (d, i)
  }

  /** `s` without the first occurrence of `x`. */
  function RemoveFirst(s: seq<string>, x: string): (r: seq<string>)
    ensures x !in s ==> r == s
    ensures NoDup(s) ==> NoDup(r) && forall y :: y in r <==> y in s && y != x
  {
    if s == [] then []
    else if s[0] == x then
      assert NoDup(s) ==> NoDup(s[1..]) && x !in s[1..];
      s[1..]
    else
      var r := RemoveFirst(s[1..], x);
      assert NoDup(s) ==> NoDup(s[1..]) && s[0] !in s[1..];
      assert NoDup(s) ==> s[0] !in r;
      [s[0]] + r
  }

  /** Remove the first occurrence of every element of `xs` in turn. */
  function RemoveEach(s: seq<string>, xs: seq<string>): (r: seq<string>)
    ensures NoDup(s) ==> NoDup(r) && forall y :: y in r <==> y in s && y !in xs
    decreases |xs|
  {
    if xs == [] then s
    else RemoveFirst(RemoveEach(s, xs[..|xs| - 1]), xs[|xs| - 1])
  }

  // ---------------------------------------------------------------------------
  // Hosts
  // ---------------------------------------------------------------------------

  ghost predicate AllParse(r: Resolver, hosts: seq<string>) {
    forall h <- hosts :: r(h) != Unparsable
  }

  /** The in-zone names among the hosts that are, or are not, already listed. */
  function Select(r: Resolver, hosts: seq<string>, domains: seq<Name>, listed: bool): seq<Name> {
    if hosts == [] then []
    else
      var rest := Select(r, hosts[..|hosts| - 1], domains, listed);
      match r(hosts[|hosts| - 1])
      case Inside(n) => if (n in domains) == listed then rest + [n] else rest
      case _ => rest
  }

  /** The hosts of the first list that the second does not spell the same way. */
  function Missing(hosts: seq<string>, others: seq<string>): seq<string> {
    if hosts == [] then []
    else
      var rest := Missing(hosts[..|hosts| - 1], others);
      if hosts[|hosts| - 1] in others then rest else rest + [hosts[|hosts| - 1]]
  }

  // ---------------------------------------------------------------------------
  // Handlers
  // ---------------------------------------------------------------------------

  function AddNode(s: Syncer, ip: string): Syncer {
    if ip == "" || ip in s.ips then s
    else s.(ips := s.ips + [ip], zone := s.zone + Cross(s.domains, [ip]))
  }

  function RemoveNode(s: Syncer, ip: string): Syncer {
    if ip == "" || ip !in s.ips then s
    else s.(ips := RemoveFirst(s.ips, ip), zone := s.zone - Cross(s.domains, [ip]))
  }

  function AddDomains(s: Syncer, domains: seq<Name>): Syncer {
    s.(domains := s.domains + domains, zone := s.zone + Cross(domains, s.ips))
  }

  function RemoveDomains(s: Syncer, domains: seq<Name>): Syncer {
    s.(domains := RemoveEach(s.domains, domains), zone := s.zone - Cross(domains, s.ips))
  }

  /** An unparsable host in an ingress makes the handler give up before it changes anything. */
  ghost function OnNewIngress(r: Resolver, s: Syncer, hosts: seq<string>): Syncer {
    if AllParse(r, hosts) then AddDomains(s, Select(r, hosts, s.domains, false)) else s
  }

  ghost function OnDeleteIngress(r: Resolver, s: Syncer, hosts: seq<string>): Syncer {
    if AllParse(r, hosts) then RemoveDomains(s, Select(r, hosts, s.domains, true)) else s
  }

  ghost function OnUpdateIngress(r: Resolver, s: Syncer, oldHosts: seq<string>, newHosts: seq<string>): Syncer {
    var gone, come := Missing(oldHosts, newHosts), Missing(newHosts, oldHosts);
    if AllParse(r, gone) && AllParse(r, come) then
      AddDomains(RemoveDomains(s, Select(r, gone, s.domains, true)), Select(r, come, s.domains, false))
    else s
  }

  ghost function Handle(r: Resolver, s: Syncer, e: Event): Syncer {
    match e
    case NewNode(n) => if n.edge && n.Ready() then AddNode(s, n.Ip()) else s
    case UpdateNode(o, n) =>
      if !n.edge || n.Ready() == o.Ready() then s
      else if n.Ready() then AddNode(s, n.Ip()) else RemoveNode(s, n.Ip())
    case DeleteNode(n) => if n.edge && n.Ready() then RemoveNode(s, n.Ip()) else s
    case NewIngress(hosts) => OnNewIngress(r, s, hosts)
    case UpdateIngress(o, n) => OnUpdateIngress(r, s, o, n)
    case DeleteIngress(hosts) => OnDeleteIngress(r, s, hosts)
  }

  // ---------------------------------------------------------------------------
  // The zone is the cross product
  // ---------------------------------------------------------------------------

  ghost predicate Inv(s: Syncer) {
    NoDup(s.ips) && NoDup(s.domains) && s.zone == Cross(s.domains, s.ips)
  }

  lemma NodesKeepInv(s: Syncer, ip: string)
    requires Inv(s)
    ensures Inv(AddNode(s, ip)) && Inv(RemoveNode(s, ip))
  {
  }

  lemma RemoveDomainsKeepsInv(s: Syncer, domains: seq<Name>)
    requires Inv(s)
    ensures Inv(RemoveDomains(s, domains))
  {
  }

  lemma AddDomainsKeepsInv(s: Syncer, domains: seq<Name>)
    requires Inv(s) && forall d <- domains :: d !in s.domains
    ensures Inv(AddDomains(s, domains)) <==> NoDup(domains)
  {
    var both := s.domains + domains;
    assert Cross(both, s.ips) == s.zone + Cross(domains, s.ips);
    if NoDup(both) {
      forall i, j | 0 <= i < j < |domains|
        ensures domains[i] != domains[j]
      {
        assert both[|s.domains| + i] == domains[i] && both[|s.domains| + j] == domains[j];
      }
    }
    if NoDup(domains) {
      forall i, j | 0 <= i < j < |both|
        ensures both[i] != both[j]
      {
        if i < |s.domains| <= j {
          assert both[i] in s.domains && both[j] in domains;
        }
      }
    }
  }

  lemma {:induction false} SelectedNames(r: Resolver, hosts: seq<string>, domains: seq<Name>, listed: bool)
    ensures forall n :: n in Select(r, hosts, domains, listed) <==>
                          (n in domains) == listed && exists h <- hosts :: r(h) == Inside(n)
  {
    if hosts != [] {
      var front := hosts[..|hosts| - 1];
      assert hosts == front + [hosts[|hosts| - 1]];
      SelectedNames(r, front, domains, listed);
    }
  }

  /** Two of the hosts, neither of them known by its spelling, stand for one name that is not
      listed yet. */
  ghost predicate Repeats(r: Resolver, domains: seq<Name>, hosts: seq<string>, known: seq<string>) {
    exists i, j ::
      0 <= i < j < |hosts| && hosts[i] !in known && hosts[j] !in known && SameUnlisted(r, domains, hosts[i], hosts[j])
  }

  ghost predicate SameUnlisted(r: Resolver, domains: seq<Name>, h: string, k: string) {
    r(h).Inside? && r(h) == r(k) && r(h).name !in domains
  }

  lemma {:induction false} RepeatsExact(r: Resolver, domains: seq<Name>, hosts: seq<string>, known: seq<string>)
    ensures NoDup(Select(r, Missing(hosts, known), domains, false)) <==> !Repeats(r, domains, hosts, known)
  {
    if hosts != [] {
      var front, last := hosts[..|hosts| - 1], hosts[|hosts| - 1];
      assert hosts == front + [last];
      RepeatsExact(r, domains, front, known);
      RepeatsAppend(r, domains, front, last, known);
      SelectNext(r, domains, front, last, known);
    }
  }

  /** The names selected so far stay distinct unless the last host repeats one. */
  lemma SelectNext(r: Resolver, domains: seq<Name>, front: seq<string>, last: string, known: seq<string>)
    ensures NoDup(Select(r, Missing(front + [last], known), domains, false)) <==>
            && NoDup(Select(r, Missing(front, known), domains, false))
            && !(last !in known && MeetsAgain(r, domains, front, last, known))
  {
    var kept := Missing(front, known);
    var names := Select(r, kept, domains, false);
    assert (front + [last])[..|front|] == front && (kept + [last])[..|kept|] == kept;
    if r(last).Inside? {
      NoDupAppend(names, r(last).name);
      AgainSelected(r, domains, front, last, known);
    }
  }

  lemma AgainSelected(r: Resolver, domains: seq<Name>, front: seq<string>, last: string, known: seq<string>)
    requires r(last).Inside?
    ensures r(last).name in Select(r, Missing(front, known), domains, false) <==>
            MeetsAgain(r, domains, front, last, known)
  {
    SelectedNames(r, Missing(front, known), domains, false);
    MissingHosts(front, known);
  }

  ghost predicate MeetsAgain(r: Resolver, domains: seq<Name>, front: seq<string>, last: string, known: seq<string>) {
    exists h <- front :: h !in known && SameUnlisted(r, domains, h, last)
  }

  lemma RepeatsAppend(r: Resolver, domains: seq<Name>, front: seq<string>, last: string, known: seq<string>)
    ensures Repeats(r, domains, front + [last], known) <==>
            Repeats(r, domains, front, known) || (last !in known && MeetsAgain(r, domains, front, last, known))
  {
    var hosts := front + [last];
    assert forall i :: 0 <= i < |front| ==> hosts[i] == front[i];
    if last !in known && MeetsAgain(r, domains, front, last, known) {
      var h :| h in front && h !in known && SameUnlisted(r, domains, h, last);
      var i :| 0 <= i < |front| && front[i] == h;
      assert hosts[i] == h && hosts[|front|] == last;
    }
    if Repeats(r, domains, front, known) {
      var i, j :| 0 <= i < j < |front| && front[i] !in known && front[j] !in known
                  && SameUnlisted(r, domains, front[i], front[j]);
      assert hosts[i] == front[i] && hosts[j] == front[j];
    }
  }

  lemma NoDupAppend(s: seq<Name>, n: Name)
    ensures NoDup(s + [n]) <==> NoDup(s) && n !in s
  {
    var t := s + [n];
    assert t[|s|] == n && forall i :: 0 <= i < |s| ==> t[i] == s[i];
  }

  lemma {:induction false} MissingNone(hosts: seq<string>)
    ensures Missing(hosts, []) == hosts
  {
    if hosts != [] {
      MissingNone(hosts[..|hosts| - 1]);
    }
  }

  /** The event lists one name twice: it names it twice, newly spelled, and no host it looks at
      is unparsable. */
  ghost predicate ListsTwice(r: Resolver, s: Syncer, e: Event) {
    match e
    case NewIngress(hosts) => AllParse(r, hosts) && Repeats(r, s.domains, hosts, [])
    case UpdateIngress(o, n) =>
      && (forall h <- o | h !in n :: r(h) != Unparsable)
      && (forall h <- n | h !in o :: r(h) != Unparsable)
      && Repeats(r, s.domains, n, o)
    case _ => false
  }

  /** One event keeps both lists free of duplicates and the zone equal to their cross product
      exactly when it does not list one name twice. */
  lemma EventKeepsInv(r: Resolver, s: Syncer, e: Event)
    requires Inv(s)
    ensures Inv(Handle(r, s, e)) <==> !ListsTwice(r, s, e)
  {
    match e
    case NewNode(n) => NodesKeepInv(s, n.Ip());
    case UpdateNode(o, n) => NodesKeepInv(s, n.Ip());
    case DeleteNode(n) => NodesKeepInv(s, n.Ip());
    case NewIngress(hosts) => NewKeepsInv(r, s, hosts);
    case UpdateIngress(o, n) => UpdateKeepsInv(r, s, o, n);
    case DeleteIngress(hosts) => RemoveDomainsKeepsInv(s, Select(r, hosts, s.domains, true));
  }

  lemma NewKeepsInv(r: Resolver, s: Syncer, hosts: seq<string>)
    requires Inv(s)
    ensures Inv(OnNewIngress(r, s, hosts)) <==> !ListsTwice(r, s, NewIngress(hosts))
  {
    SelectedNames(r, hosts, s.domains, false);
    AddDomainsKeepsInv(s, Select(r, hosts, s.domains, false));
    RepeatsExact(r, s.domains, hosts, []);
    MissingNone(hosts);
  }

  lemma UpdateKeepsInv(r: Resolver, s: Syncer, o: seq<string>, n: seq<string>)
    requires Inv(s)
    ensures Inv(OnUpdateIngress(r, s, o, n)) <==> !ListsTwice(r, s, UpdateIngress(o, n))
  {
    var gone, come := Select(r, Missing(o, n), s.domains, true), Select(r, Missing(n, o), s.domains, false);
    MissingHosts(o, n);
    MissingHosts(n, o);
    SelectedNames(r, Missing(n, o), s.domains, false);
    RemoveDomainsKeepsInv(s, gone);
    AddDomainsKeepsInv(RemoveDomains(s, gone), come);
    RepeatsExact(r, s.domains, n, o);
  }

  /** The hosts of one ingress object are distinct names. */
  ghost predicate DistinctHosts(r: Resolver, hosts: seq<string>) {
    forall i, j :: 0 <= i < j < |hosts| ==> !(r(hosts[i]).Inside? && r(hosts[i]) == r(hosts[j]))
  }

  ghost predicate DistinctEvent(r: Resolver, e: Event) {
    match e
    case NewIngress(hosts) => DistinctHosts(r, hosts)
    case UpdateIngress(_, hosts) => DistinctHosts(r, hosts)
    case _ => true
  }

  lemma {:induction false} MissingHosts(hosts: seq<string>, others: seq<string>)
    ensures forall h :: h in Missing(hosts, others) <==> h in hosts && h !in others
  {
    if hosts != [] {
      assert hosts == hosts[..|hosts| - 1] + [hosts[|hosts| - 1]];
      MissingHosts(hosts[..|hosts| - 1], others);
    }
  }

  ghost function Run(r: Resolver, events: seq<Event>): Syncer {
    if events == [] then Syncer([], [], {})
    else Handle(r, Run(r, events[..|events| - 1]), events[|events| - 1])
  }

  ghost predicate KeptThroughout(r: Resolver, events: seq<Event>) {
    Inv(Run(r, events)) && (events != [] ==> KeptThroughout(r, events[..|events| - 1]))
  }

  /** No event so far listed one name twice. */
  ghost predicate NeverTwice(r: Resolver, events: seq<Event>) {
    events != [] ==>
      var front := events[..|events| - 1];
      NeverTwice(r, front) && !ListsTwice(r, Run(r, front), events[|events| - 1])
  }

  /** All along a sequence of node and ingress events, the A records are exactly the listed
      domains times the listed addresses and neither list holds a duplicate, if and only if no
      event lists one name twice. */
  lemma {:induction false} ZoneExact(r: Resolver, events: seq<Event>)
    ensures KeptThroughout(r, events) <==> NeverTwice(r, events)
  {
    if events != [] {
      var front := events[..|events| - 1];
      ZoneExact(r, front);
      if KeptThroughout(r, front) {
        EventKeepsInv(r, Run(r, front), events[|events| - 1]);
      }
    }
  }

  lemma {:induction false} DistinctNeverTwice(r: Resolver, events: seq<Event>)
    requires forall e <- events :: DistinctEvent(r, e)
    ensures NeverTwice(r, events)
  {
    if events != [] {
      assert DistinctEvent(r, events[|events| - 1]);
      DistinctNeverTwice(r, events[..|events| - 1]);
    }
  }

  /** So it holds after every sequence in which each ingress object's hosts are distinct names. */
  lemma ZoneIsCrossProduct(r: Resolver, events: seq<Event>)
    requires forall e <- events :: DistinctEvent(r, e)
    ensures Inv(Run(r, events))
  {
    DistinctNeverTwice(r, events);
    ZoneExact(r, events);
  }

  // ---------------------------------------------------------------------------
  // The commands sent to the remote server
  // ---------------------------------------------------------------------------

  datatype Command =
    | AddRRs(added: set<(Name, string)>)
    | DeleteRRs(deleted: set<(Name, string)>)
    | UpdateRRs(deleted: set<(Name, string)>, added: set<(Name, string)>)

  function AddCommand(domains: seq<Name>, ips: seq<string>): seq<Command> {
    if domains == [] || ips == [] then [] else [AddRRs(Cross(domains, ips))]
  }

  function DeleteCommand(domains: seq<Name>, ips: seq<string>): seq<Command> {
    if domains == [] || ips == [] then [] else [DeleteRRs(Cross(domains, ips))]
  }

  function UpdateCommand(oldDomains: seq<Name>, newDomains: seq<Name>, ips: seq<string>): seq<Command> {
    if (oldDomains == [] && newDomains == []) || ips == [] then []
    else [UpdateRRs(Cross(oldDomains, ips), Cross(newDomains, ips))]
  }

  function AddNodeCommands(s: Syncer, ip: string): seq<Command> {
    if ip == "" || ip in s.ips then [] else AddCommand(s.domains, [ip])
  }

  function RemoveNodeCommands(s: Syncer, ip: string): seq<Command> {
    if ip == "" || ip !in s.ips then [] else DeleteCommand(s.domains, [ip])
  }

  /** What the handler of an event sends. */
  ghost function Commands(r: Resolver, s: Syncer, e: Event): seq<Command> {
    match e
    case NewNode(n) => if n.edge && n.Ready() then AddNodeCommands(s, n.Ip()) else []
    case UpdateNode(o, n) =>
      if !n.edge || n.Ready() == o.Ready() then []
      else if n.Ready() then AddNodeCommands(s, n.Ip()) else RemoveNodeCommands(s, n.Ip())
    case DeleteNode(n) => if n.edge && n.Ready() then RemoveNodeCommands(s, n.Ip()) else []
    case NewIngress(hosts) =>
      if AllParse(r, hosts) then AddCommand(Select(r, hosts, s.domains, false), s.ips) else []
    case UpdateIngress(o, n) =>
      if AllParse(r, Missing(o, n)) && AllParse(r, Missing(n, o))
      then UpdateCommand(Select(r, Missing(o, n), s.domains, true), Select(r, Missing(n, o), s.domains, false), s.ips)
      else []
    case DeleteIngress(hosts) =>
      if AllParse(r, hosts) then DeleteCommand(Select(r, hosts, s.domains, true), s.ips) else []
  }

  /** The zone after the commands. */
  function Applied(zone: set<(Name, string)>, commands: seq<Command>): set<(Name, string)>
    decreases |commands|
  {
    if commands == [] then zone
    else
      match commands[0]
      case AddRRs(added) => Applied(zone + added, commands[1..])
      case DeleteRRs(deleted) => Applied(zone - deleted, commands[1..])
      case UpdateRRs(deleted, added) => Applied(zone - deleted + added, commands[1..])
  }

  /** The commands of an event are what changes the zone, and there is never more than one. */
  lemma CommandsMakeZone(r: Resolver, s: Syncer, e: Event)
    ensures |Commands(r, s, e)| <= 1
    ensures Applied(s.zone, Commands(r, s, e)) == Handle(r, s, e).zone
  {
    var commands := Commands(r, s, e);
    if commands != [] {
      assert commands[1..] == [];
    }
    NothingToDo(s);
  }

  /** Without names or without addresses there are no records. */
  lemma NothingToDo(s: Syncer)
    ensures Cross([], s.ips) == {} && Cross(s.domains, []) == {}
  {
  }

  /** It adds only records that are not there and deletes only records that are. */
  ghost predicate Exact(zone: set<(Name, string)>, c: Command) {
    match c
    case AddRRs(added) => added !! zone
    case DeleteRRs(deleted) => deleted <= zone
    case UpdateRRs(deleted, added) => deleted <= zone && added !! zone
  }

  lemma NodeCommandsAreExact(s: Syncer, ip: string)
    requires Inv(s)
    ensures forall c <- AddNodeCommands(s, ip) + RemoveNodeCommands(s, ip) :: Exact(s.zone, c)
  {
  }

  /** After every sequence of events whose objects name distinct hosts, every command the next
      event sends is exact: nothing is added twice, nothing is deleted that is not there. */
  lemma CommandsAreExact(r: Resolver, events: seq<Event>, e: Event)
    requires forall d <- events :: DistinctEvent(r, d)
    ensures var s := Run(r, events);
            forall c <- Commands(r, s, e) :: Exact(s.zone, c)
  {
    ZoneIsCrossProduct(r, events);
    var s := Run(r, events);
    match e
    case NewNode(n) => NodeCommandsAreExact(s, n.Ip());
    case UpdateNode(o, n) => NodeCommandsAreExact(s, n.Ip());
    case DeleteNode(n) => NodeCommandsAreExact(s, n.Ip());
    case NewIngress(hosts) => SelectedNames(r, hosts, s.domains, false);
    case UpdateIngress(o, n) =>
      SelectedNames(r, Missing(o, n), s.domains, true);
      SelectedNames(r, Missing(n, o), s.domains, false);
    case DeleteIngress(hosts) => SelectedNames(r, hosts, s.domains, true);
  }

  lemma {:induction false} RemoveFirstOfTwo(s: seq<string>, x: string)
    ensures x in RemoveFirst(s + [x, x], x)
  {
    var t := s + [x, x];
    if s == [] {
      assert t[1..] == [x];
    } else if s[0] == x {
      assert t[1..][|t| - 2] == x;
    } else {
      assert t[1..] == s[1..] + [x, x];
      RemoveFirstOfTwo(s[1..], x);
    }
  }

  lemma SelectRepeated(r: Resolver, host: string, domains: seq<Name>, listed: bool)
    requires r(host).Inside? && (r(host).name in domains) == listed
    ensures Select(r, [host], domains, listed) == [r(host).name]
    ensures Select(r, [host, host], domains, listed) == [r(host).name, r(host).name]
  {
  }

  lemma RemoveEachSingle(s: seq<string>, x: string)
    ensures RemoveEach(s, [x]) == RemoveFirst(s, x)
  {
  }

  /** Why the hosts of one object must be distinct: list a host twice, then delete an object
      that names it once, and the zone has lost records the list still calls for. */
  lemma RepeatedHostBreaksZone(r: Resolver, s: Syncer, host: string)
    requires s.ips != [] && r(host).Inside? && r(host).name !in s.domains
    ensures var s' := OnDeleteIngress(r, OnNewIngress(r, s, [host, host]), [host]);
            r(host).name in s'.domains && s.ips == s'.ips && forall ip <- s'.ips :: (r(host).name, ip) !in s'.zone
  {
    var name := r(host).name;
    SelectRepeated(r, host, s.domains, false);
    var s1 := OnNewIngress(r, s, [host, host]);
    assert s1.domains == s.domains + [name, name];
    assert s1.domains[|s.domains|] == name;
    SelectRepeated(r, host, s1.domains, true);
    RemoveEachSingle(s1.domains, name);
    RemoveFirstOfTwo(s.domains, name);
    var s2 := OnDeleteIngress(r, s1, [host]);
    assert name in s2.domains && name in [name];
    forall ip <- s2.ips
      ensures (name, ip) !in s2.zone
    {
      assert (name, ip) in Cross([name], s1.ips);
    }
  }
}

/** UDP ingresses kept as text in one config map: port number -> "namespace/service:port". */
module UdpIngress {
  import opened Common
  import opened Text

  datatype Udp = Udp(namespace: string, service: string, servicePort: int)

  type ConfigMap = map<string, string>

  datatype Result<+T> = Ok(value: T) | Err

  // ---------------------------------------------------------------------------
  // Printing and parsing one entry
  // ---------------------------------------------------------------------------

  function Print(u: Udp): string {
    u.namespace + "/" + u.service + ":" + Itoa(u.servicePort)
  }

  /** Reading one entry, as the listing does; the port is the entry's key. */
  function Parse(key: string, data: string): Result<(int, Udp)> {
    var serviceAndPort := Split(data, ':');
    if |serviceAndPort| != 2 then Err
    else if Atoi(key).None? || Atoi(key).value == 0 then Err
    else
      var namespaceAndService := Split(serviceAndPort[0], '/');
      if |namespaceAndService| != 2 then Err
      else if Atoi(serviceAndPort[1]).None? || Atoi(serviceAndPort[1]).value == 0 then Err
      else Ok((Atoi(key).value,
               Udp(namespaceAndService[0], namespaceAndService[1], Atoi(serviceAndPort[1]).value)))
  }

  predicate CleanName(s: string) {
    ':' !in s && '/' !in s
  }

  predicate GoodPort(port: int) {
    IsInt64(port) && port != 0
  }

  predicate Clean(port: int, u: Udp) {
    CleanName(u.namespace) && CleanName(u.service) && GoodPort(port) && GoodPort(u.servicePort)
  }

  lemma PrintColons(u: Udp)
    ensures Count(Print(u), ':') == Count(u.namespace, ':') + Count(u.service, ':') + 1
  {
    var n, s, p := u.namespace, u.service, Itoa(u.servicePort);
    CountAppend(n + "/" + s + ":", p, ':');
    CountAppend(n + "/" + s, ":", ':');
    CountAppend(n + "/", s, ':');
    CountAppend(n, "/", ':');
    ItoaChars(u.servicePort, ':');
    CountZero(p, ':');
    CountZero("/", ':');
    assert ":"[..0] == "";
    assert Count(":", ':') == 1;
  }

  lemma HeadSlashes(namespace: string, service: string)
    ensures Count(namespace + "/" + service, '/') == Count(namespace, '/') + Count(service, '/') + 1
  {
    CountAppend(namespace + "/", service, '/');
    CountAppend(namespace, "/", '/');
    assert "/"[..0] == "";
    assert Count("/", '/') == 1;
  }

  /** An entry reads back exactly when its names are free of the separators and its ports are
      not zero; then it reads back as itself. */
  lemma ParsePrint(port: int, u: Udp)
    ensures Parse(Itoa(port), Print(u)).Ok? <==> Clean(port, u)
    ensures Clean(port, u) ==> Parse(Itoa(port), Print(u)) == Ok((port, u))
  {
    var head, tail := u.namespace + "/" + u.service, Itoa(u.servicePort);
    AtoiItoa(port);
    AtoiItoa(u.servicePort);
    SplitCount(Print(u), ':');
    PrintColons(u);
    CountZero(u.namespace, ':');
    CountZero(u.service, ':');
    if ':' !in u.namespace && ':' !in u.service {
      ItoaChars(u.servicePort, ':');
      assert Print(u) == head + [':'] + tail;
      SplitTwo(head, tail, ':');
      SplitCount(head, '/');
      HeadSlashes(u.namespace, u.service);
      CountZero(u.namespace, '/');
      CountZero(u.service, '/');
      if '/' !in u.namespace && '/' !in u.service {
        assert head == u.namespace + ['/'] + u.service;
        SplitTwo(u.namespace, u.service, '/');
      }
    }
  }

  // ---------------------------------------------------------------------------
  // Prefixes
  // ---------------------------------------------------------------------------

  function ClearPrefix(namespace: string, service: string): string {
    if service == "" then namespace + "/" else namespace + "/" + service + ":"
  }

  /** Two texts that agree on what comes before a separator neither contains. */
  lemma PrefixBefore(a: string, b: string, rest: string, c: char)
    requires c !in a && c !in b
    ensures a + [c] <= b + [c] + rest <==> a == b
  {
    var s, t := a + [c], b + [c] + rest;
    assert t[|b|] == c;
    assert forall i :: 0 <= i < |b| ==> t[i] == b[i] && t[i] != c;
    assert forall i :: 0 <= i < |a| ==> s[i] == a[i] && s[i] != c;
    if s <= t {
      assert s[|a|] == t[|a|];
      assert |a| == |b|;
      assert s[..|a|] == t[..|a|];
    }
  }

  /** A clean entry has the prefix of a namespace, or of a namespace and service, exactly when
      it is theirs. */
  lemma PrefixSelects(u: Udp, namespace: string, service: string)
    requires CleanName(u.namespace) && CleanName(u.service) && CleanName(namespace) && CleanName(service)
    ensures HasPrefix(Print(u), ClearPrefix(namespace, service)) <==>
            u.namespace == namespace && (service == "" || u.service == service)
  {
    var tail := u.service + ":" + Itoa(u.servicePort);
    assert Print(u) == u.namespace + ['/'] + tail;
    assert namespace + "/" == namespace + ['/'];
    PrefixBefore(namespace, u.namespace, tail, '/');
    if service != "" {
      var port := Itoa(u.servicePort);
      assert tail == u.service + [':'] + port;
      PrefixBefore(service, u.service, port, ':');
      var p, q := namespace + "/" + service + ":", namespace + "/";
      assert p == q + (service + [':']);
      if p <= Print(u) {
        assert q <= Print(u) by {
          assert p[..|q|] == q && p[..|q|] == Print(u)[..|q|];
        }
        assert p[|q|..] == service + [':'] && Print(u)[|q|..] == tail;
        assert p[|q|..] <= Print(u)[|q|..];
      }
      if u.namespace == namespace && u.service == service {
        assert Print(u) == p + port;
      }
    }
  }

  // ---------------------------------------------------------------------------
  // The config map as a list of entries
  // ---------------------------------------------------------------------------

  datatype Config = Config(name: string, data: string)

  /** A list that holds each line of the config map once, in some order. */
  ghost predicate ListOf(configs: seq<Config>, data: ConfigMap) {
    && (forall i, j :: 0 <= i < j < |configs| ==> configs[i].name != configs[j].name)
    && (forall i :: 0 <= i < |configs| ==> configs[i].name in data && data[configs[i].name] == configs[i].data)
    && (forall k <- data :: Listed(configs, k))
  }

  ghost predicate Listed(configs: seq<Config>, name: string) {
    exists i :: 0 <= i < |configs| && configs[i].name == name
  }

  /** `k8sConfigMapToSCConfigMap`: the lines in whatever order the map yields them. */
  method ToConfigs(data: ConfigMap) returns (configs: seq<Config>)
    ensures ListOf(configs, data)
  {
    configs := [];
    var rest := data.Keys;
    while rest != {}
      invariant rest <= data.Keys
      invariant forall i, j :: 0 <= i < j < |configs| ==> configs[i].name != configs[j].name
      invariant forall i :: 0 <= i < |configs| ==>
                              configs[i].name in data.Keys - rest && data[configs[i].name] == configs[i].data
      invariant forall k <- data :: k in rest || Listed(configs, k)
      decreases |rest|
    {
      var k :| k in rest;
      ListedAppend(configs, Config(k, data[k]));
      configs := configs + [Config(k, data[k])];
      rest := rest - {k};
    }
  }

  lemma ListedAppend(configs: seq<Config>, c: Config)
    ensures forall k :: Listed(configs + [c], k) <==> Listed(configs, k) || k == c.name
  {
    var all := configs + [c];
    forall k
      ensures Listed(all, k) <==> Listed(configs, k) || k == c.name
    {
      if Listed(configs, k) {
        var i :| 0 <= i < |configs| && configs[i].name == k;
        assert all[i].name == k;
      }
      assert all[|configs|].name == c.name;
    }
  }

  /** `scConfigMapToK8sConfigMap`: refused when a name occurs twice. */
  method ToData(configs: seq<Config>) returns (r: Result<ConfigMap>)
    ensures r.Ok? <==> forall i, j :: 0 <= i < j < |configs| ==> configs[i].name != configs[j].name
    ensures r.Ok? ==> ListOf(configs, r.value)
  {
    var data: ConfigMap := map[];
    for i := 0 to |configs|
      invariant ListOf(configs[..i], data)
    {
      assert configs[..i + 1] == configs[..i] + [configs[i]];
      if configs[i].name in data {
        assert Listed(configs[..i], configs[i].name);
        var j :| 0 <= j < i && configs[j].name == configs[i].name;
        return Err;
      }
      ListedAppend(configs[..i], configs[i]);
      data := data[configs[i].name := configs[i].data];
    }
    assert configs[..|configs|] == configs;
    return Ok(data);
  }

  /** A list fixes the map it is a list of. */
  lemma ListFixesMap(configs: seq<Config>, a: ConfigMap, b: ConfigMap)
    requires ListOf(configs, a) && ListOf(configs, b)
    ensures a == b
  {
  }

  // ---------------------------------------------------------------------------
  // Operations
  // ---------------------------------------------------------------------------

  /** Refused when a key is not a number or already names the port. */
  predicate CreateRefused(data: ConfigMap, port: int) {
    exists k <- data :: Atoi(k) == None || Atoi(k) == Some(port)
  }

  /** `createUDPIngress`. The write back never meets a duplicate key. */
  method Create(data: ConfigMap, port: int, u: Udp) returns (r: Result<ConfigMap>)
    ensures r.Err? <==> CreateRefused(data, port)
    ensures r.Ok? ==> r.value == data[Itoa(port) := Print(u)] && Itoa(port) !in data
  {
    var configs := ToConfigs(data);
    for i := 0 to |configs|
      invariant forall k :: 0 <= k < i ==> Atoi(configs[k].name) != None && Atoi(configs[k].name) != Some(port)
    {
      assert configs[i].name in data;
      if Atoi(configs[i].name).None? || Atoi(configs[i].name).value == port {
        return Err;
      }
    }
    AtoiItoa(port);
    forall k <- data
      ensures Atoi(k) != None && Atoi(k) != Some(port)
    {
      var i :| 0 <= i < |configs| && configs[i].name == k;
    }
    assert Itoa(port) !in data;
    AppendedList(configs, data, Config(Itoa(port), Print(u)));
    r := ToData(configs + [Config(Itoa(port), Print(u))]);
    ListFixesMap(configs + [Config(Itoa(port), Print(u))], r.value, data[Itoa(port) := Print(u)]);
  }

  lemma AppendedList(configs: seq<Config>, data: ConfigMap, c: Config)
    requires ListOf(configs, data) && c.name !in data
    ensures ListOf(configs + [c], data[c.name := c.data])
  {
    ListedAppend(configs, c);
  }

  /** `deleteTransportLayerIngress`: the entry with exactly this key. */
  function Deleted(data: ConfigMap, key: string): ConfigMap {
    map k <- data | k != key :: data[k]
  }

  method Delete(data: ConfigMap, key: string) returns (r: ConfigMap, found: bool)
    ensures found <==> key in data
    ensures r == Deleted(data, key)
  {
    var configs := ToConfigs(data);
    for i := 0 to |configs|
      invariant forall k :: 0 <= k < i ==> configs[k].name != key
    {
      if configs[i].name == key {
        SplicedList(configs, data, i);
        var w := ToData(configs[..i] + configs[i + 1..]);
        ListFixesMap(configs[..i] + configs[i + 1..], w.value, Deleted(data, key));
        return w.value, true;
      }
    }
    assert key !in data;
    assert Deleted(data, key) == data;
    return data, false;
  }

  lemma SplicedList(configs: seq<Config>, data: ConfigMap, i: nat)
    requires ListOf(configs, data) && i < |configs|
    ensures ListOf(configs[..i] + configs[i + 1..], Deleted(data, configs[i].name))
  {
    var rest, data' := configs[..i] + configs[i + 1..], Deleted(data, configs[i].name);
    forall j | 0 <= j < |rest|
      ensures rest[j] == configs[if j < i then j else j + 1]
      ensures rest[j].name != configs[i].name
    {
    }
    forall k <- data'
      ensures Listed(rest, k)
    {
      var j :| 0 <= j < |configs| && configs[j].name == k;
      assert rest[if j < i then j else j - 1].name == k;
    }
  }

  /** `clearTransportLayerIngress`: keep the entries without the prefix. */
  function Cleared(data: ConfigMap, prefix: string): ConfigMap {
    map k <- data | !HasPrefix(data[k], prefix) :: data[k]
  }

  method Clear(data: ConfigMap, namespace: string, service: string) returns (r: ConfigMap)
    ensures r == Cleared(data, ClearPrefix(namespace, service))
  {
    var prefix := namespace + "/";
    if service != "" {
      prefix := prefix + service + ":";
    }
    var configs := ToConfigs(data);
    var kept := Keep(configs, prefix);
    KeptList(configs, data, kept, prefix);
    if |kept| != |configs| {
      var w := ToData(kept);
      ListFixesMap(kept, w.value, Cleared(data, prefix));
      return w.value;
    } else {
      ListFixesMap(configs, data, Cleared(data, prefix));
      return data;
    }
  }

  method Keep(configs: seq<Config>, prefix: string) returns (kept: seq<Config>)
    requires forall i, j :: 0 <= i < j < |configs| ==> configs[i].name != configs[j].name
    ensures forall c :: c in kept <==> c in configs && !HasPrefix(c.data, prefix)
    ensures forall a, b :: 0 <= a < b < |kept| ==> kept[a].name != kept[b].name
    ensures |kept| == |configs| ==> kept == configs
  {
    kept := [];
    for i := 0 to |configs|
      invariant |kept| <= i
      invariant forall c :: c in kept <==> c in configs[..i] && !HasPrefix(c.data, prefix)
      invariant forall a, b :: 0 <= a < b < |kept| ==> kept[a].name != kept[b].name
      invariant |kept| == i ==> kept == configs[..i]
    {
      assert configs[..i + 1] == configs[..i] + [configs[i]];
      if !HasPrefix(configs[i].data, prefix) {
        forall a | 0 <= a < |kept|
          ensures kept[a].name != configs[i].name
        {
          assert kept[a] in configs[..i];
          var j :| 0 <= j < i && configs[..i][j] == kept[a];
          assert configs[j] == kept[a];
        }
        kept := kept + [configs[i]];
      }
    }
    assert configs[..|configs|] == configs;
  }

  lemma KeptList(configs: seq<Config>, data: ConfigMap, kept: seq<Config>, prefix: string)
    requires ListOf(configs, data)
    requires forall c :: c in kept <==> c in configs && !HasPrefix(c.data, prefix)
    requires forall a, b :: 0 <= a < b < |kept| ==> kept[a].name != kept[b].name
    ensures ListOf(kept, Cleared(data, prefix))
  {
  }

  // ---------------------------------------------------------------------------
  // What the text stands for
  // ---------------------------------------------------------------------------

  type Entries = map<int, Udp>

  /** The config map holds exactly these entries, printed. */
  ghost predicate Represents(data: ConfigMap, entries: Entries) {
    && (forall p <- entries :: Clean(p, entries[p]))
    && (forall p <- entries :: Itoa(p) in data && data[Itoa(p)] == Print(entries[p]))
    && (forall k <- data :: exists p <- entries :: Itoa(p) == k)
  }

  datatype Op =
    | CreateOp(namespace: string, port: int, service: string, servicePort: int)
    | DeleteOp(key: string)
    | ClearOp(namespace: string, service: string)

  predicate CleanOp(op: Op) {
    match op
    case CreateOp(ns, port, svc, svcPort) => Clean(port, Udp(ns, svc, svcPort))
    case DeleteOp(_) => true
    case ClearOp(ns, svc) => CleanName(ns) && CleanName(svc)
  }

  function Apply(data: ConfigMap, op: Op): ConfigMap {
    match op
    case CreateOp(ns, port, svc, svcPort) =>
      if CreateRefused(data, port) then data else data[Itoa(port) := Print(Udp(ns, svc, svcPort))]
    case DeleteOp(key) => Deleted(data, key)
    case ClearOp(ns, svc) => Cleared(data, ClearPrefix(ns, svc))
  }

  /** The same operations on the entries themselves. */
  function ApplyTo(entries: Entries, op: Op): Entries {
    match op
    case CreateOp(ns, port, svc, svcPort) =>
      if port in entries then entries else entries[port := Udp(ns, svc, svcPort)]
    case DeleteOp(key) => map p <- entries | Itoa(p) != key :: entries[p]
    case ClearOp(ns, svc) =>
      map p <- entries | !(entries[p].namespace == ns && (svc == "" || entries[p].service == svc)) :: entries[p]
  }

  /** A port is refused exactly when it is taken. */
  lemma RefusedIffTaken(data: ConfigMap, entries: Entries, port: int)
    requires Represents(data, entries)
    ensures CreateRefused(data, port) <==> port in entries
  {
    forall k <- data
      ensures Atoi(k).Some? && (Atoi(k) == Some(port) ==> port in entries)
    {
      var p :| p in entries && Itoa(p) == k;
      AtoiItoa(p);
    }
    if port in entries {
      AtoiItoa(port);
      assert Itoa(port) in data;
    }
  }

  /** A key that is not a number, or a number too large, makes every create fail and change nothing. */
  lemma BadKeyRefuses(data: ConfigMap, key: string, op: Op)
    requires key in data && op.CreateOp?
    requires || !(AllDigits(key) || (key != "" && (key[0] == '-' || key[0] == '+') && AllDigits(key[1..])))
             || (ParseInt(key).Some? && !IsInt64(ParseInt(key).value))
    ensures CreateRefused(data, op.port) && Apply(data, op) == data
  {
    NumbersAreDigits(key);
  }

  lemma EntryAdded(data: ConfigMap, entries: Entries, port: int, u: Udp)
    requires Represents(data, entries) && Clean(port, u) && port !in entries
    ensures Represents(data[Itoa(port) := Print(u)], entries[port := u])
  {
    var data', entries' := data[Itoa(port) := Print(u)], entries[port := u];
    forall p <- entries'
      ensures Itoa(p) in data' && data'[Itoa(p)] == Print(entries'[p])
    {
      if p != port && Itoa(p) == Itoa(port) {
        ItoaInjective(p, port);
      }
    }
    forall k <- data'
      ensures exists p <- entries' :: Itoa(p) == k
    {
      if k == Itoa(port) {
        assert port in entries';
      } else {
        var p :| p in entries && Itoa(p) == k;
        assert p in entries';
      }
    }
  }

  lemma CreateKeeps(data: ConfigMap, entries: Entries, op: Op)
    requires Represents(data, entries) && CleanOp(op) && op.CreateOp?
    ensures Represents(Apply(data, op), ApplyTo(entries, op))
  {
    RefusedIffTaken(data, entries, op.port);
    if op.port !in entries {
      EntryAdded(data, entries, op.port, Udp(op.namespace, op.service, op.servicePort));
    }
  }

  lemma DeleteKeeps(data: ConfigMap, entries: Entries, op: Op)
    requires Represents(data, entries) && op.DeleteOp?
    ensures Represents(Apply(data, op), ApplyTo(entries, op))
  {
  }

  lemma ClearKeeps(data: ConfigMap, entries: Entries, op: Op)
    requires Represents(data, entries) && CleanOp(op) && op.ClearOp?
    ensures Represents(Apply(data, op), ApplyTo(entries, op))
  {
    var data', entries' := Apply(data, op), ApplyTo(entries, op);
    forall p <- entries
      ensures Itoa(p) in data' <==> p in entries'
    {
      PrefixSelects(entries[p], op.namespace, op.service);
    }
    forall k <- data'
      ensures exists p <- entries' :: Itoa(p) == k
    {
      var p :| p in entries && Itoa(p) == k;
      assert p in entries';
    }
  }

  function Run(ops: seq<Op>): ConfigMap {
    if ops == [] then map[] else Apply(Run(ops[..|ops| - 1]), ops[|ops| - 1])
  }

  function RunEntries(ops: seq<Op>): Entries {
    if ops == [] then map[] else ApplyTo(RunEntries(ops[..|ops| - 1]), ops[|ops| - 1])
  }

  /** Over any run of creates, deletes and clears with clean names and nonzero ports, the text
      in the config map is exactly the entries, printed: ports stay unique, and a clear removes
      the entries of that namespace or service and no others. */
  lemma {:induction false} TextMirrorsEntries(ops: seq<Op>)
    requires forall op <- ops :: CleanOp(op)
    ensures Represents(Run(ops), RunEntries(ops))
  {
    if ops != [] {
      var front, op := ops[..|ops| - 1], ops[|ops| - 1];
      TextMirrorsEntries(front);
      assert CleanOp(op);
      match op
      case CreateOp(_, _, _, _) => CreateKeeps(Run(front), RunEntries(front), op);
      case DeleteOp(_) => DeleteKeeps(Run(front), RunEntries(front), op);
      case ClearOp(_, _) => ClearKeeps(Run(front), RunEntries(front), op);
    }
  }

  /** After such a run every line of the config map parses, to the port it is stored under and
      the namespace, service and port it was created with. */
  lemma EveryEntryParses(ops: seq<Op>, key: string)
    requires (forall op <- ops :: CleanOp(op)) && key in Run(ops)
    ensures var r := Parse(key, Run(ops)[key]);
            r.Ok? && r.value.0 in RunEntries(ops) && r.value.1 == RunEntries(ops)[r.value.0] && Itoa(r.value.0) == key
  {
    TextMirrorsEntries(ops);
    var p :| p in RunEntries(ops) && Itoa(p) == key;
    ParsePrint(p, RunEntries(ops)[p]);
  }

  // ---------------------------------------------------------------------------
  // Listing
  // ---------------------------------------------------------------------------

  /** What the listing of a namespace makes of one line; "" stands for all namespaces. The
      service port of a line of another namespace is not looked at. */
  datatype Line = Bad | Foreign | Entry(port: int, udp: Udp)

  function ReadLine(key: string, data: string, namespace: string): Line {
    var serviceAndPort := Split(data, ':');
    if |serviceAndPort| != 2 then Bad
    else if Atoi(key).None? || Atoi(key).value == 0 then Bad
    else
      var namespaceAndService := Split(serviceAndPort[0], '/');
      if |namespaceAndService| != 2 then Bad
      else if namespace != "" && namespaceAndService[0] != namespace then Foreign
      else if Atoi(serviceAndPort[1]).None? || Atoi(serviceAndPort[1]).value == 0 then Bad
      else Entry(Atoi(key).value,
                 Udp(namespaceAndService[0], namespaceAndService[1], Atoi(serviceAndPort[1]).value))
  }

  /** `getTransportLayerIngress`: the lines of a namespace, or the one with a given key. It
      fails on a bad line, unless it found the wanted key before it met one. */
  method List(data: ConfigMap, namespace: string, wanted: string) returns (r: Result<map<string, Line>>)
    ensures r.Err? ==> exists k <- data :: ReadLine(k, data[k], namespace) == Bad
    ensures r.Ok? && wanted == "" ==> forall k <- data :: ReadLine(k, data[k], namespace) != Bad
    ensures r.Ok? ==>
              forall k :: k in r.value <==>
                            k in data && ReadLine(k, data[k], namespace).Entry? && (wanted == "" || k == wanted)
    ensures r.Ok? ==> forall k <- r.value :: r.value[k] == ReadLine(k, data[k], namespace)
  {
    var rest := data.Keys;
    var found: map<string, Line> := map[];
    while rest != {}
      invariant rest <= data.Keys
      invariant forall k <- data.Keys - rest :: ReadLine(k, data[k], namespace) != Bad
      invariant forall k :: k in found <==>
                              && k in data.Keys - rest && ReadLine(k, data[k], namespace).Entry?
                              && (wanted == "" || k == wanted)
      invariant forall k <- found :: found[k] == ReadLine(k, data[k], namespace)
      decreases |rest|
    {
      var k :| k in rest;
      var line := ReadLine(k, data[k], namespace);
      if line == Bad {
        return Err;
      }
      rest := rest - {k};
      if line.Entry? && (wanted == "" || k == wanted) {
        found := found[k := line];
        if wanted != "" {
          return Ok(found);
        }
      }
    }
    return Ok(found);
  }

  /** A line: a namespace and a service without separators, and the text of a port. */
  ghost predicate LineForm(data: string, ns: string, svc: string, p: string) {
    data == ns + "/" + svc + ":" + p && CleanName(ns) && CleanName(svc) && ':' !in p
  }

  predicate NonzeroNumber(s: string) {
    Atoi(s).Some? && Atoi(s).value != 0
  }

  /** How a line of that form reads: the port it is under must be a nonzero number; a line of
      another namespace is passed over; in the wanted one the service port must be one too. */
  lemma LineReads(key: string, data: string, namespace: string, ns: string, svc: string, p: string)
    requires LineForm(data, ns, svc, p)
    ensures ReadLine(key, data, namespace) ==
            if !NonzeroNumber(key) then Bad
            else if namespace != "" && ns != namespace then Foreign
            else if !NonzeroNumber(p) then Bad
            else Entry(Atoi(key).value, Udp(ns, svc, Atoi(p).value))
  {
    var head := ns + "/" + svc;
    assert data == head + [':'] + p && head == ns + ['/'] + svc && ':' !in head;
    SplitTwo(head, p, ':');
    SplitTwo(ns, svc, '/');
  }

  /** A line of any other form is bad. */
  lemma OtherLinesAreBad(key: string, data: string, namespace: string)
    requires forall ns, svc, p :: !LineForm(data, ns, svc, p)
    ensures ReadLine(key, data, namespace) == Bad
  {
    var parts := Split(data, ':');
    if |parts| == 2 {
      SplitBack(data, ':');
      var names := Split(parts[0], '/');
      if |names| == 2 {
        SplitBack(parts[0], '/');
        assert parts[0] == names[0] + "/" + names[1] && data == parts[0] + ":" + parts[1];
        assert names[0] <= parts[0] && forall c :: c in names[1] ==> c in parts[0];
        assert LineForm(data, names[0], names[1], parts[1]);
      }
    }
  }

  /** Parsing is reading for all namespaces. */
  lemma ParseIsRead(key: string, data: string)
    ensures match Parse(key, data)
            case Ok((port, u)) => ReadLine(key, data, "") == Entry(port, u)
            case Err => ReadLine(key, data, "") == Bad
  {
  }

  /** An entry and the prefixes of clears, letter by letter. */
  lemma EntryText()
    ensures Print(Udp("ns", "svc", 53)) == "ns/svc:53"
    ensures ClearPrefix("ns", "") == "ns/" && ClearPrefix("ns", "svc") == "ns/svc:"
  {
    assert NatText(5) == "5" && NatText(53) == NatText(5) + "3";
    assert Itoa(53) == "53";
  }

  lemma ReadParsed(key: string, data: string, namespace: string)
    requires Parse(key, data).Ok?
    ensures var (port, u) := Parse(key, data).value;
            ReadLine(key, data, namespace) ==
            if namespace == "" || u.namespace == namespace then Entry(port, u) else Foreign
  {
  }

  /** After a clean run no listing meets a bad line, and each line shows as the entry it was
      created from, to its own namespace only. */
  lemma ListingShowsEntries(ops: seq<Op>, namespace: string, port: int)
    requires (forall op <- ops :: CleanOp(op)) && port in RunEntries(ops)
    ensures var u := RunEntries(ops)[port];
            && Itoa(port) in Run(ops)
            && ReadLine(Itoa(port), Run(ops)[Itoa(port)], namespace) ==
               if namespace == "" || u.namespace == namespace then Entry(port, u) else Foreign
  {
    TextMirrorsEntries(ops);
    ParsePrint(port, RunEntries(ops)[port]);
    ReadParsed(Itoa(port), Run(ops)[Itoa(port)], namespace);
  }
}

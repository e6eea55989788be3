/** Containers translated to a Kubernetes pod specification and back. */
module PodTemplate {
  import opened Common
  import opened Text

  datatype VolumeKind = ConfigMapKind | SecretKind | PersistentKind | OtherKind(text: string)
  datatype Volume = Volume(kind: VolumeKind, name: string, mountPath: string)
  datatype Port = Port(name: string, port: int, protocol: string)
  datatype Env = Env(name: string, value: string)
  datatype Container = Container(
    name: string, image: string, command: seq<string>, args: seq<string>,
    ports: seq<Port>, env: seq<Env>, volumes: seq<Volume>)

  datatype Source =
    | ConfigMapSource(name: string)
    | SecretSource(name: string)
    | ClaimSource(name: string)
    | EmptyDirSource(limit: string)
  datatype K8sVolume = K8sVolume(name: string, source: Source)
  datatype Mount = Mount(name: string, mountPath: string, readOnly: bool)
  datatype Protocol = TCP | UDP
  datatype K8sPort = K8sPort(name: string, port: int, protocol: Protocol)
  datatype K8sContainer = K8sContainer(
    name: string, image: string, command: seq<string>, args: seq<string>,
    mounts: seq<Mount>, ports: seq<K8sPort>, env: seq<Env>)
  datatype PodSpec = PodSpec(containers: seq<K8sContainer>, volumes: seq<K8sVolume>)

  /** The persistent volumes at hand: emptyDir volumes by name with their size limit, and the
      names of claims. */
  datatype Storage = Storage(emptyDirs: seq<K8sVolume>, claims: seq<string>)

  ghost predicate GoodStorage(st: Storage) {
    forall d <- st.emptyDirs :: d.source.EmptyDirSource?
  }

  // ---------------------------------------------------------------------------
  // Volumes
  // ---------------------------------------------------------------------------

  function GeneratedName(container: string, i: nat): string {
    container + "-vol" + Itoa(i)
  }

  /** The volume a container's i-th volume is mounted from, if it can be had. */
  function Resolve(st: Storage, container: string, i: nat, v: Volume): Option<K8sVolume> {
    match v.kind
    case ConfigMapKind => Some(K8sVolume(GeneratedName(container, i), ConfigMapSource(v.name)))
    case SecretKind => Some(K8sVolume(GeneratedName(container, i), SecretSource(v.name)))
    case PersistentKind =>
      var dir := First(st.emptyDirs, v.name);
      if dir.Some? then dir
      else if v.name in st.claims then Some(K8sVolume(v.name, ClaimSource(v.name)))
      else None
    case OtherKind(_) => None
  }

  /** The first volume of that name. */
  function First(volumes: seq<K8sVolume>, name: string): (r: Option<K8sVolume>)
    ensures r.Some? ==> r.value in volumes && r.value.name == name
    ensures r.None? ==> forall v <- volumes :: v.name != name
  {
    if volumes == [] then None
    else
      var r := First(volumes[..|volumes| - 1], name);
      if r.Some? then r
      else if volumes[|volumes| - 1].name == name then Some(volumes[|volumes| - 1])
      else
        assert volumes == volumes[..|volumes| - 1] + [volumes[|volumes| - 1]];
        None
  }

  lemma {:induction false} FirstMeans(volumes: seq<K8sVolume>, name: string)
    ensures match First(volumes, name)
            case Some(v) => exists i :: FirstNamed(volumes, name, i) && volumes[i] == v
            case None => forall i :: 0 <= i < |volumes| ==> volumes[i].name != name
  {
    if volumes != [] {
      var front, n := volumes[..|volumes| - 1], |volumes| - 1;
      FirstMeans(front, name);
      assert forall i :: 0 <= i < n ==> front[i] == volumes[i];
      match First(front, name)
      case Some(v) =>
        var i :| FirstNamed(front, name, i) && front[i] == v;
        assert FirstNamed(volumes, name, i);
      case None =>
        assert volumes[n].name == name ==> FirstNamed(volumes, name, n);
    }
  }

  ghost predicate FirstNamed(volumes: seq<K8sVolume>, name: string, i: int) {
    0 <= i < |volumes| && volumes[i].name == name && forall j :: 0 <= j < i ==> volumes[j].name != name
  }

  // ---------------------------------------------------------------------------
  // Ports
  // ---------------------------------------------------------------------------

  function ToProtocol(s: string): Option<Protocol> {
    if Lower(s) == "tcp" then Some(TCP) else if Lower(s) == "udp" then Some(UDP) else None
  }

  function ProtocolText(p: Protocol): string {
    match p case TCP => "tcp" case UDP => "udp"
  }

  /** The conversion to a 32-bit integer. */
  function ToInt32(x: int): int {
    (x + 0x8000_0000) % 0x1_0000_0000 - 0x8000_0000
  }

  predicate PortNameChar(c: char) {
    c == '-' || 'a' <= c <= 'z' || '0' <= c <= '9'
  }

  predicate ValidPortName(s: string) {
    && 0 < |s| <= 15
    && (forall i :: 0 <= i < |s| ==> PortNameChar(s[i]))
    && (exists i :: 0 <= i < |s| && 'a' <= s[i] <= 'z')
    && (forall i :: 0 <= i < |s| - 1 ==> !(s[i] == '-' && s[i + 1] == '-'))
    && s[0] != '-' && s[|s| - 1] != '-'
  }

  predicate GoodPorts(ports: seq<Port>) {
    && (forall i :: 0 <= i < |ports| ==> ToProtocol(ports[i].protocol).Some? && ValidPortName(ports[i].name))
    && (forall i, j :: 0 <= i < j < |ports| ==> ports[i].name != ports[j].name)
  }

  function ToK8sPort(p: Port): K8sPort
    requires ToProtocol(p.protocol).Some?
  {
    K8sPort(p.name, ToInt32(p.port), ToProtocol(p.protocol).value)
  }

  function ToK8sPorts(ports: seq<Port>): seq<K8sPort>
    requires forall i :: 0 <= i < |ports| ==> ToProtocol(ports[i].protocol).Some?
  {
    seq(|ports|, i requires 0 <= i < |ports| => ToK8sPort(ports[i]))
  }

  function FromK8sPorts(ports: seq<K8sPort>): seq<Port> {
    seq(|ports|, i requires 0 <= i < |ports| => Port(ports[i].name, ports[i].port, ProtocolText(ports[i].protocol)))
  }

  // ---------------------------------------------------------------------------
  // The translation
  // ---------------------------------------------------------------------------

  predicate GoodVolumes(st: Storage, c: Container) {
    forall i :: 0 <= i < |c.volumes| ==> Resolve(st, c.name, i, c.volumes[i]).Some?
  }

  predicate Good(st: Storage, c: Container) {
    GoodVolumes(st, c) && GoodPorts(c.ports)
  }

  predicate AllGood(st: Storage, cs: seq<Container>) {
    forall a :: 0 <= a < |cs| ==> Good(st, cs[a])
  }

  /** One use of a volume. */
  datatype Use = Use(volume: K8sVolume, persistent: bool)

  function UseOf(st: Storage, c: Container, i: nat): Use
    requires GoodVolumes(st, c) && i < |c.volumes|
  {
    Use(Resolve(st, c.name, i, c.volumes[i]).value, c.volumes[i].kind == PersistentKind)
  }

  function Uses(st: Storage, c: Container): seq<Use>
    requires GoodVolumes(st, c)
  {
    seq(|c.volumes|, i requires 0 <= i < |c.volumes| => UseOf(st, c, i))
  }

  function AllUses(st: Storage, cs: seq<Container>): seq<Use>
    requires forall a :: 0 <= a < |cs| ==> GoodVolumes(st, cs[a])
  {
    if cs == [] then [] else AllUses(st, cs[..|cs| - 1]) + Uses(st, cs[|cs| - 1])
  }

  /** The volumes of the pod: one per use, but a persistent volume only once. */
  function Collect(uses: seq<Use>): seq<K8sVolume> {
    if uses == [] then []
    else
      var volumes, u := Collect(uses[..|uses| - 1]), uses[|uses| - 1];
      if u.persistent && First(volumes, u.volume.name).Some? then volumes else volumes + [u.volume]
  }

  function Mounts(st: Storage, c: Container): seq<Mount>
    requires GoodVolumes(st, c)
  {
    seq(|c.volumes|, i requires 0 <= i < |c.volumes| =>
      Mount(UseOf(st, c, i).volume.name, c.volumes[i].mountPath, c.volumes[i].kind != PersistentKind))
  }

  function ToK8sContainer(st: Storage, c: Container): K8sContainer
    requires Good(st, c)
  {
    K8sContainer(c.name, c.image, c.command, c.args, Mounts(st, c), ToK8sPorts(c.ports), c.env)
  }

  function ToK8sContainers(st: Storage, cs: seq<Container>): seq<K8sContainer>
    requires AllGood(st, cs)
  {
    seq(|cs|, a requires 0 <= a < |cs| => ToK8sContainer(st, cs[a]))
  }

  function ToPodSpec(st: Storage, cs: seq<Container>): Option<PodSpec> {
    if !AllGood(st, cs) then None else Some(PodSpec(ToK8sContainers(st, cs), Collect(AllUses(st, cs))))
  }

  /** What a mounted volume shows as; a mount without its volume is left out. */
  function ShownAs(v: K8sVolume, mountPath: string): Volume {
    match v.source
    case ConfigMapSource(n) => Volume(ConfigMapKind, n, mountPath)
    case SecretSource(n) => Volume(SecretKind, n, mountPath)
    case ClaimSource(n) => Volume(PersistentKind, n, mountPath)
    case EmptyDirSource(_) => Volume(PersistentKind, v.name, mountPath)
  }

  function FromMounts(mounts: seq<Mount>, volumes: seq<K8sVolume>): seq<Volume> {
    if mounts == [] then []
    else
      var rest, m := FromMounts(mounts[..|mounts| - 1], volumes), mounts[|mounts| - 1];
      match First(volumes, m.name)
      case Some(v) => rest + [ShownAs(v, m.mountPath)]
      case None => rest
  }

  /** The volume template a mounted volume is shown as: claims by name, emptyDir volumes as
      temporary storage with their size limit. */
  datatype Template = Template(name: string, temporary: bool, size: string)

  function TemplateOf(v: K8sVolume): Option<Template> {
    match v.source
    case ClaimSource(n) => if n == "" then None else Some(Template(n, false, ""))
    case EmptyDirSource(limit) => if v.name == "" then None else Some(Template(v.name, true, limit))
    case _ => None
  }

  predicate HasTemplate(templates: seq<Template>, name: string) {
    exists t <- templates :: t.name == name
  }

  function WithTemplate(templates: seq<Template>, t: Template): seq<Template> {
    if HasTemplate(templates, t.name) then templates else templates + [t]
  }

  /** The template a mount adds to those before it. */
  function AfterMount(templates: seq<Template>, m: Mount, volumes: seq<K8sVolume>): seq<Template> {
    match First(volumes, m.name)
    case Some(v) => (match TemplateOf(v) case Some(t) => WithTemplate(templates, t) case None => templates)
    case None => templates
  }

  /** The templates of a sequence of mounts, each name once. */
  function Templates(mounts: seq<Mount>, volumes: seq<K8sVolume>): seq<Template> {
    if mounts == [] then []
    else AfterMount(Templates(mounts[..|mounts| - 1], volumes), mounts[|mounts| - 1], volumes)
  }

  function AllMounts(containers: seq<K8sContainer>): seq<Mount> {
    if containers == [] then []
    else AllMounts(containers[..|containers| - 1]) + containers[|containers| - 1].mounts
  }

  function TemplatesOf(spec: PodSpec): seq<Template> {
    Templates(AllMounts(spec.containers), spec.volumes)
  }

  function FromK8sContainer(c: K8sContainer, volumes: seq<K8sVolume>): Container {
    Container(c.name, c.image, c.command, c.args, FromK8sPorts(c.ports), c.env, FromMounts(c.mounts, volumes))
  }

  function FromPodSpec(spec: PodSpec): seq<Container> {
    seq(|spec.containers|, a requires 0 <= a < |spec.containers| => FromK8sContainer(spec.containers[a], spec.volumes))
  }

  // ---------------------------------------------------------------------------
  // Looking volumes up again
  // ---------------------------------------------------------------------------

  function VolumesOf(uses: seq<Use>): seq<K8sVolume> {
    seq(|uses|, i requires 0 <= i < |uses| => uses[i].volume)
  }

  lemma FirstAppend(volumes: seq<K8sVolume>, v: K8sVolume, name: string)
    ensures First(volumes + [v], name) ==
            if First(volumes, name).Some? then First(volumes, name) else if v.name == name then Some(v) else None
  {
  }

  /** Skipping repeated persistent volumes does not change which volume a name finds. */
  lemma {:induction false} CollectFirst(uses: seq<Use>, name: string)
    ensures First(Collect(uses), name) == First(VolumesOf(uses), name)
  {
    if uses != [] {
      var front, u := uses[..|uses| - 1], uses[|uses| - 1];
      CollectFirst(front, name);
      CollectFirst(front, u.volume.name);
      assert VolumesOf(uses) == VolumesOf(front) + [u.volume];
      FirstAppend(VolumesOf(front), u.volume, name);
      FirstAppend(Collect(front), u.volume, name);
    }
  }

  /** A resolved volume shows as what it was resolved from. */
  lemma ResolvedShows(st: Storage, c: Container, i: nat)
    requires GoodStorage(st) && GoodVolumes(st, c) && i < |c.volumes|
    ensures ShownAs(UseOf(st, c, i).volume, c.volumes[i].mountPath) == c.volumes[i]
  {
  }

  lemma {:induction false} FromMountsAll(mounts: seq<Mount>, volumes: seq<K8sVolume>)
    requires forall i :: 0 <= i < |mounts| ==> First(volumes, mounts[i].name).Some?
    ensures |FromMounts(mounts, volumes)| == |mounts|
    ensures forall i :: 0 <= i < |mounts| ==>
                          FromMounts(mounts, volumes)[i] ==
                          ShownAs(First(volumes, mounts[i].name).value, mounts[i].mountPath)
  {
    if mounts != [] {
      var front := mounts[..|mounts| - 1];
      assert forall i :: 0 <= i < |front| ==> front[i] == mounts[i];
      FromMountsAll(front, volumes);
    }
  }

  // ---------------------------------------------------------------------------
  // The round trip
  // ---------------------------------------------------------------------------

  /** The name under which a container's i-th volume is mounted. */
  function MountName(c: Container, i: nat): string
    requires i < |c.volumes|
  {
    if c.volumes[i].kind == PersistentKind then c.volumes[i].name else GeneratedName(c.name, i)
  }

  predicate SameVolume(v: Volume, w: Volume) {
    v.kind == w.kind && v.name == w.name
  }

  /** No mount name stands for two different volumes. */
  ghost predicate Unambiguous(cs: seq<Container>) {
    forall a, i, b, j | 0 <= a < |cs| && 0 <= i < |cs[a].volumes| && 0 <= b < |cs| && 0 <= j < |cs[b].volumes| ::
      MountName(cs[a], i) == MountName(cs[b], j) ==> SameVolume(cs[a].volumes[i], cs[b].volumes[j])
  }

  ghost predicate ExactPort(p: Port) {
    p.protocol == Lower(p.protocol) && -0x8000_0000 <= p.port < 0x8000_0000
  }

  ghost predicate ExactPorts(cs: seq<Container>) {
    forall a, i :: 0 <= a < |cs| && 0 <= i < |cs[a].ports| ==> ExactPort(cs[a].ports[i])
  }

  /** A name in use finds the volume of some use of that name. */
  lemma FirstIsUsed(uses: seq<Use>, u: Use) returns (w: Use)
    requires u in uses
    ensures w in uses && First(Collect(uses), u.volume.name) == Some(w.volume) && w.volume.name == u.volume.name
  {
    var name, all := u.volume.name, VolumesOf(uses);
    CollectFirst(uses, name);
    var k :| 0 <= k < |uses| && uses[k] == u;
    assert all[k] == u.volume && all[k] in all;
    var v := First(all, name).value;
    var l :| 0 <= l < |all| && all[l] == v;
    w := uses[l];
  }

  lemma {:induction false} UseIsListed(st: Storage, cs: seq<Container>, a: nat, i: nat)
    requires AllGood(st, cs) && a < |cs| && i < |cs[a].volumes|
    ensures UseOf(st, cs[a], i) in AllUses(st, cs)
  {
    if a < |cs| - 1 {
      UseIsListed(st, cs[..|cs| - 1], a, i);
    } else {
      assert Uses(st, cs[a])[i] == UseOf(st, cs[a], i);
    }
  }

  lemma {:induction false} UseComesFrom(st: Storage, cs: seq<Container>, u: Use) returns (b: nat, j: nat)
    requires AllGood(st, cs) && u in AllUses(st, cs)
    ensures b < |cs| && j < |cs[b].volumes| && UseOf(st, cs[b], j) == u
  {
    var front, c := cs[..|cs| - 1], cs[|cs| - 1];
    if u in AllUses(st, front) {
      b, j := UseComesFrom(st, front, u);
    } else {
      assert u in Uses(st, c);
      b := |cs| - 1;
      j :| 0 <= j < |c.volumes| && Uses(st, c)[j] == u;
    }
  }

  lemma UseName(st: Storage, c: Container, i: nat)
    requires GoodVolumes(st, c) && i < |c.volumes|
    ensures UseOf(st, c, i).volume.name == MountName(c, i)
  {
  }

  /** What the mount of volume (a, i) finds, and where that came from. */
  lemma Found(st: Storage, cs: seq<Container>, a: nat, i: nat) returns (b: nat, j: nat)
    requires AllGood(st, cs) && a < |cs| && i < |cs[a].volumes|
    ensures b < |cs| && j < |cs[b].volumes| && MountName(cs[b], j) == MountName(cs[a], i)
    ensures First(Collect(AllUses(st, cs)), MountName(cs[a], i)) == Some(UseOf(st, cs[b], j).volume)
  {
    UseIsListed(st, cs, a, i);
    var w := FirstIsUsed(AllUses(st, cs), UseOf(st, cs[a], i));
    b, j := UseComesFrom(st, cs, w);
    UseName(st, cs[a], i);
    UseName(st, cs[b], j);
  }

  /** The volumes of one container, read back. */
  ghost function Back(st: Storage, cs: seq<Container>, a: nat): seq<Volume>
    requires AllGood(st, cs) && a < |cs|
  {
    FromMounts(Mounts(st, cs[a]), Collect(AllUses(st, cs)))
  }

  lemma BackAt(st: Storage, cs: seq<Container>, a: nat)
    requires GoodStorage(st) && AllGood(st, cs) && a < |cs|
    ensures |Back(st, cs, a)| == |cs[a].volumes|
    ensures forall i :: 0 <= i < |cs[a].volumes| ==>
                          var v := First(Collect(AllUses(st, cs)), MountName(cs[a], i));
                          v.Some? && Back(st, cs, a)[i] == ShownAs(v.value, cs[a].volumes[i].mountPath)
  {
    var mounts, all := Mounts(st, cs[a]), Collect(AllUses(st, cs));
    forall i | 0 <= i < |mounts|
      ensures mounts[i].name == MountName(cs[a], i) && First(all, mounts[i].name).Some?
    {
      UseName(st, cs[a], i);
      var b, j := Found(st, cs, a, i);
    }
    FromMountsAll(mounts, all);
  }

  /** A shown volume differs from another in kind or name, or only in its path. */
  lemma ShownSame(v: K8sVolume, p: string, q: string)
    ensures SameVolume(ShownAs(v, p), ShownAs(v, q))
  {
  }

  lemma VolumesExact(st: Storage, cs: seq<Container>)
    requires GoodStorage(st) && AllGood(st, cs)
    ensures (forall a :: 0 <= a < |cs| ==> Back(st, cs, a) == cs[a].volumes) <==> Unambiguous(cs)
  {
    if Unambiguous(cs) {
      forall a | 0 <= a < |cs|
        ensures Back(st, cs, a) == cs[a].volumes
      {
        BackAt(st, cs, a);
        forall i | 0 <= i < |cs[a].volumes|
          ensures Back(st, cs, a)[i] == cs[a].volumes[i]
        {
          var b, j := Found(st, cs, a, i);
          ResolvedShows(st, cs[b], j);
          ShownSame(UseOf(st, cs[b], j).volume, cs[b].volumes[j].mountPath, cs[a].volumes[i].mountPath);
          assert SameVolume(cs[a].volumes[i], cs[b].volumes[j]);
        }
      }
    }
    if forall a :: 0 <= a < |cs| ==> Back(st, cs, a) == cs[a].volumes {
      forall a, i, b, j | 0 <= a < |cs| && 0 <= i < |cs[a].volumes| && 0 <= b < |cs| && 0 <= j < |cs[b].volumes|
                          && MountName(cs[a], i) == MountName(cs[b], j)
        ensures SameVolume(cs[a].volumes[i], cs[b].volumes[j])
      {
        BackAt(st, cs, a);
        BackAt(st, cs, b);
        assert Back(st, cs, a)[i] == cs[a].volumes[i] && Back(st, cs, b)[j] == cs[b].volumes[j];
        var v := First(Collect(AllUses(st, cs)), MountName(cs[a], i)).value;
        ShownSame(v, cs[a].volumes[i].mountPath, cs[b].volumes[j].mountPath);
      }
    }
  }

  lemma PortsExact(ports: seq<Port>)
    requires forall i :: 0 <= i < |ports| ==> ToProtocol(ports[i].protocol).Some?
    ensures FromK8sPorts(ToK8sPorts(ports)) == ports <==> forall i :: 0 <= i < |ports| ==> ExactPort(ports[i])
  {
  }

  /** For every accepted input, translating to a pod specification and back returns the same
      containers exactly when protocols are lower case, ports fit in 32 bits, and no mount
      name stands for two different volumes. */
  lemma RoundTrip(st: Storage, cs: seq<Container>)
    requires GoodStorage(st) && ToPodSpec(st, cs).Some?
    ensures FromPodSpec(ToPodSpec(st, cs).value) == cs <==> ExactPorts(cs) && Unambiguous(cs)
  {
    var spec := ToPodSpec(st, cs).value;
    var back := FromPodSpec(spec);
    VolumesExact(st, cs);
    forall a | 0 <= a < |cs|
      ensures back[a] == cs[a] <==>
              Back(st, cs, a) == cs[a].volumes && forall i :: 0 <= i < |cs[a].ports| ==> ExactPort(cs[a].ports[i])
    {
      PortsExact(cs[a].ports);
      assert spec.containers[a] == ToK8sContainer(st, cs[a]);
    }
    if ExactPorts(cs) && Unambiguous(cs) {
      assert back == cs;
    }
    if back == cs {
      assert forall a :: 0 <= a < |cs| ==> back[a] == cs[a];
    }
  }
}

/** When the volumes of a pod are free of clashes, and the two translations as the loops they
    are. */
module PodVolumes {
  import opened Common
  import opened Text
  import opened PodTemplate

  // ---------------------------------------------------------------------------
  // Generated names
  // ---------------------------------------------------------------------------

  /** The container and the position can be read off a generated name. */
  lemma GeneratedInjective(a: string, i: nat, b: string, j: nat)
    requires GeneratedName(a, i) == GeneratedName(b, j)
    ensures a == b && i == j
  {
    var s := GeneratedName(a, i);
    var p, q := NatText(i), NatText(j);
    assert s == (a + "-vol") + p && s == (b + "-vol") + q;
    SuffixLength(a, p, b, q);
    assert p == s[|s| - |p|..] && q == s[|s| - |q|..];
    ItoaInjective(i, j);
    assert a == s[..|a|] && b == s[..|b|];
  }

  /** The digits at the end end where the letters begin. */
  lemma SuffixLength(a: string, p: string, b: string, q: string)
    requires (a + "-vol") + p == (b + "-vol") + q
    requires (forall k :: 0 <= k < |p| ==> IsDigit(p[k])) && (forall k :: 0 <= k < |q| ==> IsDigit(q[k]))
    ensures |p| == |q|
  {
    var s := (a + "-vol") + p;
    var l, m := |a| + 3, |b| + 3;
    assert s[l] == 'l' && s[m] == 'l';
    assert forall k :: l < k < |s| ==> s[k] == p[k - l - 1] && IsDigit(s[k]);
    assert forall k :: m < k < |s| ==> s[k] == q[k - m - 1] && IsDigit(s[k]);
    assert l == m;
  }

  ghost predicate DistinctContainers(cs: seq<Container>) {
    forall a, b :: 0 <= a < b < |cs| ==> cs[a].name != cs[b].name
  }

  /** No persistent volume in use is named like a generated volume. */
  ghost predicate NoLookalike(cs: seq<Container>) {
    forall a, i, b, j: nat | 0 <= a < |cs| && 0 <= i < |cs[a].volumes| && 0 <= b < |cs| ::
      cs[a].volumes[i].kind == PersistentKind ==> cs[a].volumes[i].name != GeneratedName(cs[b].name, j)
  }

  /** Distinct container names and no look-alikes leave no mount name ambiguous. */
  lemma NamesSuffice(cs: seq<Container>)
    requires DistinctContainers(cs) && NoLookalike(cs)
    ensures Unambiguous(cs)
  {
    forall a, i, b, j | 0 <= a < |cs| && 0 <= i < |cs[a].volumes| && 0 <= b < |cs| && 0 <= j < |cs[b].volumes|
                        && MountName(cs[a], i) == MountName(cs[b], j)
      ensures SameVolume(cs[a].volumes[i], cs[b].volumes[j])
    {
      if cs[a].volumes[i].kind != PersistentKind && cs[b].volumes[j].kind != PersistentKind {
        GeneratedInjective(cs[a].name, i, cs[b].name, j);
        assert a < b || b < a || a == b;
      }
    }
  }

  ghost predicate DistinctVolumes(volumes: seq<K8sVolume>) {
    forall i, j :: 0 <= i < j < |volumes| ==> volumes[i].name != volumes[j].name
  }

  /** A use whose name was used before is a persistent volume. */
  ghost predicate Spread(uses: seq<Use>) {
    forall k, l :: 0 <= k < l < |uses| && uses[k].volume.name == uses[l].volume.name ==> uses[l].persistent
  }

  lemma {:induction false} SpreadCollects(uses: seq<Use>)
    requires Spread(uses)
    ensures DistinctVolumes(Collect(uses))
    ensures forall v <- Collect(uses) :: exists k :: 0 <= k < |uses| && uses[k].volume == v
  {
    if uses != [] {
      var front, u := uses[..|uses| - 1], uses[|uses| - 1];
      assert forall k :: 0 <= k < |front| ==> front[k] == uses[k];
      SpreadCollects(front);
      var volumes := Collect(front);
      forall v <- volumes
        ensures exists k :: 0 <= k < |uses| && uses[k].volume == v
        ensures !u.persistent ==> v.name != u.volume.name
      {
        var k :| 0 <= k < |front| && front[k].volume == v;
        assert uses[k].volume == v;
      }
      assert uses[|uses| - 1].volume == u.volume;
      forall i | 0 <= i < |volumes|
        ensures volumes[i] in volumes
      {
      }
    }
  }

  lemma {:induction false} UsesSpread(st: Storage, cs: seq<Container>)
    requires AllGood(st, cs) && DistinctContainers(cs) && NoLookalike(cs)
    ensures Spread(AllUses(st, cs))
  {
    if cs != [] {
      var front, n := cs[..|cs| - 1], |cs| - 1;
      assert forall a :: 0 <= a < n ==> front[a] == cs[a];
      assert NoLookalike(front);
      UsesSpread(st, front);
      var before, own := AllUses(st, front), Uses(st, cs[n]);
      forall k, i | 0 <= k < |before| && 0 <= i < |own| && before[k].volume.name == own[i].volume.name
        ensures own[i].persistent
      {
        ReusedEarlier(st, cs, before[k], i);
      }
      forall j, i | 0 <= j < i < |own| && own[j].volume.name == own[i].volume.name
        ensures own[i].persistent
      {
        UseName(st, cs[n], j);
        UseName(st, cs[n], i);
        NewNameIsNew(cs, n, j, n, i);
      }
      SpreadAppend(before, own);
    }
  }

  lemma SpreadAppend(before: seq<Use>, own: seq<Use>)
    requires Spread(before) && Spread(own)
    requires forall k, i | 0 <= k < |before| && 0 <= i < |own| ::
               before[k].volume.name == own[i].volume.name ==> own[i].persistent
    ensures Spread(before + own)
  {
  }

  /** The last container reuses the name of an earlier use only for a persistent volume. */
  lemma ReusedEarlier(st: Storage, cs: seq<Container>, u: Use, i: nat)
    requires cs != [] && AllGood(st, cs) && DistinctContainers(cs) && NoLookalike(cs)
    requires u in AllUses(st, cs[..|cs| - 1]) && i < |cs[|cs| - 1].volumes|
    requires u.volume.name == UseOf(st, cs[|cs| - 1], i).volume.name
    ensures cs[|cs| - 1].volumes[i].kind == PersistentKind
  {
    var a, j := UseComesFrom(st, cs[..|cs| - 1], u);
    UseName(st, cs[a], j);
    UseName(st, cs[|cs| - 1], i);
    NewNameIsNew(cs, a, j, |cs| - 1, i);
  }

  /** Two different uses share a name only if the later one is persistent. */
  lemma NewNameIsNew(cs: seq<Container>, a: nat, j: nat, b: nat, i: nat)
    requires DistinctContainers(cs) && NoLookalike(cs)
    requires a < |cs| && j < |cs[a].volumes| && b < |cs| && i < |cs[b].volumes| && (a != b || j != i)
    requires MountName(cs[a], j) == MountName(cs[b], i)
    ensures cs[b].volumes[i].kind == PersistentKind
  {
    if cs[b].volumes[i].kind != PersistentKind && cs[a].volumes[j].kind != PersistentKind {
      GeneratedInjective(cs[a].name, j, cs[b].name, i);
    }
  }

  /** With distinct container names and no look-alikes the pod's volumes have distinct names,
      every mount names one of them, and the translation and back is the identity for lower
      case protocols and ports in range. */
  lemma CleanPods(st: Storage, cs: seq<Container>)
    requires GoodStorage(st) && ToPodSpec(st, cs).Some? && DistinctContainers(cs) && NoLookalike(cs)
    ensures var spec := ToPodSpec(st, cs).value;
            && DistinctVolumes(spec.volumes)
            && (forall a, i :: 0 <= a < |spec.containers| && 0 <= i < |spec.containers[a].mounts| ==>
                                 First(spec.volumes, spec.containers[a].mounts[i].name).Some?)
            && (FromPodSpec(spec) == cs <==> ExactPorts(cs))
  {
    var spec := ToPodSpec(st, cs).value;
    UsesSpread(st, cs);
    SpreadCollects(AllUses(st, cs));
    NamesSuffice(cs);
    RoundTrip(st, cs);
    forall a, i | 0 <= a < |spec.containers| && 0 <= i < |spec.containers[a].mounts|
      ensures First(spec.volumes, spec.containers[a].mounts[i].name).Some?
    {
      BackAt(st, cs, a);
      UseName(st, cs[a], i);
    }
  }

  const CONFIG := Volume(ConfigMapKind, "m", "/m")
  const CLAIM := Volume(PersistentKind, "c-vol0", "/d")
  const CLASHING := [Container("c", "image", [], [], [], [], [CONFIG, CLAIM])]
  const CLAIMS := Storage([], ["c-vol0"])

  /** An accepted pod that does not come back: a claim named like the generated volume of the
      container's config map. */
  lemma LookalikeLost()
    ensures GoodStorage(CLAIMS) && ToPodSpec(CLAIMS, CLASHING).Some?
    ensures FromPodSpec(ToPodSpec(CLAIMS, CLASHING).value) != CLASHING
  {
    var c := CLASHING[0];
    assert Itoa(0) == "0" && GeneratedName("c", 0) == "c-vol0";
    assert CLAIMS.claims[0] == "c-vol0" && Resolve(CLAIMS, "c", 1, CLAIM).Some?;
    assert AllGood(CLAIMS, CLASHING);
    assert MountName(c, 0) == MountName(c, 1) && !SameVolume(c.volumes[0], c.volumes[1]);
    assert !Unambiguous(CLASHING);
    RoundTrip(CLAIMS, CLASHING);
  }

  // ---------------------------------------------------------------------------
  // Volume templates
  // ---------------------------------------------------------------------------

  ghost predicate DistinctTemplates(templates: seq<Template>) {
    forall i, j :: 0 <= i < j < |templates| ==> templates[i].name != templates[j].name
  }

  /** The volume a mount finds shows as this template. */
  ghost predicate Yields(volumes: seq<K8sVolume>, m: Mount, t: Template) {
    First(volumes, m.name).Some? && TemplateOf(First(volumes, m.name).value) == Some(t)
  }

  /** Each template comes from a mount, no name occurs twice, and no mount's name is left out. */
  lemma {:induction false} TemplatesCover(mounts: seq<Mount>, volumes: seq<K8sVolume>)
    ensures DistinctTemplates(Templates(mounts, volumes))
    ensures forall t <- Templates(mounts, volumes) :: exists m <- mounts :: Yields(volumes, m, t)
    ensures forall m, t | m in mounts && Yields(volumes, m, t) :: HasTemplate(Templates(mounts, volumes), t.name)
  {
    if mounts != [] {
      var front, m := mounts[..|mounts| - 1], mounts[|mounts| - 1];
      assert mounts == front + [m];
      TemplatesCover(front, volumes);
      var before := Templates(front, volumes);
      forall t <- Templates(mounts, volumes)
        ensures exists m <- mounts :: Yields(volumes, m, t)
      {
        if t in before {
          var n :| n in front && Yields(volumes, n, t);
          assert n in mounts;
        } else {
          assert Yields(volumes, m, t) && m in mounts;
        }
      }
      forall n, t | n in mounts && Yields(volumes, n, t)
        ensures HasTemplate(Templates(mounts, volumes), t.name)
      {
        if n in front {
          var u :| u in before && u.name == t.name;
          assert u in Templates(mounts, volumes);
        }
      }
    }
  }

  lemma {:induction false} MountIsListed(st: Storage, cs: seq<Container>, a: nat, i: nat)
    requires AllGood(st, cs) && a < |cs| && i < |cs[a].volumes|
    ensures Mounts(st, cs[a])[i] in AllMounts(ToK8sContainers(st, cs))
  {
    var all := ToK8sContainers(st, cs);
    assert all[..|cs| - 1] == ToK8sContainers(st, cs[..|cs| - 1]);
    if a < |cs| - 1 {
      MountIsListed(st, cs[..|cs| - 1], a, i);
    } else {
      assert all[a].mounts[i] == Mounts(st, cs[a])[i];
    }
  }

  lemma {:induction false} MountComesFrom(st: Storage, cs: seq<Container>, m: Mount) returns (a: nat, i: nat)
    requires AllGood(st, cs) && m in AllMounts(ToK8sContainers(st, cs))
    ensures a < |cs| && i < |cs[a].volumes| && Mounts(st, cs[a])[i] == m
  {
    var all, front := ToK8sContainers(st, cs), cs[..|cs| - 1];
    assert all[..|cs| - 1] == ToK8sContainers(st, front);
    if m in AllMounts(ToK8sContainers(st, front)) {
      a, i := MountComesFrom(st, front, m);
    } else {
      a := |cs| - 1;
      assert m in Mounts(st, cs[a]);
      i :| 0 <= i < |Mounts(st, cs[a])| && Mounts(st, cs[a])[i] == m;
    }
  }

  /** In an unambiguous pod a mount finds the very volume it was made from. */
  lemma FindsOwn(st: Storage, cs: seq<Container>, a: nat, i: nat)
    requires AllGood(st, cs) && Unambiguous(cs) && a < |cs| && i < |cs[a].volumes|
    ensures First(Collect(AllUses(st, cs)), Mounts(st, cs[a])[i].name) == Some(UseOf(st, cs[a], i).volume)
  {
    var b, j := Found(st, cs, a, i);
    UseName(st, cs[a], i);
    UseName(st, cs[b], j);
    assert SameVolume(cs[a].volumes[i], cs[b].volumes[j]);
  }

  /** The persistent volume (a, i) is shown as this template. */
  ghost predicate UsedAs(st: Storage, cs: seq<Container>, a: nat, i: nat, t: Template)
    requires AllGood(st, cs) && a < |cs| && i < |cs[a].volumes|
  {
    cs[a].volumes[i].kind == PersistentKind && TemplateOf(UseOf(st, cs[a], i).volume) == Some(t)
  }

  lemma TemplateName(st: Storage, cs: seq<Container>, a: nat, i: nat, t: Template)
    requires GoodStorage(st) && AllGood(st, cs) && a < |cs| && i < |cs[a].volumes|
    requires TemplateOf(UseOf(st, cs[a], i).volume) == Some(t)
    ensures UsedAs(st, cs, a, i, t) && t.name == cs[a].volumes[i].name
  {
  }

  /** For an accepted, unambiguous pod the templates read back are exactly those of the
      persistent volumes in use, each once. */
  lemma TemplatesExact(st: Storage, cs: seq<Container>)
    requires GoodStorage(st) && ToPodSpec(st, cs).Some? && Unambiguous(cs)
    ensures var templates := TemplatesOf(ToPodSpec(st, cs).value);
            && DistinctTemplates(templates)
            && forall t :: t in templates <==>
                             exists a, i :: 0 <= a < |cs| && 0 <= i < |cs[a].volumes| && UsedAs(st, cs, a, i, t)
  {
    var mounts, volumes := AllMounts(ToK8sContainers(st, cs)), Collect(AllUses(st, cs));
    TemplatesCover(mounts, volumes);
    var templates := Templates(mounts, volumes);
    forall t | t in templates
      ensures exists a, i :: 0 <= a < |cs| && 0 <= i < |cs[a].volumes| && UsedAs(st, cs, a, i, t)
    {
      var a, i := TemplateSource(st, cs, t);
    }
    forall t, a, i | 0 <= a < |cs| && 0 <= i < |cs[a].volumes| && UsedAs(st, cs, a, i, t)
      ensures t in templates
    {
      UsedIsShown(st, cs, a, i, t);
    }
  }

  lemma TemplateSource(st: Storage, cs: seq<Container>, t: Template) returns (a: nat, i: nat)
    requires GoodStorage(st) && AllGood(st, cs) && Unambiguous(cs)
    requires t in Templates(AllMounts(ToK8sContainers(st, cs)), Collect(AllUses(st, cs)))
    ensures a < |cs| && i < |cs[a].volumes| && UsedAs(st, cs, a, i, t)
  {
    var mounts, volumes := AllMounts(ToK8sContainers(st, cs)), Collect(AllUses(st, cs));
    TemplatesCover(mounts, volumes);
    var m :| m in mounts && Yields(volumes, m, t);
    a, i := MountComesFrom(st, cs, m);
    FindsOwn(st, cs, a, i);
    TemplateName(st, cs, a, i, t);
  }

  lemma UsedIsShown(st: Storage, cs: seq<Container>, a: nat, i: nat, t: Template)
    requires GoodStorage(st) && AllGood(st, cs) && Unambiguous(cs)
    requires a < |cs| && i < |cs[a].volumes| && UsedAs(st, cs, a, i, t)
    ensures t in Templates(AllMounts(ToK8sContainers(st, cs)), Collect(AllUses(st, cs)))
  {
    var mounts, volumes := AllMounts(ToK8sContainers(st, cs)), Collect(AllUses(st, cs));
    TemplatesCover(mounts, volumes);
    MountIsListed(st, cs, a, i);
    FindsOwn(st, cs, a, i);
    assert Yields(volumes, Mounts(st, cs[a])[i], t);
    var u :| u in Templates(mounts, volumes) && u.name == t.name;
    var b, j := TemplateSource(st, cs, u);
    NameFixesTemplate(st, cs, a, i, t, b, j, u);
  }

  lemma NameFixesTemplate(st: Storage, cs: seq<Container>, a: nat, i: nat, t: Template, b: nat, j: nat, u: Template)
    requires GoodStorage(st) && AllGood(st, cs) && t.name == u.name
    requires a < |cs| && i < |cs[a].volumes| && UsedAs(st, cs, a, i, t)
    requires b < |cs| && j < |cs[b].volumes| && UsedAs(st, cs, b, j, u)
    ensures t == u
  {
    TemplateName(st, cs, a, i, t);
    TemplateName(st, cs, b, j, u);
  }

  // ---------------------------------------------------------------------------
  // The translations as loops
  // ---------------------------------------------------------------------------

  method FindByName(volumes: seq<K8sVolume>, name: string) returns (r: Option<K8sVolume>)
    ensures r == First(volumes, name)
  {
    for i := 0 to |volumes|
      invariant First(volumes[..i], name) == None
    {
      assert volumes[..i + 1] == volumes[..i] + [volumes[i]];
      FirstAppend(volumes[..i], volumes[i], name);
      if volumes[i].name == name {
        FirstExtends(volumes, i + 1, name);
        return Some(volumes[i]);
      }
    }
    assert volumes[..|volumes|] == volumes;
    return None;
  }

  lemma {:induction false} FirstExtends(volumes: seq<K8sVolume>, n: nat, name: string)
    requires n <= |volumes| && First(volumes[..n], name).Some?
    ensures First(volumes, name) == First(volumes[..n], name)
  {
    if n < |volumes| {
      assert volumes[..|volumes| - 1][..n] == volumes[..n];
      FirstExtends(volumes[..|volumes| - 1], n, name);
    } else {
      assert volumes[..n] == volumes;
    }
  }

  method ResolveVolume(st: Storage, container: string, i: nat, v: Volume) returns (r: Option<K8sVolume>)
    ensures r == Resolve(st, container, i, v)
  {
    match v.kind {
      case ConfigMapKind => r := Some(K8sVolume(GeneratedName(container, i), ConfigMapSource(v.name)));
      case SecretKind => r := Some(K8sVolume(GeneratedName(container, i), SecretSource(v.name)));
      case PersistentKind =>
        r := FindByName(st.emptyDirs, v.name);
        if r.None? {
          for j := 0 to |st.claims|
            invariant v.name !in st.claims[..j]
          {
            if st.claims[j] == v.name {
              return Some(K8sVolume(v.name, ClaimSource(v.name)));
            }
          }
          assert st.claims[..|st.claims|] == st.claims;
        }
      case OtherKind(_) => r := None;
    }
  }

  lemma CollectAppend(uses: seq<Use>, u: Use)
    ensures Collect(uses + [u]) ==
            if u.persistent && First(Collect(uses), u.volume.name).Some?
            then Collect(uses) else Collect(uses) + [u.volume]
  {
  }

  /** A container with its first volumes only. */
  ghost function Upto(c: Container, i: nat): Container
    requires i <= |c.volumes|
  {
    c.(volumes := c.volumes[..i])
  }

  lemma UptoStep(st: Storage, c: Container, i: nat)
    requires i < |c.volumes| && GoodVolumes(st, Upto(c, i)) && Resolve(st, c.name, i, c.volumes[i]).Some?
    ensures GoodVolumes(st, Upto(c, i + 1))
    ensures var v, persistent := Resolve(st, c.name, i, c.volumes[i]).value, c.volumes[i].kind == PersistentKind;
            && Uses(st, Upto(c, i + 1)) == Uses(st, Upto(c, i)) + [Use(v, persistent)]
            && Mounts(st, Upto(c, i + 1)) ==
               Mounts(st, Upto(c, i)) + [Mount(v.name, c.volumes[i].mountPath, !persistent)]
  {
    var d, e := Upto(c, i), Upto(c, i + 1);
    assert forall k :: 0 <= k < i ==> d.volumes[k] == e.volumes[k];
    forall k | 0 <= k <= i
      ensures Resolve(st, e.name, k, e.volumes[k]).Some?
    {
      assert k < i ==> Resolve(st, d.name, k, d.volumes[k]).Some?;
    }
  }

  /** The volumes of one container, appended to those of the containers before it. */
  method BuildMounts(st: Storage, c: Container, ghost before: seq<Use>, volumes: seq<K8sVolume>)
    returns (mounts: seq<Mount>, all: seq<K8sVolume>, ok: bool)
    requires volumes == Collect(before)
    ensures ok <==> GoodVolumes(st, c)
    ensures ok ==> mounts == Mounts(st, c) && all == Collect(before + Uses(st, c))
  {
    mounts, all := [], volumes;
    assert before + [] == before;
    for i := 0 to |c.volumes|
      invariant GoodVolumes(st, Upto(c, i))
      invariant mounts == Mounts(st, Upto(c, i))
      invariant all == Collect(before + Uses(st, Upto(c, i)))
    {
      var v := ResolveVolume(st, c.name, i, c.volumes[i]);
      if v.None? {
        return [], [], false;
      }
      var persistent := c.volumes[i].kind == PersistentKind;
      var known := FindByName(all, v.value.name);
      ghost var uses, u := Uses(st, Upto(c, i)), Use(v.value, persistent);
      UptoStep(st, c, i);
      CollectAppend(before + uses, u);
      assert before + uses + [u] == before + (uses + [u]);
      if !(persistent && known.Some?) {
        all := all + [v.value];
      }
      mounts := mounts + [Mount(v.value.name, c.volumes[i].mountPath, !persistent)];
    }
    assert Upto(c, |c.volumes|) == c;
    ok := true;
  }

  method BuildPorts(ports: seq<Port>) returns (r: seq<K8sPort>, ok: bool)
    ensures ok <==> GoodPorts(ports)
    ensures ok ==> r == ToK8sPorts(ports)
  {
    r := [];
    for i := 0 to |ports|
      invariant GoodPorts(ports[..i])
      invariant r == ToK8sPorts(ports[..i])
    {
      assert forall k :: 0 <= k < i ==> ports[..i][k] == ports[k];
      var protocol := ToProtocol(ports[i].protocol);
      if protocol.None? || !ValidPortName(ports[i].name) {
        return [], false;
      }
      for j := 0 to i
        invariant forall k :: 0 <= k < j ==> ports[k].name != ports[i].name
      {
        if ports[j].name == ports[i].name {
          return [], false;
        }
      }
      assert ports[..i + 1] == ports[..i] + [ports[i]];
      r := r + [K8sPort(ports[i].name, ToInt32(ports[i].port), protocol.value)];
    }
    assert ports[..|ports|] == ports;
    ok := true;
  }

  method BuildContainer(st: Storage, c: Container, ghost before: seq<Use>, volumes: seq<K8sVolume>)
    returns (r: Option<K8sContainer>, all: seq<K8sVolume>)
    requires volumes == Collect(before)
    ensures r.Some? <==> Good(st, c)
    ensures r.Some? ==> r.value == ToK8sContainer(st, c) && all == Collect(before + Uses(st, c))
  {
    var mounts, okVolumes, okPorts, ports;
    mounts, all, okVolumes := BuildMounts(st, c, before, volumes);
    if !okVolumes {
      return None, [];
    }
    ports, okPorts := BuildPorts(c.ports);
    if !okPorts {
      return None, [];
    }
    r := Some(K8sContainer(c.name, c.image, c.command, c.args, mounts, ports, c.env));
  }

  lemma AllUsesAppend(st: Storage, cs: seq<Container>, c: Container)
    requires AllGood(st, cs) && Good(st, c)
    ensures AllGood(st, cs + [c]) && AllUses(st, cs + [c]) == AllUses(st, cs) + Uses(st, c)
  {
  }

  lemma ContainersAppend(st: Storage, cs: seq<Container>, c: Container)
    requires AllGood(st, cs) && Good(st, c) && AllGood(st, cs + [c])
    ensures ToK8sContainers(st, cs + [c]) == ToK8sContainers(st, cs) + [ToK8sContainer(st, c)]
  {
  }

  lemma PodSpecAppend(st: Storage, cs: seq<Container>, c: Container)
    requires ToPodSpec(st, cs).Some? && Good(st, c)
    ensures ToPodSpec(st, cs + [c]) ==
            Some(PodSpec(ToPodSpec(st, cs).value.containers + [ToK8sContainer(st, c)],
                         Collect(AllUses(st, cs) + Uses(st, c))))
  {
    AllUsesAppend(st, cs, c);
    ContainersAppend(st, cs, c);
  }

  /** `scContainersAndPVToK8sPodSpec`. */
  method BuildPodSpec(st: Storage, cs: seq<Container>) returns (r: Option<PodSpec>)
    ensures r == ToPodSpec(st, cs)
  {
    var containers: seq<K8sContainer> := [];
    var volumes: seq<K8sVolume> := [];
    assert cs[..0] == [] && ToK8sContainers(st, []) == [];
    for a := 0 to |cs|
      invariant ToPodSpec(st, cs[..a]) == Some(PodSpec(containers, volumes))
    {
      var c, all := BuildContainer(st, cs[a], AllUses(st, cs[..a]), volumes);
      if c.None? {
        return None;
      }
      PodSpecAppend(st, cs[..a], cs[a]);
      assert cs[..a + 1] == cs[..a] + [cs[a]];
      volumes := all;
      containers := containers + [c.value];
    }
    assert cs[..|cs|] == cs;
    return Some(PodSpec(containers, volumes));
  }

  /** `k8sPodSpecToScContainersAndVCTemplates`. */
  method ReadPodSpec(spec: PodSpec) returns (cs: seq<Container>, templates: seq<Template>)
    ensures cs == FromPodSpec(spec)
    ensures templates == TemplatesOf(spec)
  {
    cs, templates := [], [];
    for a := 0 to |spec.containers|
      invariant cs == FromPodSpec(spec)[..a]
      invariant templates == Templates(AllMounts(spec.containers[..a]), spec.volumes)
    {
      var c := spec.containers[a];
      ghost var seen := AllMounts(spec.containers[..a]);
      assert spec.containers[..a + 1][..a] == spec.containers[..a];
      var volumes;
      volumes, templates := ReadMounts(c.mounts, spec.volumes, seen, templates);
      var ports := ReadPorts(c.ports);
      cs := cs + [Container(c.name, c.image, c.command, c.args, ports, c.env, volumes)];
    }
    assert spec.containers[..|spec.containers|] == spec.containers;
  }

  method ReadPorts(k8sPorts: seq<K8sPort>) returns (ports: seq<Port>)
    ensures ports == FromK8sPorts(k8sPorts)
  {
    ports := [];
    for i := 0 to |k8sPorts|
      invariant ports == FromK8sPorts(k8sPorts)[..i]
    {
      ports := ports + [Port(k8sPorts[i].name, k8sPorts[i].port, ProtocolText(k8sPorts[i].protocol))];
    }
  }

  /** The volumes of one container, and its templates behind those of the mounts seen before. */
  method ReadMounts(mounts: seq<Mount>, volumes: seq<K8sVolume>, ghost seen: seq<Mount>, before: seq<Template>)
    returns (r: seq<Volume>, templates: seq<Template>)
    requires before == Templates(seen, volumes)
    ensures r == FromMounts(mounts, volumes)
    ensures templates == Templates(seen + mounts, volumes)
  {
    r, templates := [], before;
    assert seen + mounts[..0] == seen;
    for i := 0 to |mounts|
      invariant r == FromMounts(mounts[..i], volumes)
      invariant templates == Templates(seen + mounts[..i], volumes)
    {
      MountStep(seen, mounts, i, volumes);
      var v := FindByName(volumes, mounts[i].name);
      if v.Some? {
        r := r + [ShownAs(v.value, mounts[i].mountPath)];
        var t := TemplateOf(v.value);
        if t.Some? {
          templates := AppendTemplate(templates, t.value);
        }
      }
    }
    assert mounts[..|mounts|] == mounts;
  }

  lemma MountStep(seen: seq<Mount>, mounts: seq<Mount>, i: nat, volumes: seq<K8sVolume>)
    requires i < |mounts|
    ensures Templates(seen + mounts[..i + 1], volumes) ==
            AfterMount(Templates(seen + mounts[..i], volumes), mounts[i], volumes)
    ensures FromMounts(mounts[..i + 1], volumes) ==
            var rest := FromMounts(mounts[..i], volumes);
            match First(volumes, mounts[i].name)
            case Some(v) => rest + [ShownAs(v, mounts[i].mountPath)]
            case None => rest
  {
    assert mounts[..i + 1][..i] == mounts[..i];
    assert (seen + mounts[..i + 1])[..|seen| + i] == seen + mounts[..i];
  }

  method AppendTemplate(templates: seq<Template>, t: Template) returns (r: seq<Template>)
    ensures r == WithTemplate(templates, t)
  {
    for i := 0 to |templates|
      invariant forall j :: 0 <= j < i ==> templates[j].name != t.name
    {
      if templates[i].name == t.name {
        return templates;
      }
    }
    return templates + [t];
  }
}

/** Which pods are accepted and what they become, field by field. */
module PodMeaning {
  import opened Common
  import opened Text
  import opened PodTemplate

  // ---------------------------------------------------------------------------
  // Ports
  // ---------------------------------------------------------------------------

  /** The same text in lower case: only the letters A to Z change. */
  ghost predicate LowerOf(s: string, l: string) {
    |s| == |l| && forall i :: 0 <= i < |s| ==>
                                l[i] == if 'A' <= s[i] <= 'Z' then (s[i] as int + 32) as char else s[i]
  }

  lemma LowerMeans(s: string, l: string)
    ensures Lower(s) == l <==> LowerOf(s, l)
  {
  }

  /** A protocol is tcp or udp in any case, and shows in lower case. */
  lemma ProtocolMeans(s: string)
    ensures ToProtocol(s) == Some(TCP) <==> LowerOf(s, "tcp")
    ensures ToProtocol(s) == Some(UDP) <==> LowerOf(s, "udp")
    ensures ToProtocol(s) == None <==> !LowerOf(s, "tcp") && !LowerOf(s, "udp")
    ensures ProtocolText(TCP) == "tcp" && ProtocolText(UDP) == "udp"
  {
    LowerMeans(s, "tcp");
    LowerMeans(s, "udp");
    assert "tcp"[0] != "udp"[0];
  }

  /** The number is kept up to multiples of 2^32, in the signed range. */
  lemma PortNumberMeans(x: int)
    ensures -2147483648 <= ToInt32(x) <= 2147483647 && exists k: int :: ToInt32(x) == x - k * 4294967296
  {
    var k := (x + 0x8000_0000) / 0x1_0000_0000;
    assert ToInt32(x) == x - k * 4294967296;
  }

  /** A port name has one to fifteen characters among small letters, digits and hyphens, at least one
      letter, and no hyphen at either end or next to another. */
  lemma PortNameMeans(s: string)
    ensures ValidPortName(s) <==>
            && 1 <= |s| <= 15
            && (forall i :: 0 <= i < |s| ==> 'a' <= s[i] <= 'z' || '0' <= s[i] <= '9' || s[i] == '-')
            && (exists i :: 0 <= i < |s| && 'a' <= s[i] <= 'z')
            && (forall i :: 0 <= i < |s| && s[i] == '-' ==> 0 < i < |s| - 1 && s[i + 1] != '-')
  {
  }

  // ---------------------------------------------------------------------------
  // Volumes
  // ---------------------------------------------------------------------------

  /** An emptyDir volume, or else a claim, has the name. */
  ghost predicate AtHand(st: Storage, name: string) {
    || (exists i :: 0 <= i < |st.emptyDirs| && st.emptyDirs[i].name == name)
    || (exists i :: 0 <= i < |st.claims| && st.claims[i] == name)
  }

  lemma AtHandMeans(st: Storage, container: string, i: nat, v: Volume)
    ensures Resolve(st, container, i, v).Some? <==>
            v.kind == ConfigMapKind || v.kind == SecretKind || (v.kind == PersistentKind && AtHand(st, v.name))
  {
    FirstMeans(st.emptyDirs, v.name);
    if First(st.emptyDirs, v.name).Some? {
      var j :| FirstNamed(st.emptyDirs, v.name, j);
    }
  }

  /** What a volume becomes: a config map or a secret under the generated name; an emptyDir volume
      of that name, the first one, as it is; or else the claim of that name. */
  lemma VolumeMeans(st: Storage, c: Container, i: nat)
    requires GoodVolumes(st, c) && i < |c.volumes|
    ensures var v, k := c.volumes[i], UseOf(st, c, i).volume;
            && (v.kind == ConfigMapKind ==> k == K8sVolume(c.name + "-vol" + Itoa(i), ConfigMapSource(v.name)))
            && (v.kind == SecretKind ==> k == K8sVolume(c.name + "-vol" + Itoa(i), SecretSource(v.name)))
            && (v.kind == PersistentKind && (exists j :: 0 <= j < |st.emptyDirs| && st.emptyDirs[j].name == v.name) ==>
                  exists j :: FirstNamed(st.emptyDirs, v.name, j) && k == st.emptyDirs[j])
            && (v.kind == PersistentKind && (forall j :: 0 <= j < |st.emptyDirs| ==> st.emptyDirs[j].name != v.name) ==>
                  k == K8sVolume(v.name, ClaimSource(v.name)))
  {
    FirstMeans(st.emptyDirs, c.volumes[i].name);
  }

  // ---------------------------------------------------------------------------
  // The translation
  // ---------------------------------------------------------------------------

  /** A pod is accepted exactly when every volume is a config map, a secret or a persistent volume at
      hand, every port has a known protocol and a good name, and no container repeats a port name. */
  lemma AcceptedMeans(st: Storage, cs: seq<Container>)
    ensures ToPodSpec(st, cs).Some? <==>
            forall a :: 0 <= a < |cs| ==>
                          && (forall i :: 0 <= i < |cs[a].volumes| ==> VolumeHad(st, cs[a].volumes[i]))
                          && (forall i :: 0 <= i < |cs[a].ports| ==> PortGood(cs[a].ports[i]))
                          && (forall i, j :: 0 <= i < j < |cs[a].ports| ==> cs[a].ports[i].name != cs[a].ports[j].name)
  {
    forall a | 0 <= a < |cs|
      ensures Good(st, cs[a]) <==>
              && (forall i :: 0 <= i < |cs[a].volumes| ==> VolumeHad(st, cs[a].volumes[i]))
              && (forall i :: 0 <= i < |cs[a].ports| ==> PortGood(cs[a].ports[i]))
              && (forall i, j :: 0 <= i < j < |cs[a].ports| ==> cs[a].ports[i].name != cs[a].ports[j].name)
    {
      GoodMeans(st, cs[a]);
    }
  }

  ghost predicate VolumeHad(st: Storage, v: Volume) {
    v.kind == ConfigMapKind || v.kind == SecretKind || (v.kind == PersistentKind && AtHand(st, v.name))
  }

  ghost predicate PortGood(p: Port) {
    (LowerOf(p.protocol, "tcp") || LowerOf(p.protocol, "udp")) && ValidPortName(p.name)
  }

  lemma GoodMeans(st: Storage, c: Container)
    ensures Good(st, c) <==>
            && (forall i :: 0 <= i < |c.volumes| ==> VolumeHad(st, c.volumes[i]))
            && (forall i :: 0 <= i < |c.ports| ==> PortGood(c.ports[i]))
            && (forall i, j :: 0 <= i < j < |c.ports| ==> c.ports[i].name != c.ports[j].name)
  {
    forall i | 0 <= i < |c.volumes|
      ensures Resolve(st, c.name, i, c.volumes[i]).Some? <==> VolumeHad(st, c.volumes[i])
    {
      AtHandMeans(st, c.name, i, c.volumes[i]);
    }
    forall i | 0 <= i < |c.ports|
      ensures ToProtocol(c.ports[i].protocol).Some? && ValidPortName(c.ports[i].name) <==> PortGood(c.ports[i])
    {
      ProtocolMeans(c.ports[i].protocol);
    }
  }

  /** What an accepted container becomes: its own fields; a mount for each volume, at its path, under
      the name of what it became, read-only unless it is persistent; and a port for each port. */
  lemma ContainerMeans(st: Storage, cs: seq<Container>, a: nat)
    requires ToPodSpec(st, cs).Some? && a < |cs|
    ensures var spec, c := ToPodSpec(st, cs).value, cs[a];
            && |spec.containers| == |cs|
            && var k := spec.containers[a];
               && k.name == c.name && k.image == c.image && k.command == c.command && k.args == c.args && k.env == c.env
               && |k.mounts| == |c.volumes| && |k.ports| == |c.ports|
               && (forall i :: 0 <= i < |c.volumes| ==>
                                 && k.mounts[i].name == UseOf(st, c, i).volume.name
                                 && k.mounts[i].mountPath == c.volumes[i].mountPath
                                 && (k.mounts[i].readOnly <==> c.volumes[i].kind != PersistentKind))
               && (forall i :: 0 <= i < |c.ports| ==>
                                 && k.ports[i].name == c.ports[i].name && k.ports[i].port == ToInt32(c.ports[i].port)
                                 && (k.ports[i].protocol == TCP <==> LowerOf(c.ports[i].protocol, "tcp")))
  {
    forall i | 0 <= i < |cs[a].ports|
      ensures ToK8sPort(cs[a].ports[i]).protocol == TCP <==> LowerOf(cs[a].ports[i].protocol, "tcp")
    {
      ProtocolMeans(cs[a].ports[i].protocol);
    }
  }

  /** The volumes of a pod are exactly those its containers' volumes become, except that a persistent
      one is left out when its name is taken already; none is added. */
  lemma {:induction false} CollectMeans(uses: seq<Use>, v: K8sVolume)
    ensures v in Collect(uses) ==> exists k :: 0 <= k < |uses| && uses[k].volume == v
    ensures (exists k :: 0 <= k < |uses| && uses[k].volume == v) ==>
              v in Collect(uses) || exists w <- Collect(uses) :: w.name == v.name
  {
    if uses != [] {
      var front, u := uses[..|uses| - 1], uses[|uses| - 1];
      CollectMeans(front, v);
      assert uses == front + [u];
      assert forall k :: 0 <= k < |front| ==> front[k] == uses[k];
      assert forall w <- Collect(front) :: w in Collect(uses);
      if u.volume == v && u.persistent && First(Collect(front), v.name).Some? {
        assert First(Collect(front), v.name).value in Collect(front);
      }
    }
  }

  /** What a mounted volume shows as, and the template it gives: a claim its name, an emptyDir volume
      its name and size as temporary storage; other volumes, and nameless ones, give none. */
  lemma ShownMeans(v: K8sVolume, path: string)
    ensures match v.source
            case ConfigMapSource(n) => ShownAs(v, path) == Volume(ConfigMapKind, n, path) && TemplateOf(v) == None
            case SecretSource(n) => ShownAs(v, path) == Volume(SecretKind, n, path) && TemplateOf(v) == None
            case ClaimSource(n) =>
              && ShownAs(v, path) == Volume(PersistentKind, n, path)
              && TemplateOf(v) == (if |n| > 0 then Some(Template(n, false, "")) else None)
            case EmptyDirSource(size) =>
              && ShownAs(v, path) == Volume(PersistentKind, v.name, path)
              && TemplateOf(v) == (if |v.name| > 0 then Some(Template(v.name, true, size)) else None)
  {
  }
}

/**
  Patching the switch ReplicaSets for monitoring (internal/controller/overlay_controller.go and
  internal/lpminterface/lpminterface.go). The pod specs of all ReplicaSets start out as slices of one containers
  array and one volumes array; slices are modelled as an array with a length, so that appending either writes into
  spare capacity or moves to a new array.
*/
module ReplicaSets {
  import opened Wrappers
  import opened Monitoring

  const SWITCH: string := "l2sm-switch"
  const VOLUME: string := "lpm-collector-config"
  const MOUNT_PATH: string := "/etc/lpm/lpm-config.json"
  const MONITOR_FLAG: string := "--monitor_file"

  datatype Mount = Mount(name: string, mountPath: string, subPath: string)

  datatype Container = Container(name: string, args: seq<string>, mounts: seq<Mount>)

  datatype Volume = Volume(name: string, configMap: string)

  const COLLECTOR_MOUNT: Mount := Mount(VOLUME, MOUNT_PATH, "lpm-config.json")

  class PodSpec {
    var containers: array<Container>
    var count: nat
    var volumes: array<Volume>
    var volumeCount: nat

    predicate Valid()
      reads this
    {
      count <= containers.Length && volumeCount <= volumes.Length
    }

    /** Neither slice has spare capacity. */
    predicate Full()
      reads this
    {
      count == containers.Length && volumeCount == volumes.Length
    }

    function Containers(): seq<Container>
      requires Valid()
      reads this, containers
    {
      containers[..count]
    }

    function Volumes(): seq<Volume>
      requires Valid()
      reads this, volumes
    {
      volumes[..volumeCount]
    }

    constructor (containers: array<Container>, volumes: array<Volume>)
      ensures Valid() && this.containers == containers && this.volumes == volumes
      ensures Full()
    {
      this.containers, this.count := containers, containers.Length;
      this.volumes, this.volumeCount := volumes, volumes.Length;
    }

    /** append on a full slice: the elements move to a new array, the old one is left to whoever shares it. */
    method AppendContainer(c: Container)
      requires Valid() && Full()
      modifies `containers, `count
      ensures Valid() && fresh(containers) && Containers() == old(Containers()) + [c]
    {
      var full := containers;
      var grown := new Container[full.Length + 1](i requires 0 <= i <= full.Length reads full =>
          if i < full.Length then full[i] else c);
      assert grown[..] == full[..] + [c];
      containers, count := grown, full.Length + 1;
    }

    method AppendVolume(v: Volume)
      requires Valid() && volumeCount == volumes.Length
      modifies `volumes, `volumeCount
      ensures Valid() && volumeCount == volumes.Length && fresh(volumes) && Volumes() == old(Volumes()) + [v]
    {
      var full := volumes;
      var grown := new Volume[full.Length + 1](i requires 0 <= i <= full.Length reads full =>
          if i < full.Length then full[i] else v);
      assert grown[..] == full[..] + [v];
      volumes, volumeCount := grown, full.Length + 1;
    }
  }

  // ---------- AddLPMConfigMapToSps ----------

  /** The first switch container, or the length of the list. */
  function SwitchIndex(cs: seq<Container>): (i: nat)
    ensures i <= |cs|
    ensures i < |cs| ==> cs[i].name == SWITCH
    ensures forall j | 0 <= j < i :: cs[j].name != SWITCH
  {
    if cs == [] || cs[0].name == SWITCH then 0 else 1 + SwitchIndex(cs[1..])
  }

  predicate Mounted(c: Container) {
    exists m | m in c.mounts :: m.mountPath == MOUNT_PATH
  }

  function WithMonitor(c: Container): Container {
    c.(args := c.args + [MONITOR_FLAG, MOUNT_PATH], mounts := c.mounts + [COLLECTOR_MOUNT])
  }

  function Patched(cs: seq<Container>): (r: seq<Container>)
    ensures |r| == |cs|
  {
    var i := SwitchIndex(cs);
    if i == |cs| || Mounted(cs[i]) then cs else cs[i := WithMonitor(cs[i])]
  }

  lemma SwitchAt(cs: seq<Container>, i: nat)
    requires i < |cs| && cs[i].name == SWITCH && forall j | 0 <= j < i :: cs[j].name != SWITCH
    ensures SwitchIndex(cs) == i
  {
  }

  /** Patching twice is patching once: this is what makes the shared array harmless. */
  lemma PatchedTwice(cs: seq<Container>)
    ensures Patched(Patched(cs)) == Patched(cs)
  {
    var i := SwitchIndex(cs);
    if i < |cs| && !Mounted(cs[i]) {
      var r := Patched(cs);
      SwitchAt(r, i);
      assert COLLECTOR_MOUNT in r[i].mounts;
    }
  }

  method AddLPMConfigMapToSps(ps: PodSpec)
    requires ps.Valid()
    modifies ps.containers
    ensures ps.Valid() && ps.Containers() == Patched(old(ps.Containers()))
    ensures ps.containers[ps.count..] == old(ps.containers[ps.count..])
  {
    ghost var before := ps.Containers();
    for i := 0 to ps.count
      invariant ps.containers[..] == old(ps.containers[..])
      invariant forall j | 0 <= j < i :: ps.containers[j].name != SWITCH
    {
      if ps.containers[i].name == SWITCH {
        SwitchAt(before, i);
        var c := ps.containers[i];
        for k := 0 to |c.mounts|
          invariant forall m | 0 <= m < k :: c.mounts[m].mountPath != MOUNT_PATH
        {
          if c.mounts[k].mountPath == MOUNT_PATH {
            return;
          }
        }
        ps.containers[i] := c.(args := c.args + [MONITOR_FLAG, MOUNT_PATH], mounts := c.mounts + [COLLECTOR_MOUNT]);
        assert ps.Containers() == before[i := WithMonitor(before[i])];
        return;
      }
    }
    assert forall j | 0 <= j < |before| :: before[j].name != SWITCH;
  }

  // ---------- AttachCollectorConfigToReplicaSet ----------

  /** The first collector volume, or the length of the list. */
  function VolumeIndex(vs: seq<Volume>): (i: nat)
    ensures i <= |vs|
    ensures i < |vs| ==> vs[i].name == VOLUME
    ensures forall j | 0 <= j < i :: vs[j].name != VOLUME
  {
    if vs == [] || vs[0].name == VOLUME then 0 else 1 + VolumeIndex(vs[1..])
  }

  /** A list of volumes with one added, or put in the place of the first collector volume. */
  function Upserted(vs: seq<Volume>, v: Volume): seq<Volume> {
    var i := VolumeIndex(vs);
    if i == |vs| then vs + [v] else vs[i := v]
  }

  /** The overwritten volume sits in the array that other pod specs may share; an added one goes to a new array. */
  method AttachCollectorConfigToReplicaSet(ps: PodSpec, rsName: string) returns (ok: bool)
    requires ps.Valid() && ps.volumeCount == ps.volumes.Length
    modifies ps`volumes, ps`volumeCount, ps.volumes
    ensures ok <==> rsName != ""
    ensures ps.Valid() && ps.volumeCount == ps.volumes.Length
    ensures ps.Volumes() == if ok then Upserted(old(ps.Volumes()), Volume(VOLUME, GenerateConfigmapName(rsName)))
                            else old(ps.Volumes())
    ensures if ok && VolumeIndex(old(ps.Volumes())) == old(ps.volumeCount)
            then fresh(ps.volumes) && old(ps.volumes)[..] == old(ps.volumes[..])
            else ps.volumes == old(ps.volumes)
  {
    if rsName == "" {
      return false;
    }
    var vol := Volume(VOLUME, GenerateConfigmapName(rsName));
    ghost var before := ps.Volumes();
    for i := 0 to ps.volumeCount
      invariant ps.volumes[..] == old(ps.volumes[..])
      invariant forall j | 0 <= j < i :: ps.volumes[j].name != VOLUME
    {
      if ps.volumes[i].name == VOLUME {
        VolumeAt(before, i);
        ps.volumes[i] := vol;
        assert ps.Volumes() == before[i := vol];
        return true;
      }
    }
    assert forall j | 0 <= j < |before| :: before[j].name != VOLUME;
    ps.AppendVolume(vol);
    return true;
  }

  lemma VolumeAt(vs: seq<Volume>, i: nat)
    requires i < |vs| && vs[i].name == VOLUME && forall j | 0 <= j < i :: vs[j].name != VOLUME
    ensures VolumeIndex(vs) == i
  {
  }

  // ---------- building and patching all of them ----------

  const CONFIG_MOUNT: Mount := Mount("config", "/etc/l2sm/", "")

  function WithConfig(c: Container): Container {
    c.(mounts := c.mounts + [CONFIG_MOUNT])
  }

  /** The containers every ReplicaSet of an overlay starts with. */
  function Prepared(template: seq<Container>): seq<Container> {
    seq(|template|, i requires 0 <= i < |template| => WithConfig(template[i]))
  }

  predicate Distinct<T(==)>(xs: seq<T>) {
    forall i, j | 0 <= i < j < |xs| :: xs[i] != xs[j]
  }

  lemma DistinctNone<T>(xs: seq<T>)
    requires xs == []
    ensures Distinct(xs)
  {
  }

  lemma DistinctAt<T>(xs: seq<T>, i: nat)
    requires Distinct(xs) && i < |xs|
    ensures forall k | 0 <= k < |xs| && k != i :: xs[k] != xs[i]
  {
  }

  lemma DistinctPairs<T>(xs: seq<T>)
    requires Distinct(xs)
    ensures forall i, j | 0 <= i < j < |xs| :: xs[i] != xs[j]
  {
  }

  lemma DistinctGrows<T>(xs: seq<T>, x: T)
    requires Distinct(xs) && x !in xs
    ensures Distinct(xs + [x])
  {
  }

  /** The pod specs from `from` on still slice the two shared arrays. */
  ghost predicate Shared(specs: seq<PodSpec>, containers: array<Container>, volumes: array<Volume>, from: nat)
    reads specs
  {
    forall i | from <= i < |specs| ::
      specs[i].Full() && specs[i].containers == containers && specs[i].volumes == volumes
  }

  method BuildNodeResources(template: seq<Container>, nodes: seq<string>, configMapName: string)
    returns (specs: seq<PodSpec>, containers: array<Container>, volumes: array<Volume>)
    ensures fresh(containers) && fresh(volumes) && forall s | s in specs :: fresh(s)
    ensures |specs| == |nodes| && Distinct(specs) && Shared(specs, containers, volumes, 0)
    ensures containers[..] == Prepared(template) && volumes[..] == [Volume("config", configMapName)]
  {
    containers := PrepareContainers(template);
    volumes := new Volume[1](_ => Volume("config", configMapName));
    specs := [];
    for n := 0 to |nodes|
      invariant |specs| == n && Distinct(specs) && Shared(specs, containers, volumes, 0)
      invariant forall s | s in specs :: fresh(s)
      invariant containers[..] == Prepared(template) && volumes[..] == [Volume("config", configMapName)]
    {
      var spec := new PodSpec(containers, volumes);
      specs := specs + [spec];
    }
  }

  method PrepareContainers(template: seq<Container>) returns (containers: array<Container>)
    ensures fresh(containers) && containers[..] == Prepared(template)
  {
    containers := new Container[|template|](i requires 0 <= i < |template| => template[i]);
    for i := 0 to |template|
      invariant forall j | 0 <= j < |template| ::
                  containers[j] == if j < i then WithConfig(template[j]) else template[j]
    {
      var c := template[i];
      containers[i] := c.(mounts := c.mounts + [CONFIG_MOUNT]);
    }
  }

  /** A pod spec with these containers and these volumes. */
  ghost predicate Reads(ps: PodSpec, cs: seq<Container>, vs: seq<Volume>)
    reads ps, ps.containers, ps.volumes
  {
    ps.Valid() && ps.Containers() == cs && ps.Volumes() == vs
  }

  /** One round of the patch loop: the shared arrays are patched but kept apart from the result. */
  method PatchOne(rs: PodSpec, collector: Container, rsName: string)
    requires rs.Full() && rsName != "" && VolumeIndex(rs.volumes[..]) == rs.volumes.Length
    modifies rs, rs.containers, rs.volumes
    ensures fresh(rs.containers) && fresh(rs.volumes)
    ensures Reads(rs, Patched(old(rs.containers[..])) + [collector],
                  old(rs.volumes[..]) + [Volume(VOLUME, GenerateConfigmapName(rsName))])
    ensures old(rs.containers)[..] == Patched(old(rs.containers[..])) && old(rs.volumes)[..] == old(rs.volumes[..])
  {
    hide Patched, VolumeIndex, GenerateConfigmapName;
    assert rs.Containers() == rs.containers[..] && rs.Volumes() == rs.volumes[..];
    AddLPMConfigMapToSps(rs);
    assert rs.Containers() == rs.containers[..];
    rs.AppendContainer(collector);
    var ok := AttachCollectorConfigToReplicaSet(rs, rsName);
  }

  /**
    The patch loop. Although all pod specs start with the same containers array, each ends with an array of its
    own: the template's containers patched once, followed by one collector, and its own volume after the common one.
   */
  method PatchAll(specs: seq<PodSpec>, containers: array<Container>, volumes: array<Volume>, collector: Container,
                  rsNames: seq<string>)
    requires Distinct(specs) && Shared(specs, containers, volumes, 0) && |rsNames| == |specs|
    requires VolumeIndex(volumes[..]) == volumes.Length && forall i | 0 <= i < |rsNames| :: rsNames[i] != ""
    modifies specs, containers, volumes
    ensures forall i | 0 <= i < |specs| ::
              Reads(specs[i], Patched(old(containers[..])) + [collector],
                    old(volumes[..]) + [Volume(VOLUME, GenerateConfigmapName(rsNames[i]))])
    ensures forall i, j | 0 <= i < j < |specs| :: specs[i].containers != specs[j].containers
  {
    PatchedTwice(containers[..]);
    hide Patched, VolumeIndex, Reads, GenerateConfigmapName, PodSpec.Full, PodSpec.Valid, PodSpec.Containers,
         PodSpec.Volumes, Distinct;
    ghost var cs, vs := Patched(old(containers[..])) + [collector], old(volumes[..]);
    ghost var own: seq<array<Container>> := [];
    DistinctNone(own);
    for i := 0 to |specs|
      invariant Shared(specs, containers, volumes, i)
      invariant volumes[..] == vs
      invariant containers[..] == if i == 0 then old(containers[..]) else Patched(old(containers[..]))
      invariant |own| == i && Distinct(own)
      invariant forall k | 0 <= k < i ::
                  && own[k] == specs[k].containers && fresh(specs[k].containers) && fresh(specs[k].volumes)
                  && Reads(specs[k], cs, vs + [Volume(VOLUME, GenerateConfigmapName(rsNames[k]))])
    {
      DistinctAt(specs, i);
      PatchOne(specs[i], collector, rsNames[i]);
      DistinctGrows(own, specs[i].containers);
      own := own + [specs[i].containers];
    }
    DistinctPairs(own);
  }

  /** createExternalResources, as far as monitoring goes. */
  method CreateMonitored(template: seq<Container>, nodes: seq<string>, configMapName: string, opts: Options,
                         collector: Container, hash: string -> string)
    returns (r: Result<seq<ConfigMap>>, specs: seq<PodSpec>)
    ensures r.Ok? <==> Buildable(nodes, opts)
    ensures r.Ok? ==>
              && |specs| == |nodes| == |r.value|
              && (forall i | 0 <= i < |specs| ::
                    && r.value[i].config.nodeName == nodes[i]
                    && Reads(specs[i], Patched(Prepared(template)) + [collector],
                             [Volume("config", configMapName), Volume(VOLUME, r.value[i].name)]))
              && (forall i, j | 0 <= i < j < |specs| ::
                    specs[i] != specs[j] && specs[i].containers != specs[j].containers)
  {
    hide *;
    r := BuildMonitoringCollectorResources(nodes, opts, hash);
    var containers, volumes;
    specs, containers, volumes := BuildNodeResources(template, nodes, configMapName);
    if r.Err? {
      return;
    }
    var rsNames := NamesOf(nodes, hash);
    OnlyConfig(configMapName);
    PatchAll(specs, containers, volumes, collector, rsNames);
    ConfigNames(r.value, nodes, opts, hash);
    forall i | 0 <= i < |nodes|
      ensures [Volume("config", configMapName)] + [Volume(VOLUME, GenerateConfigmapName(rsNames[i]))]
           == [Volume("config", configMapName), Volume(VOLUME, r.value[i].name)]
    {
    }
  }

  method NamesOf(nodes: seq<string>, hash: string -> string) returns (rsNames: seq<string>)
    ensures |rsNames| == |nodes|
    ensures forall i | 0 <= i < |nodes| ::
              rsNames[i] != "" && GenerateConfigmapName(rsNames[i]) == ConfigMapOf(hash, nodes[i])
  {
    rsNames := [];
    for i := 0 to |nodes|
      invariant |rsNames| == i && forall j | 0 <= j < i :: rsNames[j] == ReplicaSetName(hash(nodes[j]))
    {
      rsNames := rsNames + [ReplicaSetName(hash(nodes[i]))];
    }
  }

  lemma OnlyConfig(configMapName: string)
    ensures VolumeIndex([Volume("config", configMapName)]) == 1
  {
  }

  // ---------- what the patch amounts to ----------

  function CollectorMounts(ms: seq<Mount>): nat {
    if ms == [] then 0
    else CollectorMounts(ms[..|ms| - 1]) + if ms[|ms| - 1].mountPath == MOUNT_PATH then 1 else 0
  }

  /** How many containers have a name. */
  function Named(cs: seq<Container>, name: string): nat {
    if cs == [] then 0 else Named(cs[..|cs| - 1], name) + if cs[|cs| - 1].name == name then 1 else 0
  }

  lemma {:induction false} CollectorMountsZero(ms: seq<Mount>)
    ensures CollectorMounts(ms) == 0 <==> forall m | m in ms :: m.mountPath != MOUNT_PATH
  {
    if ms != [] {
      CollectorMountsZero(ms[..|ms| - 1]);
      assert ms == ms[..|ms| - 1] + [ms[|ms| - 1]];
    }
  }

  lemma {:induction false} NamedSame(cs: seq<Container>, ds: seq<Container>, name: string)
    requires |cs| == |ds| && forall i | 0 <= i < |cs| :: cs[i].name == ds[i].name
    ensures Named(cs, name) == Named(ds, name)
  {
    if cs != [] {
      NamedSame(cs[..|cs| - 1], ds[..|ds| - 1], name);
    }
  }

  lemma MountAdded(ms: seq<Mount>)
    ensures CollectorMounts(ms + [COLLECTOR_MOUNT]) == CollectorMounts(ms) + 1
  {
    var r := ms + [COLLECTOR_MOUNT];
    assert r[..|r| - 1] == ms;
  }

  lemma CollectorMountIs()
    ensures COLLECTOR_MOUNT == Mount(VOLUME, MOUNT_PATH, "lpm-config.json")
  {
  }

  lemma FlagAdded(args: seq<string>)
    ensures multiset(args + [MONITOR_FLAG, MOUNT_PATH])[MONITOR_FLAG] == multiset(args)[MONITOR_FLAG] + 1
  {
    assert multiset(args + [MONITOR_FLAG, MOUNT_PATH]) == multiset(args) + multiset{MONITOR_FLAG, MOUNT_PATH};
    assert MONITOR_FLAG[0] != MOUNT_PATH[0];
  }

  /**
    The patched switch container has exactly one collector mount exactly if the template's had at most one, and it
    carries the monitor flag once more than the template's exactly if that had none.
   */
  lemma {:induction false} PatchedSwitch(cs: seq<Container>)
    requires SwitchIndex(cs) < |cs|
    ensures var i := SwitchIndex(cs);
            var was, now := cs[i], Patched(cs)[i];
            && now.name == SWITCH
            && (CollectorMounts(now.mounts) == 1 <==> CollectorMounts(was.mounts) <= 1)
            && multiset(now.args)[MONITOR_FLAG]
                 == multiset(was.args)[MONITOR_FLAG] + (if CollectorMounts(was.mounts) == 0 then 1 else 0)
            && (CollectorMounts(was.mounts) == 0 ==>
                  && now.args == was.args + [MONITOR_FLAG, MOUNT_PATH]
                  && now.mounts == was.mounts + [Mount(VOLUME, MOUNT_PATH, "lpm-config.json")])
            && (CollectorMounts(was.mounts) > 0 ==> now == was)
  {
    hide CollectorMounts, SwitchIndex, SWITCH, MONITOR_FLAG, MOUNT_PATH, COLLECTOR_MOUNT;
    var i := SwitchIndex(cs);
    CollectorMountsZero(cs[i].mounts);
    MountAdded(cs[i].mounts);
    CollectorMountIs();
    FlagAdded(cs[i].args);
  }

  lemma PatchedNames(cs: seq<Container>)
    ensures forall k | 0 <= k < |cs| :: Patched(cs)[k].name == cs[k].name
    ensures forall k | 0 <= k < |cs| && k != SwitchIndex(cs) :: Patched(cs)[k] == cs[k]
  {
    hide SwitchIndex, Mounted, MONITOR_FLAG, MOUNT_PATH, COLLECTOR_MOUNT;
  }

  /** Every other container is the template's, and there is one collector more than in the template. */
  lemma {:induction false} PatchedOthers(cs: seq<Container>, collector: Container)
    ensures forall k | 0 <= k < |cs| && k != SwitchIndex(cs) :: Patched(cs)[k] == cs[k]
    ensures Named(Patched(cs) + [collector], collector.name) == Named(cs, collector.name) + 1
  {
    PatchedNames(cs);
    hide Patched, SwitchIndex;
    NamedSame(Patched(cs), cs, collector.name);
    var r := Patched(cs) + [collector];
    assert r[..|r| - 1] == Patched(cs);
  }

  lemma PreparedSwitch(template: seq<Container>)
    ensures SwitchIndex(Prepared(template)) == SwitchIndex(template)
  {
    var i := SwitchIndex(template);
    if i < |template| {
      SwitchAt(Prepared(template), i);
    } else {
      var j := SwitchIndex(Prepared(template));
      assert j < |template| ==> Prepared(template)[j].name == template[j].name;
    }
  }

  lemma ConfigMounted(ms: seq<Mount>)
    ensures CollectorMounts(ms + [CONFIG_MOUNT]) == CollectorMounts(ms)
  {
    var r := ms + [CONFIG_MOUNT];
    assert r[..|r| - 1] == ms && CONFIG_MOUNT.mountPath[6] != MOUNT_PATH[6];
  }

  /** What a ReplicaSet ends up with, in terms of the overlay's switch template. */
  lemma {:induction false} MonitoredTemplate(template: seq<Container>, collector: Container)
    requires SwitchIndex(template) < |template|
    ensures var i, cs := SwitchIndex(template), Patched(Prepared(template)) + [collector];
            && cs[i].name == SWITCH
            && (CollectorMounts(cs[i].mounts) == 1 <==> CollectorMounts(template[i].mounts) <= 1)
            && (CollectorMounts(template[i].mounts) == 0 ==>
                  && cs[i].args == template[i].args + [MONITOR_FLAG, MOUNT_PATH]
                  && cs[i].mounts == template[i].mounts + [CONFIG_MOUNT, Mount(VOLUME, MOUNT_PATH, "lpm-config.json")])
            && Named(cs, collector.name) == Named(template, collector.name) + 1
            && (CollectorMounts(template[i].mounts) > 0 ==>
                  cs[i] == template[i].(mounts := template[i].mounts + [Mount("config", "/etc/l2sm/", "")]))
            && forall k | 0 <= k < |template| && k != i ::
                 cs[k] == template[k].(mounts := template[k].mounts + [Mount("config", "/etc/l2sm/", "")])
  {
    hide Patched, SwitchIndex, Named, SWITCH, CollectorMounts, MONITOR_FLAG, MOUNT_PATH, COLLECTOR_MOUNT, CONFIG_MOUNT;
    var i, prepared := SwitchIndex(template), Prepared(template);
    PreparedSwitch(template);
    PatchedSwitch(prepared);
    PatchedOthers(prepared, collector);
    NamedSame(prepared, template, collector.name);
    ConfigMounted(template[i].mounts);
    ConfigMountIs();
  }

  lemma ConfigMountIs()
    ensures CONFIG_MOUNT == Mount("config", "/etc/l2sm/", "")
  {
  }

  /** Every mount that is added to a container is of one of the two volumes that every patched pod spec has. */
  lemma MountsHaveVolumes(template: seq<Container>, k: nat, m: Mount, configMapName: string, rsName: string)
    requires k < |template| && m in Patched(Prepared(template))[k].mounts && m !in template[k].mounts
    ensures exists v | v in [Volume("config", configMapName), Volume(VOLUME, GenerateConfigmapName(rsName))] ::
              v.name == m.name
  {
    hide SwitchIndex, Mounted, MONITOR_FLAG, MOUNT_PATH;
    var volumes := [Volume("config", configMapName), Volume(VOLUME, GenerateConfigmapName(rsName))];
    assert m == CONFIG_MOUNT || m == COLLECTOR_MOUNT;
    assert volumes[0] in volumes && volumes[1] in volumes;
  }

  /** The collector's volume is put in the place of the first one of its name, or at the end; the others stay. */
  lemma UpsertedExactly(vs: seq<Volume>, v: Volume)
    requires v.name == VOLUME
    ensures var r := Upserted(vs, v);
            && v in r
            && ((forall w | w in vs :: w.name != VOLUME) ==> r == vs + [v])
            && ((exists w | w in vs :: w.name == VOLUME) ==>
                  && |r| == |vs|
                  && (forall i | 0 <= i < |vs| && vs[i].name != VOLUME :: r[i] == vs[i])
                  && exists i :: 0 <= i < |vs| && vs[i].name == VOLUME && r == vs[i := v]
                                 && forall j | 0 <= j < i :: vs[j].name != VOLUME)
  {
    hide VOLUME;
    var i := VolumeIndex(vs);
    if i < |vs| {
      assert vs[i] in vs && Upserted(vs, v)[i] == v;
    } else {
      assert (vs + [v])[|vs|] == v;
    }
    hide VolumeIndex;
  }
}

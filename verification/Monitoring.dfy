/**
  The monitoring mesh (internal/lpminterface/lpminterface.go): one collector configuration per node, each listing
  every other node. The JSON text of a configuration is represented by the configuration itself.
*/
module Monitoring {
  import opened Wrappers
  import opened Text
  import opened Ipv4
  import opened IpAllocator

  const DEFAULT_CIDR: string := "10.0.0.0/24"

  datatype Neighbour = Neighbour(name: string, ip: string, rtt: int, throughput: int, jitter: int)

  datatype NodeConfig = NodeConfig(nodeName: string, ipAddress: string, neighbours: seq<Neighbour>)

  datatype ConfigMap = ConfigMap(name: string, config: NodeConfig)

  datatype Options = Options(networkCIDR: Option<string>, ipStart: Option<int>, rtt: Option<int>,
                             throughput: Option<int>, jitter: Option<int>, spreadFactorParses: bool)
  {
    function Cidr(): string {
      if networkCIDR.None? || networkCIDR.value == "" then DEFAULT_CIDR else networkCIDR.value
    }

    function Start(): int {
      if ipStart.None? then 2 else ipStart.value
    }

    function Metric(name: string, ip: string): Neighbour {
      Neighbour(name, ip, if rtt.None? then 10 else rtt.value, if throughput.None? then 20 else throughput.value,
                if jitter.None? then 5 else jitter.value)
    }
  }

  /** GenerateReplicaSetName of a switch pod's name; `hash` stands for the hex digits of its FNV hash. */
  function ReplicaSetName(hash: string): string {
    "sps-" + hash
  }

  function GenerateConfigmapName(rsName: string): string {
    rsName + "-config"
  }

  function ConfigMapOf(hash: string -> string, node: string): string {
    GenerateConfigmapName(ReplicaSetName(hash(node)))
  }

  /** The addresses the allocator hands out for n nodes. */
  function Addresses(cidr: string, start: int, n: nat): seq<string>
    requires Allocatable(cidr, start, n)
  {
    seq(n, i requires 0 <= i < n => Dotted(HostAddress(ParseCidr(cidr).value.ip, start + i)))
  }

  /** The address of a node: the one allocated for its last occurrence in the topology. */
  function AddressOf(nodes: seq<string>, ips: seq<string>, node: string): string
    requires |nodes| == |ips| && node in nodes
  {
    if nodes[|nodes| - 1] == node then ips[|nodes| - 1]
    else AddressOf(nodes[..|nodes| - 1], ips[..|nodes| - 1], node)
  }

  /** The entries for the nodes in `among` other than `node`, in their order. */
  function Neighbours(nodes: seq<string>, ips: seq<string>, opts: Options, node: string,
                      among: seq<string>): seq<Neighbour>
    requires |nodes| == |ips| && forall x | x in among :: x in nodes
  {
    if among == [] then []
    else
      var last := among[|among| - 1];
      var front := Neighbours(nodes, ips, opts, node, among[..|among| - 1]);
      assert last in among;
      if last == node then front else front + [opts.Metric(last, AddressOf(nodes, ips, last))]
  }

  function ConfigOf(nodes: seq<string>, ips: seq<string>, mask: string, opts: Options, node: string): NodeConfig
    requires |nodes| == |ips| && node in nodes
  {
    NodeConfig(node, AddressOf(nodes, ips, node) + mask, Neighbours(nodes, ips, opts, node, nodes))
  }

  predicate Buildable(nodes: seq<string>, opts: Options) {
    nodes != [] && Allocatable(opts.Cidr(), opts.Start(), |nodes|) && opts.spreadFactorParses
  }

  /** One ConfigMap per node, in topology order. */
  predicate ConfigsFor(configs: seq<ConfigMap>, nodes: seq<string>, opts: Options, hash: string -> string)
    requires Buildable(nodes, opts)
  {
    var ips := Addresses(opts.Cidr(), opts.Start(), |nodes|);
    var mask := MaskOf(opts.Cidr());
    && |configs| == |nodes|
    && forall i | 0 <= i < |nodes| ::
         configs[i] == ConfigMap(ConfigMapOf(hash, nodes[i]), ConfigOf(nodes, ips, mask, opts, nodes[i]))
  }

  lemma ConfigNames(configs: seq<ConfigMap>, nodes: seq<string>, opts: Options, hash: string -> string)
    requires Buildable(nodes, opts) && ConfigsFor(configs, nodes, opts, hash)
    ensures |configs| == |nodes|
    ensures forall i | 0 <= i < |nodes| ::
              configs[i].name == ConfigMapOf(hash, nodes[i]) && configs[i].config.nodeName == nodes[i]
  {
    hide Addresses, MaskOf, Neighbours, AddressOf;
  }

  /**
    Distinct nodes get ConfigMaps of distinct names exactly if the hashes in the names of their switch pods differ:
    a collision makes two ReplicaSets name one ConfigMap.
   */
  lemma ConfigMapsDistinctExactly(configs: seq<ConfigMap>, nodes: seq<string>, opts: Options, hash: string -> string)
    requires Buildable(nodes, opts) && ConfigsFor(configs, nodes, opts, hash)
    ensures |configs| == |nodes|
    ensures forall i | 0 <= i < |nodes| :: configs[i].name == "sps-" + hash(nodes[i]) + "-config"
    ensures (forall i, j | 0 <= i < j < |nodes| :: configs[i].name != configs[j].name) <==>
            (forall i, j | 0 <= i < j < |nodes| :: hash(nodes[i]) != hash(nodes[j]))
  {
    ConfigNames(configs, nodes, opts, hash);
    hide Buildable, ConfigsFor;
    forall i, j | 0 <= i < j < |nodes|
      ensures configs[i].name == configs[j].name <==> hash(nodes[i]) == hash(nodes[j])
    {
      SameName(hash, nodes[i], nodes[j]);
    }
  }

  lemma SameName(hash: string -> string, a: string, b: string)
    ensures ConfigMapOf(hash, a) == ConfigMapOf(hash, b) <==> hash(a) == hash(b)
  {
    SameEnding("sps-" + hash(a), "sps-" + hash(b), "-config");
    assert ("sps-" + hash(a))[4..] == hash(a) && ("sps-" + hash(b))[4..] == hash(b);
  }

  /** `hash` gives a node's part of the name of its ReplicaSet. */
  method BuildMonitoringCollectorResources(nodes: seq<string>, opts: Options, hash: string -> string)
    returns (r: Result<seq<ConfigMap>>)
    ensures r.Ok? <==> Buildable(nodes, opts)
    ensures r.Ok? ==> ConfigsFor(r.value, nodes, opts, hash)
  {
    hide ParseCidr, Dotted, HostAddress, PrefixText, AddressOf, Neighbours, ConfigMapOf;
    if nodes == [] {
      return Err("overlay topology has no nodes");
    }
    var allocation := AllocateIPv4s(opts.Cidr(), opts.Start(), |nodes|);
    if allocation.Err? {
      return Err("monitoring CIDR allocation failed");
    }
    var granted, mask := allocation.value.0, allocation.value.1;
    assert granted == Addresses(opts.Cidr(), opts.Start(), |nodes|);
    var nodeIP := MapAddresses(nodes, granted);
    if !opts.spreadFactorParses {
      return Err("spread factor not inputted as float64");
    }
    var configMaps: seq<ConfigMap> := [];
    for i := 0 to |nodes|
      invariant |configMaps| == i
      invariant forall j | 0 <= j < i ::
                  configMaps[j] == ConfigMap(ConfigMapOf(hash, nodes[j]),
                                             ConfigOf(nodes, granted, mask, opts, nodes[j]))
    {
      var neigh := ListNeighbours(nodes, granted, nodeIP, opts, nodes[i]);
      var cfg := NodeConfig(nodes[i], nodeIP[nodes[i]] + mask, neigh);
      configMaps := configMaps + [ConfigMap(ConfigMapOf(hash, nodes[i]), cfg)];
    }
    return Ok(configMaps);
  }

  /** node -> address, by position; a repeated node keeps its last address. */
  method MapAddresses(nodes: seq<string>, granted: seq<string>) returns (nodeIP: map<string, string>)
    requires |nodes| == |granted|
    ensures forall x :: x in nodeIP <==> x in nodes
    ensures forall x | x in nodes :: nodeIP[x] == AddressOf(nodes, granted, x)
  {
    nodeIP := map[];
    for i := 0 to |nodes|
      invariant forall x :: x in nodeIP <==> x in nodes[..i]
      invariant forall x | x in nodeIP :: nodeIP[x] == AddressOf(nodes[..i], granted[..i], x)
    {
      assert nodes[..i + 1][..i] == nodes[..i] && granted[..i + 1][..i] == granted[..i];
      nodeIP := nodeIP[nodes[i] := granted[i]];
    }
    assert nodes[..|nodes|] == nodes && granted[..|nodes|] == granted;
  }

  /** The inner loop: every other node, skipping those of the same name. */
  method ListNeighbours(nodes: seq<string>, ghost ips: seq<string>, nodeIP: map<string, string>, opts: Options,
                        node: string)
    returns (neigh: seq<Neighbour>)
    requires |nodes| == |ips|
    requires forall x | x in nodes :: x in nodeIP && nodeIP[x] == AddressOf(nodes, ips, x)
    ensures neigh == Neighbours(nodes, ips, opts, node, nodes)
  {
    neigh := [];
    for i := 0 to |nodes|
      invariant neigh == Neighbours(nodes, ips, opts, node, nodes[..i])
    {
      assert nodes[..i + 1][..i] == nodes[..i];
      if nodes[i] != node {
        neigh := neigh + [opts.Metric(nodes[i], nodeIP[nodes[i]])];
      }
    }
    assert nodes[..|nodes|] == nodes;
  }

  function MaskOf(cidr: string): string {
    var c := ParseCidr(cidr);
    if c.Some? then PrefixText(c.value.prefix) else ""
  }

  // ---------- consistency of the mesh ----------

  predicate DistinctNodes(nodes: seq<string>) {
    forall i, j | 0 <= i < j < |nodes| :: nodes[i] != nodes[j]
  }

  /** A node that is listed several times has the address allocated for its last place. */
  lemma {:induction false} AddressIsLast(nodes: seq<string>, ips: seq<string>, j: nat)
    requires |nodes| == |ips| && j < |nodes| && forall k | j < k < |nodes| :: nodes[k] != nodes[j]
    ensures AddressOf(nodes, ips, nodes[j]) == ips[j]
  {
    if j < |nodes| - 1 {
      AddressIsLast(nodes[..|nodes| - 1], ips[..|nodes| - 1], j);
    }
  }

  /** Entries come in the order of the nodes they are for, repeated ones included, and the node itself has none. */
  lemma {:induction false} NeighboursInOrder(nodes: seq<string>, ips: seq<string>, opts: Options, node: string,
                                             a: seq<string>, b: seq<string>)
    requires |nodes| == |ips| && forall x | x in a + b :: x in nodes
    ensures forall x | x in a || x in b :: x in nodes
    ensures Neighbours(nodes, ips, opts, node, a + b)
         == Neighbours(nodes, ips, opts, node, a) + Neighbours(nodes, ips, opts, node, b)
    ensures |b| == 1 ==>
              Neighbours(nodes, ips, opts, node, b)
              == if b[0] == node then [] else [opts.Metric(b[0], AddressOf(nodes, ips, b[0]))]
  {
    assert forall x | x in a || x in b :: x in a + b;
    hide Options.Metric, AddressOf;
    if b == [] {
      assert a + b == a;
    } else {
      var front := b[..|b| - 1];
      assert forall x | x in a + front :: x in a + b;
      NeighboursInOrder(nodes, ips, opts, node, a, front);
      assert (a + b)[..|a + b| - 1] == a + front;
    }
  }

  /** The position of node j in the list of node i, which leaves out i itself. */
  function PlaceIn(i: nat, j: nat): nat {
    if j <= i then j else j - 1
  }

  lemma {:induction false} NeighbourAt(nodes: seq<string>, ips: seq<string>, opts: Options, i: nat, n: nat)
    requires |nodes| == |ips| && i < |nodes| && n <= |nodes| && DistinctNodes(nodes)
    ensures var l := Neighbours(nodes, ips, opts, nodes[i], nodes[..n]);
            && |l| == (if i < n then n - 1 else n)
            && forall j: nat | j < n && j != i :: l[PlaceIn(i, j)] == opts.Metric(nodes[j], ips[j])
  {
    hide Options.Metric, AddressOf;
    if n > 0 {
      NeighbourAt(nodes, ips, opts, i, n - 1);
      assert nodes[..n][..n - 1] == nodes[..n - 1];
      AddressIsLast(nodes, ips, n - 1);
      assert n - 1 != i ==> nodes[n - 1] != nodes[i];
    }
  }

  /**
    For distinct nodes, the configuration of node i lists exactly the other nodes, in topology order and never
    itself, and lists for node j the very address that j's own configuration carries, with the given intervals, or
    10, 20 and 5 seconds for round-trip time, throughput and jitter.
   */
  lemma MeshConsistent(nodes: seq<string>, ips: seq<string>, mask: string, opts: Options, i: nat)
    requires |nodes| == |ips| && i < |nodes| && DistinctNodes(nodes)
    ensures var c := ConfigOf(nodes, ips, mask, opts, nodes[i]);
            && c.nodeName == nodes[i] && c.ipAddress == ips[i] + mask
            && |c.neighbours| == |nodes| - 1
            && (forall k | 0 <= k < |c.neighbours| ::
                  var j := if k < i then k else k + 1;
                  && c.neighbours[k].name == nodes[j] != nodes[i]
                  && c.neighbours[k].ip == ips[j]
                  && c.neighbours[k].ip + mask == ConfigOf(nodes, ips, mask, opts, nodes[j]).ipAddress
                  && c.neighbours[k].rtt == (if opts.rtt.Some? then opts.rtt.value else 10)
                  && c.neighbours[k].throughput == (if opts.throughput.Some? then opts.throughput.value else 20)
                  && c.neighbours[k].jitter == (if opts.jitter.Some? then opts.jitter.value else 5))
  {
    ConfigFields(nodes, ips, mask, opts, i);
    hide ConfigOf, Options.Metric;
    var c := ConfigOf(nodes, ips, mask, opts, nodes[i]);
    forall k | 0 <= k < |c.neighbours|
      ensures var j := if k < i then k else k + 1;
              && c.neighbours[k] == opts.Metric(nodes[j], ips[j])
              && nodes[j] != nodes[i]
              && ips[j] + mask == ConfigOf(nodes, ips, mask, opts, nodes[j]).ipAddress
    {
      var j := if k < i then k else k + 1;
      assert c.neighbours[PlaceIn(i, j)] == opts.Metric(nodes[j], ips[j]);
      ConfigFields(nodes, ips, mask, opts, j);
    }
    forall k | 0 <= k < |c.neighbours|
      ensures var j, m := if k < i then k else k + 1, c.neighbours[k];
              && m.name == nodes[j] && m.ip == ips[j]
              && m.rtt == (if opts.rtt.Some? then opts.rtt.value else 10)
              && m.throughput == (if opts.throughput.Some? then opts.throughput.value else 20)
              && m.jitter == (if opts.jitter.Some? then opts.jitter.value else 5)
    {
      var j := if k < i then k else k + 1;
      MetricFields(opts, nodes[j], ips[j]);
    }
  }

  lemma MetricFields(opts: Options, name: string, ip: string)
    ensures opts.Metric(name, ip) == Neighbour(name, ip, if opts.rtt.Some? then opts.rtt.value else 10,
                                               if opts.throughput.Some? then opts.throughput.value else 20,
                                               if opts.jitter.Some? then opts.jitter.value else 5)
  {
  }

  lemma ConfigFields(nodes: seq<string>, ips: seq<string>, mask: string, opts: Options, i: nat)
    requires |nodes| == |ips| && i < |nodes| && DistinctNodes(nodes)
    ensures var c := ConfigOf(nodes, ips, mask, opts, nodes[i]);
            && c.nodeName == nodes[i] && c.ipAddress == ips[i] + mask
            && |c.neighbours| == |nodes| - 1
            && forall j: nat | j < |nodes| && j != i :: c.neighbours[PlaceIn(i, j)] == opts.Metric(nodes[j], ips[j])
  {
    hide Neighbours, Options.Metric, AddressOf;
    NeighbourAt(nodes, ips, opts, i, |nodes|);
    assert nodes[..|nodes|] == nodes;
    AddressIsLast(nodes, ips, i);
  }

  function Entries(configs: seq<ConfigMap>): nat {
    if configs == [] then 0 else Entries(configs[..|configs| - 1]) + |configs[|configs| - 1].config.neighbours|
  }

  lemma {:induction false} EntriesOf(configs: seq<ConfigMap>, each: nat)
    requires forall k | 0 <= k < |configs| :: |configs[k].config.neighbours| == each
    ensures Entries(configs) == |configs| * each
  {
    if configs != [] {
      EntriesOf(configs[..|configs| - 1], each);
    }
  }

  /** The whole mesh: pairwise distinct addresses, and n(n-1) entries in all. */
  lemma MeshComplete(nodes: seq<string>, opts: Options, configs: seq<ConfigMap>, hash: string -> string)
    requires Buildable(nodes, opts) && DistinctNodes(nodes) && ConfigsFor(configs, nodes, opts, hash)
    ensures |configs| == |nodes|
    ensures Entries(configs) == |nodes| * (|nodes| - 1)
    ensures forall i, j | 0 <= i < j < |nodes| :: configs[i].config.ipAddress != configs[j].config.ipAddress
  {
    hide ConfigOf, Allocatable, Neighbours, MaskOf;
    var ips, mask := Addresses(opts.Cidr(), opts.Start(), |nodes|), MaskOf(opts.Cidr());
    forall i | 0 <= i < |nodes|
      ensures |configs[i].config.neighbours| == |nodes| - 1 && configs[i].config.ipAddress == ips[i] + mask
    {
      MeshConsistent(nodes, ips, mask, opts, i);
    }
    EntriesOf(configs, |nodes| - 1);
    hide Addresses;
    forall i, j | 0 <= i < j < |nodes|
      ensures configs[i].config.ipAddress != configs[j].config.ipAddress
    {
      AddressesDiffer(opts.Cidr(), opts.Start(), |nodes|, i, j);
      SameEnding(ips[i], ips[j], mask);
    }
  }

  /** The address of each configuration: the node's own host address, in the notation of the range. */
  lemma MeshAddresses(nodes: seq<string>, opts: Options, configs: seq<ConfigMap>, hash: string -> string, i: nat)
    requires Buildable(nodes, opts) && DistinctNodes(nodes) && ConfigsFor(configs, nodes, opts, hash) && i < |nodes|
    ensures ParseCidr(opts.Cidr()).Some? && opts.Start() >= 1 && |configs| == |nodes|
    ensures var c := ParseCidr(opts.Cidr()).value;
            configs[i].config.ipAddress == Dotted(HostAddress(c.ip, opts.Start() + i)) + "/" + Decimal(c.prefix)
  {
    hide ConfigOf, Allocatable, Neighbours, MaskOf, Addresses, ParseCidr, Dotted, HostAddress, Decimal, DistinctNodes,
         Options.Cidr, Options.Start;
    AddressesAt(opts.Cidr(), opts.Start(), |nodes|, i);
    MaskText(opts.Cidr());
    MeshConsistent(nodes, Addresses(opts.Cidr(), opts.Start(), |nodes|), MaskOf(opts.Cidr()), opts, i);
  }

  lemma MaskText(cidr: string)
    requires ParseCidr(cidr).Some?
    ensures MaskOf(cidr) == "/" + Decimal(ParseCidr(cidr).value.prefix)
  {
    hide ParseCidr, Decimal;
  }

  lemma AddressesAt(cidr: string, start: int, n: nat, i: nat)
    requires Allocatable(cidr, start, n) && i < n
    ensures start >= 1 && ParseCidr(cidr).Some?
    ensures |Addresses(cidr, start, n)| == n
    ensures Addresses(cidr, start, n)[i] == Dotted(HostAddress(ParseCidr(cidr).value.ip, start + i))
  {
    hide ParseCidr, Dotted, HostAddress;
  }

  lemma AddressesDiffer(cidr: string, start: int, n: nat, i: nat, j: nat)
    requires Allocatable(cidr, start, n) && i < j < n
    ensures Addresses(cidr, start, n)[i] != Addresses(cidr, start, n)[j]
  {
    hide *;
    AllocationFits(cidr, start, n);
    AddressesAt(cidr, start, n, i);
    AddressesAt(cidr, start, n, j);
    HostsDistinct(ParseCidr(cidr).value.ip, start + i, start + j);
  }

  lemma AllocationFits(cidr: string, start: int, n: nat)
    requires Allocatable(cidr, start, n)
    ensures start >= 1 && start + n < TWO32
  {
    hide ParseCidr;
    Subnet.BlockFits(ParseCidr(cidr).value.ip, ParseCidr(cidr).value.prefix);
  }

  /**
    When collectors can be built: the overlay has nodes, the spread factor parses, and the block allocator grants one
    address per node, from the given range and start, or 10.0.0.0/24 when the range is missing or empty, and 2.
   */
  lemma BuildableExactly(nodes: seq<string>, opts: Options)
    ensures var cidr := if opts.networkCIDR.Some? && opts.networkCIDR.value != "" then opts.networkCIDR.value
                        else "10.0.0.0/24";
            var start := if opts.ipStart.Some? then opts.ipStart.value else 2;
            && (Buildable(nodes, opts) <==> opts.spreadFactorParses && Allocatable(cidr, start, |nodes|))
            && opts.Cidr() == cidr && opts.Start() == start
  {
    hide ParseCidr;
  }

  /**
    The defaults. The range used when none is given is 10.0.0.0/24, and from its second address on it serves
    overlays of up to 253 nodes, in the order of their last octets; a larger one gets no monitoring.
   */
  lemma DefaultMesh(base: Address, n: nat)
    requires base == [10, 0, 0, 0]
    ensures var cidr := Dotted(base) + PrefixText(24);
            && (Allocatable(cidr, 2, n) <==> 1 <= n <= 253)
            && (Allocatable(cidr, 2, n) ==>
                  forall i: nat | i < n :: Addresses(cidr, 2, n)[i] == Dotted([10, 0, 0, 2 + i]))
            && cidr == DEFAULT_CIDR
  {
    hide ParseCidr, Dotted, PrefixText, HostAddress, DEFAULT_CIDR;
    DefaultText(base);
    ParseWritten(base, 24);
    assert Subnet.Size(24) == 256 by {
      Subnet.Pow2Byte(0);
    }
    forall offset: nat | offset < 256
      ensures HostAddress(base, offset) == [10, 0, 0, offset]
    {
      DefaultHost(base, offset);
    }
  }

  lemma DefaultText(base: Address)
    requires base == [10, 0, 0, 0]
    ensures Dotted(base) + PrefixText(24) == DEFAULT_CIDR
  {
    assert Decimal(10) == "10" && Decimal(24) == "24" && Decimal(0) == "0";
  }

  lemma DefaultHost(base: Address, offset: nat)
    requires base == [10, 0, 0, 0] && offset < 256
    ensures HostAddress(base, offset) == [10, 0, 0, offset]
  {
  }
}

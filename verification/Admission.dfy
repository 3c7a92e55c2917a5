/**
  How Handle gives a pod its addresses (internal/controller/pod_webhook.go, lines 90-201), network by network.
*/
module Admission {
  import opened Wrappers
  import opened Text
  import opened Ipv4
  import opened IpTexts
  import opened Subnet
  import opened AddressSearch

  /** One entry of a network annotation. */
  datatype Annotation = Annotation(name: string, ips: seq<string>)

  /** The fields of an L2Network that admission reads and writes; `addresses` is None while the map is nil. */
  datatype Network = Network(cidr: string, podRange: string, last: string,
                             addresses: Option<map<string, string>>, connected: int)
  {
    function Assigned(): map<string, string> {
      if addresses.Some? then addresses.value else map[]
    }

    function Range(): string {
      if podRange != "" then podRange else cidr
    }

    function Record(key: string, pod: string): Network {
      this.(addresses := Some(Assigned()[key := pod]))
    }
  }

  /** net.ParseCIDR followed by String, for either family. */
  function AddressKey(v6: V6, text: string): Option<string> {
    var c := ReadCidr(v6, text);
    if c.Some? then Some(IpText(v6, c.value.ip)) else None
  }

  /** The key recorded for an annotation text; a nil address prints as "<nil>". */
  function RecordKey(v6: V6, text: string): string {
    var key := AddressKey(v6, text);
    if key.Some? then key.value else "<nil>"
  }

  datatype Request = Request(pod: string, ips: seq<string>, linkLocal: string)

  datatype Attempt = Granted(network: Network, ips: seq<string>) | Hangs | Crashes

  /** One iteration of the loop, for a network that was found. */
  function Assign(v6: V6, n: Network, r: Request): Attempt {
    var served := n.(connected := n.connected + 1);
    if r.ips != [] then Granted(served.Record(RecordKey(v6, r.ips[0]), r.pod), r.ips)
    else if n.cidr == "" then Granted(served, [r.linkLocal])
    else
      var c := ReadCidr(v6, n.cidr);
      if c.None? then Crashes
      else
        match Next(v6, n.Range(), n.last, n.Assigned().Keys)
        case Spins => Hangs
        case Found(a, _) => AutoGrant(v6, served, r.pod, IpText(v6, a), c.value.prefix)
        case NotFound => AutoGrant(v6, served, r.pod, "", c.value.prefix)
        case BadCidr => AutoGrant(v6, served, r.pod, "", c.value.prefix)
  }

  /** An address chosen for the pod; the empty text when none could be found. */
  function AutoGrant(v6: V6, n: Network, pod: string, address: string, prefix: nat): Attempt {
    var text := address + PrefixText(prefix);
    Granted(n.(last := address).Record(RecordKey(v6, text), pod), [text])
  }

  /** The key under which an annotation text is recorded: the address read back from it, in its own notation. */
  lemma RecordKeyExactly(v6: V6, text: string)
    ensures RecordKey(v6, text) == match ReadCidr(v6, text) case Some(c) => IpText(v6, c.ip) case None => "<nil>"
  {
    hide ReadCidr, IpText;
  }

  /**
    A static request always succeeds and gets its own address list, untouched. Its first address is recorded for the
    pod over whatever was recorded for it, the pod is counted, and nothing else of the network changes.
   */
  lemma StaticExactly(v6: V6, n: Network, r: Request)
    requires r.ips != []
    ensures var t := Assign(v6, n, r);
            var key := match ReadCidr(v6, r.ips[0]) case Some(c) => IpText(v6, c.ip) case None => "<nil>";
            && t.Granted? && t.ips == r.ips
            && t.network == n.(connected := n.connected + 1, addresses := t.network.addresses)
            && t.network.addresses.Some? && key in t.network.addresses.value && t.network.addresses.value[key] == r.pod
            && (forall k | k != key :: k in t.network.addresses.value <==> n.addresses.Some? && k in n.addresses.value)
            && (forall k | k in t.network.addresses.value && k != key ::
                  n.addresses.Some? && k in n.addresses.value && t.network.addresses.value[k] == n.addresses.value[k])
  {
    hide ReadCidr, IpText, Next;
  }

  /** A request without addresses on a network of layer 2 gets its link-local address, which is not recorded. */
  lemma LinkLocalExactly(v6: V6, n: Network, r: Request)
    requires r.ips == [] && n.cidr == ""
    ensures Assign(v6, n, r) == Granted(n.(connected := n.connected + 1), [r.linkLocal])
  {
  }

  /**
    An automatic request searches the pod range, or the network's CIDR when there is none, after the network's last
    address. It panics exactly if the CIDR does not parse, never returns exactly if the search does not end, and is
    otherwise given the found address, or nothing, before the prefix of the CIDR; that address becomes the last one
    and its text is recorded for the pod.
   */
  lemma AutomaticExactly(v6: V6, n: Network, r: Request)
    requires r.ips == [] && n.cidr != ""
    ensures var taken := if n.addresses.Some? then n.addresses.value else map[];
            var found := Next(v6, if n.podRange == "" then n.cidr else n.podRange, n.last, taken.Keys);
            match ReadCidr(v6, n.cidr)
            case None => Assign(v6, n, r).Crashes?
            case Some(c) =>
              if found.Spins? then Assign(v6, n, r).Hangs?
              else
                var address := if found.Found? then IpText(v6, found.address) else "";
                var text := address + "/" + Decimal(c.prefix);
                var key := match ReadCidr(v6, text) case Some(c) => IpText(v6, c.ip) case None => "<nil>";
                Assign(v6, n, r) == Granted(Network(n.cidr, n.podRange, address, Some(taken[key := r.pod]),
                                                    n.connected + 1), [text])
  {
    hide ReadCidr, IpText, Next, Decimal;
    var c := ReadCidr(v6, n.cidr);
    if c.Some? {
      var found := Next(v6, n.Range(), n.last, n.Assigned().Keys);
      var address := if found.Found? then IpText(v6, found.address) else "";
      assert address + PrefixText(c.value.prefix) == address + "/" + Decimal(c.value.prefix);
    }
  }

  // ---------- one network over many admissions ----------

  /** The network after serving the requests in turn, provided every one of them returned. */
  function After(v6: V6, n: Network, rs: seq<Request>): Option<Network>
    decreases |rs|
  {
    if rs == [] then Some(n)
    else
      match After(v6, n, rs[..|rs| - 1])
      case None => None
      case Some(m) =>
        match Assign(v6, m, rs[|rs| - 1])
        case Granted(m', _) => Some(m')
        case Hangs => None
        case Crashes => None
  }

  /** The address the request at position i is given by the search, if it is an automatic one that succeeds. */
  function AutoAddress(v6: V6, n: Network, rs: seq<Request>, i: nat): Option<Ip>
    requires i < |rs|
  {
    var m := After(v6, n, rs[..i]);
    if m.None? || rs[i].ips != [] || m.value.cidr == "" || ReadCidr(v6, m.value.cidr).None? then None
    else
      match Next(v6, m.value.Range(), m.value.last, m.value.Assigned().Keys)
      case Found(a, _) => Some(a)
      case _ => None
  }

  /** The key a request leaves in the network's record, if it is served and leaves one. */
  function RecordOf(v6: V6, n: Network, r: Request): Option<string> {
    match Assign(v6, n, r)
    case Granted(_, ips) =>
      if (r.ips == [] && n.cidr == "") || ips == [] then None else Some(RecordKey(v6, ips[0]))
    case _ => None
  }

  lemma AssignRecords(v6: V6, n: Network, r: Request)
    requires Assign(v6, n, r).Granted?
    ensures var key := RecordOf(v6, n, r);
            Assign(v6, n, r).network.Assigned().Keys == n.Assigned().Keys + (if key.Some? then {key.value} else {})
  {
    hide Next, ReadCidr, RecordKey, PrefixText, IpText;
  }

  /** The key the request at position i leaves in the network's record. */
  function RecordedBy(v6: V6, n: Network, rs: seq<Request>, i: nat): Option<string>
    requires i < |rs|
  {
    var m := After(v6, n, rs[..i]);
    if m.None? then None else RecordOf(v6, m.value, rs[i])
  }

  lemma {:induction false} KeysGrow(v6: V6, n: Network, rs: seq<Request>, i: nat)
    requires After(v6, n, rs).Some? && i <= |rs|
    ensures After(v6, n, rs[..i]).Some?
    ensures After(v6, n, rs[..i]).value.Assigned().Keys <= After(v6, n, rs).value.Assigned().Keys
    decreases |rs|
  {
    hide Assign, RecordOf;
    if i < |rs| {
      var front := rs[..|rs| - 1];
      assert front[..i] == rs[..i];
      KeysGrow(v6, n, front, i);
      AssignRecords(v6, After(v6, n, front).value, rs[|rs| - 1]);
    } else {
      assert rs[..i] == rs;
    }
  }

  /**
    Over any run of admissions mixing static and automatic requests, an automatic address differs from every
    address recorded before it and from those the network started with, and is itself recorded. What is recorded is
    the address read back from the text written with the prefix of the network's CIDR, which has to be one of the
    address's family.
   */
  lemma AutomaticIsNew(v6: V6, n: Network, rs: seq<Request>, j: nat)
    requires After(v6, n, rs).Some? && j < |rs| && AutoAddress(v6, n, rs, j).Some?
    ensures var a := AutoAddress(v6, n, rs, j).value;
            && IpText(v6, a) !in n.Assigned()
            && (forall i | 0 <= i < j :: RecordedBy(v6, n, rs, i) != Some(IpText(v6, a)))
    ensures After(v6, n, rs[..j]).Some? && ReadCidr(v6, After(v6, n, rs[..j]).value.cidr).Some?
    ensures var a := AutoAddress(v6, n, rs, j).value;
            ReadCidr(v6, After(v6, n, rs[..j]).value.cidr).value.prefix <= 8 * |a| && (|a| == 4 || v6.Lawful())
            ==> RecordedBy(v6, n, rs, j) == Some(IpText(v6, a))
  {
    hide Next, ReadCidr, IpText, RecordOf, PrefixText, V6.Lawful;
    var a := AutoAddress(v6, n, rs, j).value;
    var m := After(v6, n, rs[..j]).value;
    NextIsFree(v6, m);
    KeysGrow(v6, n, rs, j);
    KeysGrow(v6, n, rs[..j], 0);
    assert After(v6, n, rs[..j][..0]) == Some(n);
    forall i | 0 <= i < j
      ensures RecordedBy(v6, n, rs, i) != Some(IpText(v6, a))
    {
      RecordStays(v6, n, rs, i, j);
    }
    if ReadCidr(v6, m.cidr).value.prefix <= 8 * |a| && (|a| == 4 || v6.Lawful()) {
      AutoRecords(v6, m, rs[j], a);
    }
  }

  /** The search finds addresses that are not recorded. */
  lemma NextIsFree(v6: V6, n: Network)
    requires Next(v6, n.Range(), n.last, n.Assigned().Keys).Found?
    ensures IpText(v6, Next(v6, n.Range(), n.last, n.Assigned().Keys).address) !in n.Assigned()
  {
    hide ReadCidr, ReadAddress, IpText;
    var k := FoundIsFirst(Start(v6, n.Range(), n.last, n.Assigned().Keys).value);
  }

  lemma AutoRecords(v6: V6, n: Network, r: Request, a: Ip)
    requires r.ips == [] && n.cidr != "" && ReadCidr(v6, n.cidr).Some?
    requires Next(v6, n.Range(), n.last, n.Assigned().Keys).Found?
    requires a == Next(v6, n.Range(), n.last, n.Assigned().Keys).address
    requires ReadCidr(v6, n.cidr).value.prefix <= 8 * |a| && (|a| == 4 || v6.Lawful())
    ensures RecordOf(v6, n, r) == Some(IpText(v6, a))
  {
    hide ReadCidr, IpText, Next, PrefixText, V6.Lawful;
    ReadWritten(v6, a, ReadCidr(v6, n.cidr).value.prefix);
  }

  lemma RecordStays(v6: V6, n: Network, rs: seq<Request>, i: nat, j: nat)
    requires i < j <= |rs| && After(v6, n, rs[..j]).Some?
    ensures After(v6, n, rs[..i]).Some?
    ensures RecordedBy(v6, n, rs, i).Some? ==>
              RecordedBy(v6, n, rs, i).value in After(v6, n, rs[..j]).value.Assigned().Keys
  {
    hide Assign, RecordOf;
    KeysGrow(v6, n, rs[..j], i + 1);
    assert rs[..j][..i + 1] == rs[..i + 1];
    assert rs[..i + 1][..i] == rs[..i] && rs[..i + 1][i] == rs[i];
    AssignRecords(v6, After(v6, n, rs[..i]).value, rs[i]);
  }

  // ---------- automatic addresses on an empty network ----------

  /** The address i places after the network address, turning round after the last octet. */
  function Place(net: Address, i: nat): Address {
    net[3 := (net[3] as int + i) % 256]
  }

  /** How many automatic allocations follow one another before the block is exhausted or left. */
  function Capacity(prefix: nat): nat
    requires prefix <= 32
  {
    if prefix <= 24 then 256 else Size(prefix) - 1
  }

  predicate Automatic(rs: seq<Request>) {
    forall r | r in rs :: r.ips == []
  }

  /** A network without allocations, whose CIDR and range parse. */
  predicate Empty(n: Network) {
    ParseCidr(n.cidr).Some? && ParseCidr(n.Range()).Some? && n.last == "" && n.Assigned() == map[]
  }

  function NetOf(n: Network): Address
    requires ParseCidr(n.Range()).Some?
  {
    Masked(ParseCidr(n.Range()).value.ip, ParseCidr(n.Range()).value.prefix)
  }

  ghost predicate Allocated(n: Network, net: Address, k: nat) {
    && n.last == (if k == 0 then "" else Dotted(Place(net, k)))
    && (forall i: nat | 1 <= i <= k :: Dotted(Place(net, i)) in n.Assigned().Keys)
    && (forall key | key in n.Assigned().Keys :: exists i: nat :: 1 <= i <= k && key == Dotted(Place(net, i)))
  }

  lemma PlacesDiffer(net: Address, i: nat, j: nat)
    requires i < j < i + 256
    ensures Place(net, i) != Place(net, j) && Dotted(Place(net, i)) != Dotted(Place(net, j))
  {
    var b: int := net[3];
    assert (b + i) % 256 != (b + j) % 256;
    assert Place(net, i)[3] != Place(net, j)[3];
    if Dotted(Place(net, i)) == Dotted(Place(net, j)) {
      DottedInjective(Place(net, i), Place(net, j));
    }
  }

  lemma BlockStartsEven(ip: Address, prefix: nat)
    requires prefix <= 32
    ensures prefix <= 24 ==> Masked(ip, prefix)[3] == 0
    ensures 24 <= prefix ==> Masked(ip, prefix)[3] as int + Size(prefix) <= 256 && Size(prefix) <= 256
    ensures 25 <= prefix ==> Size(prefix) <= 128
  {
    KeepHighEdge(ip[3]);
    if prefix >= 24 {
      var z := 32 - prefix;
      Pow2Byte(z);
      MultipleBelow(ip[3], Pow2(z), Pow2(8 - z));
      Pow2Grows(z, if prefix >= 25 then 7 else 8);
      assert Pow2(7) == 2 * Pow2(6) == 4 * Pow2(5) == 8 * Pow2(4) == 128;
    }
  }

  /** Places within the capacity lie in the block; the next one does only for /24 and shorter. */
  lemma PlaceInBlock(ip: Address, prefix: nat, i: nat)
    requires prefix <= 32 && i <= Capacity(prefix) + 1
    ensures var net := Masked(ip, prefix);
            Contains(net, prefix, Place(net, i)) <==> prefix <= 24 || i <= Capacity(prefix)
  {
    hide Masked, Contains, Pow2, Place;
    var net := Masked(ip, prefix);
    var octet := Place(net, i)[3];
    assert Place(net, i) == net[3 := octet] by {
      PlaceOctet(net, i);
    }
    if prefix <= 24 {
      WideBlockIgnoresLastByte(net, prefix, net, octet);
      SelfContained(net, prefix);
    } else {
      BlockOctets(ip, prefix, octet);
      BlockStartsEven(ip, prefix);
      PlaceOctet(net, i);
      Beyond(net[3], Size(prefix), i);
    }
  }

  lemma PlaceOctet(net: Address, i: nat)
    ensures Place(net, i) == net[3 := (net[3] as int + i) % 256] && Place(net, i)[3] == (net[3] as int + i) % 256
  {
  }

  /** Counting on from the start of a block of `size` octets, turning round at 256. */
  lemma Beyond(start: nat, size: nat, i: nat)
    requires 0 < size <= 128 && start + size <= 256 && i <= size
    ensures start <= (start + i) % 256 < start + size <==> i < size
  {
    if start + i < 256 {
    } else {
      assert (start + i) % 256 == 0;
    }
  }

  /** One more automatic request, within the capacity, gets the next place. */
  lemma NextAllocation(v6: V6, n: Network, r: Request, net: Address, k: nat)
    requires ParseCidr(n.cidr).Some? && ParseCidr(n.Range()).Some? && net == NetOf(n) && r.ips == []
    requires Allocated(n, net, k) && k < Capacity(ParseCidr(n.Range()).value.prefix)
    ensures Next(v6, n.Range(), n.last, n.Assigned().Keys).Found?
    ensures Next(v6, n.Range(), n.last, n.Assigned().Keys).address == Place(net, k + 1)
    ensures var t := Assign(v6, n, r);
            && t.Granted?
            && t.ips == [Dotted(Place(net, k + 1)) + PrefixText(ParseCidr(n.cidr).value.prefix)]
            && t.network == n.(last := Dotted(Place(net, k + 1)), connected := n.connected + 1)
                             .Record(Dotted(Place(net, k + 1)), r.pod)
  {
    hide ParseCidr, ParseAddress, Dotted, Contains, Masked, PrefixText, Capacity;
    var c := ParseCidr(n.Range()).value;
    var s := Start(v6, n.Range(), n.last, n.Assigned().Keys).value;
    FirstPlace(v6, n, s, net, k);
    FirstPlaceStops(v6, n, s, net, k);
    FirstFit(s, 0);
    ParseEmpty();
    ParseWritten(Place(net, k + 1), ParseCidr(n.cidr).value.prefix);
  }

  lemma FirstPlaceStops(v6: V6, n: Network, s: Search, net: Address, k: nat)
    requires ParseCidr(n.Range()).Some? && net == NetOf(n) && Allocated(n, net, k)
    requires k < Capacity(ParseCidr(n.Range()).value.prefix)
    requires Start(v6, n.Range(), n.last, n.Assigned().Keys) == Some(s)
    requires s.aliased == (k == 0) && s.net == net && s.At(s.Octet(0)) == Place(net, k + 1)
    ensures s.Passes(s.Octet(0)) && s.Free(s.Octet(0))
  {
    hide ParseCidr, ParseAddress, Dotted, Contains, Masked, Place, Capacity;
    var c := ParseCidr(n.Range()).value;
    CapacityBound(c.ip, c.prefix);
    PlaceInBlock(c.ip, c.prefix, k + 1);
    forall i: nat | 1 <= i <= k
      ensures Dotted(Place(net, i)) != Dotted(Place(net, k + 1))
    {
      PlacesDiffer(net, i, k + 1);
    }
    if k == 0 {
      FreshNeverLeaves(s, s.Octet(0));
    }
  }

  lemma CapacityBound(ip: Address, prefix: nat)
    requires prefix <= 32
    ensures Capacity(prefix) <= 256
    ensures prefix >= 25 ==> Capacity(prefix) <= 127
  {
    BlockStartsEven(ip, prefix);
  }

  /** The first candidate of the search after k allocations. */
  lemma FirstPlace(v6: V6, n: Network, s: Search, net: Address, k: nat)
    requires ParseCidr(n.Range()).Some? && net == NetOf(n) && Allocated(n, net, k)
    requires Start(v6, n.Range(), n.last, n.Assigned().Keys) == Some(s)
    ensures s.aliased == (k == 0) && s.net == net && s.At(s.Octet(0)) == Place(net, k + 1)
    ensures forall j: nat :: s.At(s.Octet(j)) == Place(net, k + 1 + j)
  {
    hide ParseCidr, ParseAddress, Dotted, Contains, Masked;
    ParseDotted(Place(net, k));
    ParseEmpty();
    forall j: nat
      ensures s.At(s.Octet(j)) == Place(net, k + 1 + j)
    {
      PlaceAfter(net, k, j);
    }
  }

  lemma ParseEmpty()
    ensures ParseAddress("") == None && ParseCidr("") == None
  {
    SplitLast("", '.');
  }

  lemma PlaceAfter(net: Address, k: nat, j: nat)
    ensures Place(net, k)[3 := (Place(net, k)[3] as int + 1 + j) % 256] == Place(net, k + 1 + j)
    ensures Place(net, 0) == net
  {
    var b: int := net[3];
    assert ((b + k) % 256 + 1 + j) % 256 == (b + (k + 1 + j)) % 256;
  }
}

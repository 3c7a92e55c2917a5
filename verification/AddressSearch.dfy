/**
  GetNextAvailableIP (internal/controller/pod_utils.go): a search that steps the last byte of an address
  in place. When it starts afresh, the stepped array is the network's own address array.
  IPv4 addresses are kept as four bytes; the sixteen-byte form net.ParseIP returns differs by a constant prefix.
*/
module AddressSearch {
  import opened Wrappers
  import opened Text
  import opened Ipv4
  import opened IpTexts
  import opened Subnet

  /** One search: the network, the address before the first candidate, and whether the two share an array. */
  datatype Search = Search(v6: V6, net: Ip, prefix: nat, base: Ip, aliased: bool, taken: set<string>)
  {
    function At(octet: Byte): Ip {
      base[|base| - 1 := octet]
    }

    /** The last byte under test in iteration k, modulo 256. */
    function Octet(k: nat): Byte {
      (base[|base| - 1] as int + 1 + k) % 256
    }

    /** The network covers all 256 last bytes: /24 and shorter for IPv4, /120 and shorter for IPv6. */
    predicate Wide() {
      prefix <= 8 * (|net| - 1)
    }

    /** The loop test, comparing the network array with the candidate array. */
    predicate Passes(octet: Byte) {
      Contains(if aliased then At(octet) else net, prefix, At(octet))
    }

    predicate Free(octet: Byte) {
      IpText(v6, At(octet)) !in taken
    }

    /** Iteration k is the last one. */
    predicate Stops(k: nat) {
      !Passes(Octet(k)) || Free(Octet(k))
    }

    /** The loop ends at all. */
    ghost predicate Halts() {
      exists k: nat :: Stops(k)
    }

    /** The first iteration at or after k that stops, looking once around the 256 octets. */
    function StopFrom(k: nat): (r: Option<nat>)
      requires k <= 256
      ensures r.Some? ==> k <= r.value < 256
      decreases 256 - k
    {
      if k == 256 then None else if Stops(k) then Some(k) else StopFrom(k + 1)
    }

    function Result(): Outcome {
      match StopFrom(0)
      case None => Spins
      case Some(k) => if Passes(Octet(k)) then Found(At(Octet(k)), PrefixText(prefix)) else NotFound
    }
  }

  /** The search the arguments start; a last address that does not parse counts as none. */
  function Start(v6: V6, networkCIDR: string, last: string, taken: set<string>): Option<Search> {
    var c := ReadCidr(v6, networkCIDR);
    if c.None? then None
    else
      var net := Masked(c.value.ip, c.value.prefix);
      var from := if last == "" then None else ReadAddress(v6, last);
      Some(if from.None? then Search(v6, net, c.value.prefix, net, true, taken)
           else Search(v6, net, c.value.prefix, from.value, false, taken))
  }

  datatype Outcome = Found(address: Ip, mask: string) | NotFound | BadCidr | Spins

  function Next(v6: V6, networkCIDR: string, last: string, taken: set<string>): Outcome {
    match Start(v6, networkCIDR, last, taken)
    case None => BadCidr
    case Some(s) => s.Result()
  }

  /** Increments the last byte with 8-bit wrap-around. */
  method StepLastByte(ip: array<Byte>)
    requires ip.Length > 0
    modifies ip
    ensures ip[..] == old(ip[..])[ip.Length - 1 := (old(ip[ip.Length - 1]) as int + 1) % 256]
  {
    ip[ip.Length - 1] := (ip[ip.Length - 1] as int + 1) % 256;
  }

  /** The returned text is the address with its mask apart, as the three results of the source. */
  method GetNextAvailableIP(v6: V6, networkCIDR: string, lastAssignedIP: string, assignedIPs: map<string, string>)
    returns (r: Result<(string, string)>)
    requires !Next(v6, networkCIDR, lastAssignedIP, assignedIPs.Keys).Spins?
    ensures var n := Next(v6, networkCIDR, lastAssignedIP, assignedIPs.Keys);
            if n.Found? then r == Ok((IpText(v6, n.address), n.mask)) else r.Err?
  {
    hide ReadCidr, ReadAddress, IpText, Contains, Masked;
    var parsed := ReadCidr(v6, networkCIDR);
    if parsed.None? {
      return Err("invalid CIDR");
    }
    ghost var search := Start(v6, networkCIDR, lastAssignedIP, assignedIPs.Keys).value;
    var prefix := parsed.value.prefix;
    var netIP := CopyOf(Masked(parsed.value.ip, prefix));
    var startIP;
    var from := ReadAddress(v6, lastAssignedIP);
    if lastAssignedIP == "" || from.None? {
      startIP := netIP;
    } else {
      startIP := CopyOf(from.value);
    }
    var found := Scan(v6, netIP, startIP, prefix, assignedIPs, search);
    if found {
      return Ok((IpText(v6, startIP[..]), PrefixText(prefix)));
    }
    return Err("no available IPs in CIDR");
  }

  method CopyOf(a: Ip) returns (bytes: array<Byte>)
    ensures fresh(bytes) && bytes.Length == |a| && bytes[..] == a
  {
    var s: seq<Byte> := a;
    bytes := new Byte[|s|](i requires 0 <= i < |s| => s[i]);
    assert bytes[..] == s;
  }

  lemma {:induction false} StopIsFirst(s: Search, k: nat)
    requires k <= 256
    ensures var r := s.StopFrom(k);
            && (r.Some? ==> s.Stops(r.value) && forall j | k <= j < r.value :: !s.Stops(j))
            && (r.None? ==> forall j | k <= j < 256 :: !s.Stops(j))
    decreases 256 - k
  {
    hide Search.Stops;
    if k < 256 {
      StopIsFirst(s, k + 1);
    }
  }

  lemma FirstOctet(s: Search)
    ensures s.base[|s.base| - 1 := (s.base[|s.base| - 1] as int + 1) % 256] == s.At(s.Octet(0))
  {
  }

  lemma NextOctet(s: Search, k: nat)
    ensures s.At(s.Octet(k))[|s.base| - 1] == s.Octet(k)
    ensures s.At(s.Octet(k))[|s.base| - 1 := (s.Octet(k) as int + 1) % 256] == s.At(s.Octet(k + 1))
  {
    var b: int := s.base[|s.base| - 1];
    assert ((b + 1 + k) % 256 + 1) % 256 == (b + 1 + (k + 1)) % 256;
  }

  /** The loop itself, on the two arrays or on the one array both names denote. */
  method Scan(v6: V6, netIP: array<Byte>, ip: array<Byte>, prefix: nat, assignedIPs: map<string, string>,
              ghost s: Search)
    returns (found: bool)
    requires netIP.Length == |s.net| && ip.Length == |s.base|
    requires ip[..] == s.base && netIP[..] == s.net && s.taken == assignedIPs.Keys && s.prefix == prefix && s.v6 == v6
    requires (ip == netIP) == s.aliased
    requires !s.Result().Spins?
    modifies ip
    ensures if found then s.Result() == Found(ip[..], PrefixText(prefix)) else s.Result().NotFound?
  {
    hide Contains, IpText, Search.At, Search.Octet, Search.Stops, Search.StopFrom, Search.Result;
    FirstOctet(s);
    StepLastByte(ip);
    ghost var k := 0;
    ResultAt(s);
    Reached(s, k);
    while Contains(netIP[..], prefix, ip[..])
      invariant k <= s.StopFrom(0).value
      invariant ip[..] == s.At(s.Octet(k))
      invariant ip != netIP ==> netIP[..] == s.net
      decreases s.StopFrom(0).value - k
    {
      Reached(s, k);
      if IpText(v6, ip[..]) !in assignedIPs {
        return true;
      }
      NextOctet(s, k);
      StepLastByte(ip);
      k := k + 1;
    }
    Reached(s, k);
    return false;
  }

  /** What an iteration that is reached decides. */
  lemma Reached(s: Search, k: nat)
    requires s.StopFrom(0).Some? && k <= s.StopFrom(0).value
    ensures var passes, free := s.Passes(s.Octet(k)), s.Free(s.Octet(k));
            && (passes && free ==> s.Result() == Found(s.At(s.Octet(k)), PrefixText(s.prefix)))
            && (!passes ==> s.Result() == NotFound)
            && (passes && !free ==> k < s.StopFrom(0).value)
  {
    hide *;
    StopIsFirst(s, 0);
    Decides(s, k);
    ResultAt(s);
  }

  lemma Decides(s: Search, k: nat)
    ensures s.Stops(k) <==> !s.Passes(s.Octet(k)) || s.Free(s.Octet(k))
  {
  }

  lemma ResultAt(s: Search)
    ensures s.Result().Spins? <==> s.StopFrom(0).None?
    ensures s.StopFrom(0).Some? ==>
              var o := s.Octet(s.StopFrom(0).value);
              s.Result() == if s.Passes(o) then Found(s.At(o), PrefixText(s.prefix)) else NotFound
  {
    hide Search.Passes, Search.StopFrom, Search.At, Search.Octet;
  }

  // ---------- when the loop ends ----------

  lemma Periodic(s: Search, k: nat)
    ensures s.Stops(k) == s.Stops(k % 256)
  {
    hide Contains, IpText;
    var b: int := s.base[|s.base| - 1];
    assert (b + 1 + k) % 256 == (b + 1 + k % 256) % 256;
  }

  lemma HaltsWithinOneRound(s: Search)
    ensures s.Halts() <==> s.StopFrom(0).Some?
  {
    StopIsFirst(s, 0);
    hide Search.StopFrom, Search.Stops;
    if s.Halts() {
      var k: nat :| s.Stops(k);
      Periodic(s, k);
      assert s.Stops(k % 256);
    }
  }

  /** The iteration that tests an octet: its cyclic distance from the one after the base. */
  function DistanceTo(s: Search, octet: Byte): (k: nat)
    ensures k < 256 && s.Octet(k) == octet
    ensures forall j: nat | j < 256 && s.Octet(j) == octet :: j == k
  {
    var b: int := s.base[|s.base| - 1];
    var o: int := octet;
    if o > b then o - b - 1 else o - b + 255
  }

  /** Some one of the 256 last octets is unassigned. */
  ghost predicate SomeOctetFree(s: Search) {
    exists octet: Byte :: s.Free(octet)
  }

  lemma WideBlockIgnoresLastByte(net: Ip, prefix: nat, a: Ip, octet: Byte)
    requires prefix <= 8 * (|net| - 1)
    ensures Contains(net, prefix, a[|a| - 1 := octet]) == Contains(net, prefix, a)
  {
    var l := |a| - 1;
    var b: Ip := a[l := octet];
    if |a| == |net| {
      LastByteCleared(net[l], prefix, l);
      LastByteCleared(a[l], prefix, l);
      LastByteCleared(octet, prefix, l);
      hide MaskedByte;
      assert forall i | 0 <= i < l :: b[i] == a[i];
    }
  }

  lemma LastByteCleared(b: Byte, prefix: nat, i: nat)
    requires prefix <= 8 * i
    ensures MaskedByte(b, prefix, i) == 0
  {
    KeepHighEdge(b);
  }

  lemma NarrowBlockEnds(net: Ip, prefix: nat, a: Ip)
    requires |a| == |net| && 8 * (|net| - 1) < prefix <= 8 * |net|
    ensures var far: Byte := (net[|net| - 1] as int + 128) % 256; !Contains(net, prefix, a[|a| - 1 := far])
  {
    hide KeepHigh, MaskedByte;
    var l := |net| - 1;
    var far: Byte := (net[l] as int + 128) % 256;
    FarApart(net[l], far, Cleared(prefix, l));
    assert MaskedByte(net[l], prefix, l) != MaskedByte(far, prefix, l);
    assert a[l := far][l] == far;
  }

  lemma FarApart(x: nat, y: nat, z: nat)
    requires z <= 7 && (y == x + 128 || x == y + 128)
    ensures KeepHigh(x, z) != KeepHigh(y, z)
  {
    SameBlock(x, y, z);
    SameBlock(x, x, z);
    Pow2Grows(z, 7);
    assert Pow2(7) == 2 * Pow2(6) == 4 * Pow2(5) == 8 * Pow2(4) == 128;
  }

  lemma {:induction false} Pow2Grows(m: nat, n: nat)
    requires m <= n
    ensures Pow2(m) <= Pow2(n)
  {
    if m < n {
      Pow2Grows(m, n - 1);
    }
  }

  /**
    The loop ends exactly when one of the 256 last octets is unassigned, or a resumed search can leave the
    block: because the block covers fewer than 256 octets, or because the search starts outside it.
   */
  lemma HaltsExactly(s: Search)
    requires s.prefix <= 8 * |s.net|
    ensures s.Halts() <==>
            SomeOctetFree(s) || (!s.aliased && (!s.Wide() || !Contains(s.net, s.prefix, s.base)))
  {
    hide Contains, IpText;
    if SomeOctetFree(s) {
      var octet: Byte :| s.Free(octet);
      assert s.Stops(DistanceTo(s, octet));
    } else if s.aliased {
      forall octet
        ensures s.Passes(octet)
      {
        FreshNeverLeaves(s, octet);
      }
    } else if |s.base| != |s.net| {
      OtherFamily(s);
      assert s.Stops(0);
    } else if !s.Wide() {
      NarrowBlockEnds(s.net, s.prefix, s.base);
      var far: Byte := (s.net[|s.net| - 1] as int + 128) % 256;
      assert s.Stops(DistanceTo(s, far));
    } else {
      forall k: nat
        ensures s.Passes(s.Octet(k)) == Contains(s.net, s.prefix, s.base)
      {
        WideBlockIgnoresLastByte(s.net, s.prefix, s.base, s.Octet(k));
      }
      assert s.Stops(0) == !Contains(s.net, s.prefix, s.base);
    }
  }

  lemma OtherFamily(s: Search)
    requires !s.aliased && |s.base| != |s.net|
    ensures !Contains(s.net, s.prefix, s.base) && forall octet :: !s.Passes(octet)
  {
  }

  // ---------- what it returns ----------

  /** First fit: the first iteration that stops decides what the search returns. */
  lemma FirstFit(s: Search, k: nat)
    requires k < 256
    requires forall j | 0 <= j < k :: s.Passes(s.Octet(j)) && !s.Free(s.Octet(j))
    ensures s.Passes(s.Octet(k)) && s.Free(s.Octet(k)) ==>
              s.Result() == Found(s.At(s.Octet(k)), PrefixText(s.prefix))
    ensures !s.Passes(s.Octet(k)) ==> s.Result() == NotFound
  {
    hide Search.Passes, Search.Free, Search.StopFrom;
    StopIsFirst(s, 0);
    assert forall j | 0 <= j < k :: !s.Stops(j);
    assert s.Stops(k) ==> s.StopFrom(0) == Some(k);
  }

  function WithLast(a: Ip, octet: Byte): Ip {
    a[|a| - 1 := octet]
  }

  /** The last byte counted on from an address, turning round at 256: what the search tests in iteration k. */
  function Candidate(from: Ip, k: nat): Ip {
    WithLast(from, (from[|from| - 1] as int + 1 + k) % 256)
  }

  lemma CandidateIs(s: Search, k: nat)
    ensures s.At(s.Octet(k)) == Candidate(s.base, k)
  {
  }

  /**
    First fit after the last address. When the last address parses, whether or not it is still recorded, the search
    tests the addresses after it in turn: the first one outside the CIDR ends it without a result, the first one
    unassigned is returned, and it never ends if all 256 are inside and assigned.
   */
  lemma ResumedFirstFit(v6: V6, cidr: string, last: string, taken: set<string>, k: nat)
    requires ReadCidr(v6, cidr).Some? && last != "" && ReadAddress(v6, last).Some? && k <= 256
    requires var c, l := ReadCidr(v6, cidr).value, ReadAddress(v6, last).value;
             forall j | 0 <= j < k ::
               Contains(Masked(c.ip, c.prefix), c.prefix, Candidate(l, j)) && IpText(v6, Candidate(l, j)) in taken
    ensures var c, l := ReadCidr(v6, cidr).value, ReadAddress(v6, last).value;
            var r := Next(v6, cidr, last, taken);
            && (k == 256 ==> r == Spins)
            && (k < 256 && !Contains(Masked(c.ip, c.prefix), c.prefix, Candidate(l, k)) ==> r == NotFound)
            && (k < 256 && Contains(Masked(c.ip, c.prefix), c.prefix, Candidate(l, k)) ==>
                  IpText(v6, Candidate(l, k)) in taken || r == Found(Candidate(l, k), "/" + Decimal(c.prefix)))
  {
    var c, l := ReadCidr(v6, cidr).value, ReadAddress(v6, last).value;
    var s := Search(v6, Masked(c.ip, c.prefix), c.prefix, l, false, taken);
    hide ReadCidr, ReadAddress, IpText, Contains, Masked, Decimal, Search.Result, Search.StopFrom;
    forall j: nat
      ensures s.At(s.Octet(j)) == Candidate(l, j)
    {
      CandidateIs(s, j);
    }
    hide Search.At, Search.Octet, Candidate;
    FirstStop(s, k);
  }

  /**
    First fit from the start. Without a last address that parses, the search tests the addresses after the network
    address, whose last byte alone is stepped, and the network test never fails: the first one unassigned is returned.
   */
  lemma FreshFirstFit(v6: V6, cidr: string, last: string, taken: set<string>, k: nat)
    requires ReadCidr(v6, cidr).Some? && (last == "" || ReadAddress(v6, last).None?) && k <= 256
    requires var c := ReadCidr(v6, cidr).value;
             forall j | 0 <= j < k :: IpText(v6, Candidate(Masked(c.ip, c.prefix), j)) in taken
    ensures var c := ReadCidr(v6, cidr).value;
            var r := Next(v6, cidr, last, taken);
            && (k == 256 ==> r == Spins)
            && (k < 256 ==>
                  IpText(v6, Candidate(Masked(c.ip, c.prefix), k)) in taken
                  || r == Found(Candidate(Masked(c.ip, c.prefix), k), "/" + Decimal(c.prefix)))
  {
    var c := ReadCidr(v6, cidr).value;
    var net := Masked(c.ip, c.prefix);
    var s := Search(v6, net, c.prefix, net, true, taken);
    hide ReadCidr, ReadAddress, IpText, Contains, Masked, Decimal, Search.Result, Search.StopFrom;
    forall j: nat
      ensures s.At(s.Octet(j)) == Candidate(net, j) && s.Passes(s.Octet(j))
    {
      CandidateIs(s, j);
      FreshNeverLeaves(s, s.Octet(j));
    }
    hide Search.At, Search.Octet, Search.Passes, Candidate;
    FirstStop(s, k);
  }

  /** What a search whose first k iterations go on comes to in iteration k, or after all 256. */
  lemma FirstStop(s: Search, k: nat)
    requires k <= 256 && forall j | 0 <= j < k :: s.Passes(s.Octet(j)) && !s.Free(s.Octet(j))
    ensures k == 256 ==> s.Result() == Spins
    ensures k < 256 && !s.Passes(s.Octet(k)) ==> s.Result() == NotFound
    ensures k < 256 && s.Passes(s.Octet(k)) && s.Free(s.Octet(k)) ==>
              s.Result() == Found(s.At(s.Octet(k)), PrefixText(s.prefix))
  {
    hide Search.Passes, Search.Free, Search.At, Search.Octet, Search.Result;
    if k < 256 {
      FirstFit(s, k);
    } else {
      StopIsFirst(s, 0);
      hide Search.StopFrom;
      ResultAt(s);
    }
  }

  /** A network range that does not parse is refused, whatever else is given. */
  lemma BadCidrExactly(v6: V6, cidr: string, last: string, taken: set<string>)
    ensures Next(v6, cidr, last, taken) == BadCidr <==> ReadCidr(v6, cidr).None?
  {
    hide ReadCidr, ReadAddress, Search.StopFrom, Search.Passes;
  }

  /** Whatever is found is unassigned, and everything tested before it was assigned. */
  lemma FoundIsFirst(s: Search) returns (k: nat)
    requires s.Result().Found?
    ensures k < 256 && s.Result().address == s.At(s.Octet(k))
    ensures s.Free(s.Octet(k)) && s.Passes(s.Octet(k))
    ensures forall j | 0 <= j < k :: s.Passes(s.Octet(j)) && !s.Free(s.Octet(j))
  {
    StopIsFirst(s, 0);
    hide Search.Passes, Search.Free, Search.StopFrom;
    k := s.StopFrom(0).value;
    forall j | 0 <= j < k
      ensures s.Passes(s.Octet(j)) && !s.Free(s.Octet(j))
    {
      assert !s.Stops(j);
    }
  }

  /** A fresh search never fails: the network test compares the array with itself. */
  lemma FreshNeverFails(s: Search)
    requires s.aliased
    ensures !s.Result().NotFound?
  {
    hide Search.Passes, Search.StopFrom;
    var r := s.StopFrom(0);
    if r.Some? {
      FreshNeverLeaves(s, s.Octet(r.value));
    }
  }

  lemma FreshNeverLeaves(s: Search, octet: Byte)
    requires s.aliased
    ensures s.Passes(octet)
  {
  }

  /** The octets of the fresh search's own block. */
  predicate InBlock(s: Search, octet: Byte) {
    Contains(s.net, s.prefix, s.net[|s.net| - 1 := octet])
  }

  lemma BlockOctets(ip: Ip, prefix: nat, octet: Byte)
    requires 8 * (|ip| - 1) <= prefix <= 8 * |ip|
    ensures var net, l := Masked(ip, prefix), |ip| - 1;
            Contains(net, prefix, net[l := octet]) <==> net[l] <= octet < net[l] + Pow2(8 * |ip| - prefix)
  {
    var net, l := Masked(ip, prefix), |ip| - 1;
    var z := Cleared(prefix, l);
    assert z == 8 * |ip| - prefix;
    KeepHighTwice(ip[l], z);
    SameBlock(ip[l], octet, z);
    assert MaskedByte(net[l], prefix, l) == net[l] == KeepHigh(ip[l], z)
           && MaskedByte(octet, prefix, l) == KeepHigh(octet, z);
    hide KeepHigh, MaskedByte, Cleared, Pow2;
    var b: Ip := net[l := octet];
    assert forall i | 0 <= i < l :: b[i] == net[i];
  }

  /**
    The search never returns exactly if the 256 addresses that differ from its start in the last byte are all
    assigned, and it either starts afresh or resumes in a block that covers all of them.
   */
  lemma SpinsExactly(v6: V6, cidr: string, last: string, taken: set<string>)
    requires ReadCidr(v6, cidr).Some?
    ensures var c := ReadCidr(v6, cidr).value;
            var net, resumed := Masked(c.ip, c.prefix), last != "" && ReadAddress(v6, last).Some?;
            var from := if resumed then ReadAddress(v6, last).value else net;
            Next(v6, cidr, last, taken).Spins? <==>
            && (forall octet: Byte :: IpText(v6, WithLast(from, octet)) in taken)
            && (!resumed || (c.prefix <= 8 * (|net| - 1) && Contains(net, c.prefix, from)))
  {
    var c := ReadCidr(v6, cidr).value;
    var net := Masked(c.ip, c.prefix);
    var s := Start(v6, cidr, last, taken).value;
    hide ReadCidr, ReadAddress, IpText, Contains, Masked, Search.Result, Search.StopFrom, Search.Halts;
    HaltsExactly(s);
    HaltsWithinOneRound(s);
    ResultAt(s);
    forall octet: Byte
      ensures s.Free(octet) <==> IpText(v6, WithLast(s.base, octet)) !in taken
    {
    }
    hide Search.Free;
  }

  /**
    Range, over the arguments. An address found after a last address is one of the CIDR, and so is one found from the
    start of a block that covers all 256 last bytes. In a narrower block, it is exactly when some block address after
    the network address is unassigned, or every unassigned one is a block address.
   */
  lemma RangeExactly(v6: V6, cidr: string, last: string, taken: set<string>)
    requires Next(v6, cidr, last, taken).Found?
    ensures ReadCidr(v6, cidr).Some?
    ensures var c, r := ReadCidr(v6, cidr).value, Next(v6, cidr, last, taken);
            var net, l := Masked(c.ip, c.prefix), |c.ip| - 1;
            Contains(net, c.prefix, r.address) <==>
            || (last != "" && ReadAddress(v6, last).Some?)
            || c.prefix <= 8 * l
            || (exists o: Byte :: net[l] < o && Contains(net, c.prefix, WithLast(net, o))
                                  && IpText(v6, WithLast(net, o)) !in taken)
            || (forall o: Byte :: IpText(v6, WithLast(net, o)) in taken || Contains(net, c.prefix, WithLast(net, o)))
  {
    var s := Start(v6, cidr, last, taken).value;
    SearchRange(v6, cidr, last, taken, s);
    hide ReadCidr, ReadAddress, IpText, Contains, Masked, Search.Result, Search.StopFrom;
    if s.aliased {
      forall o: Byte
        ensures s.Free(o) <==> IpText(v6, WithLast(s.net, o)) !in taken
        ensures InBlock(s, o) <==> Contains(s.net, s.prefix, WithLast(s.net, o))
      {
      }
      hide Search.Free, InBlock, WithLast;
    }
  }

  /**
    Range. A resumed search only returns addresses of the CIDR, and so does a fresh one whose block covers all 256
    last octets. In a narrower block, a fresh search stays in the CIDR exactly when some block address after the
    network address is free, or no octet outside the block is.
   */
  lemma SearchRange(v6: V6, cidr: string, last: string, taken: set<string>, s: Search)
    requires Start(v6, cidr, last, taken) == Some(s)
    requires s.Result().Found?
    ensures Contains(s.net, s.prefix, s.Result().address) <==>
            || !s.aliased
            || s.Wide()
            || (exists o: Byte :: s.net[|s.net| - 1] < o && InBlock(s, o) && s.Free(o))
            || (forall o: Byte :: s.Free(o) ==> InBlock(s, o))
  {
    hide ReadCidr, ReadAddress, IpText, Contains, Search.Result;
    var k := FoundIsFirst(s);
    if s.aliased {
      if s.Wide() {
        WideBlockIgnoresLastByte(s.net, s.prefix, s.net, s.Octet(k));
        SelfContained(s.net, s.prefix);
      } else {
        var ip := ReadCidr(v6, cidr).value.ip;
        forall o: Byte
          ensures InBlock(s, o) <==> s.net[|s.net| - 1] <= o < s.net[|s.net| - 1] + Pow2(8 * |s.net| - s.prefix)
        {
          BlockOctets(ip, s.prefix, o);
        }
        hide Search.Free, Search.Passes, InBlock;
        NarrowRange(s, k, s.net[|s.net| - 1] + Pow2(8 * |s.net| - s.prefix));
        assert InBlock(s, s.Octet(k)) == Contains(s.net, s.prefix, s.At(s.Octet(k)));
      }
    }
  }

  lemma SelfContained(net: Ip, prefix: nat)
    ensures Contains(net, prefix, net)
  {
  }

  /** The block's later octets are tested first, then those outside it, and the network octet last. */
  lemma NarrowRange(s: Search, k: nat, end: nat)
    requires s.base == s.net && k < 256 && s.Free(s.Octet(k))
    requires forall j | 0 <= j < k :: !s.Free(s.Octet(j))
    requires forall o: Byte :: InBlock(s, o) <==> s.net[|s.net| - 1] <= o < end
    ensures InBlock(s, s.Octet(k)) <==>
            || (exists o: Byte :: s.net[|s.net| - 1] < o && InBlock(s, o) && s.Free(o))
            || (forall o: Byte :: s.Free(o) ==> InBlock(s, o))
  {
    forall o: Byte | s.Free(o)
      ensures DistanceTo(s, o) >= k
    {
      assert s.Octet(DistanceTo(s, o)) == o;
    }
    assert DistanceTo(s, s.Octet(k)) == k;
  }
}

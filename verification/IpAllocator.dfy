/** Block allocation for the monitoring mesh (internal/utils/ip.go). */
module IpAllocator {
  import opened Wrappers
  import opened Ipv4
  import opened Subnet

  /** The address `offset` above base, in 32-bit arithmetic. */
  function HostAddress(base: Address, offset: nat): Address {
    OfWord(Sum32(ToWord(base), offset))
  }

  /** Addition that wraps around at 2^32. */
  function Sum32(u: Word, v: nat): (s: Word)
    ensures u + v < TWO32 ==> s == u + v
    ensures TWO32 <= u + v < 2 * TWO32 ==> s == u + v - TWO32
  {
    (u + v) % TWO32
  }

  /** When the allocator grants the request. */
  predicate Allocatable(cidr: string, ipStart: int, count: int) {
    && count >= 1
    && ipStart >= 1
    && var c := ParseCidr(cidr);
       c.Some? && c.value.prefix <= 30 && ipStart + count - 1 <= Size(c.value.prefix) - 2
  }

  /** An offset of a block that is neither its network nor its broadcast address. */
  ghost predicate IsHost(prefix: nat, offset: int)
    requires prefix <= 32
  {
    0 < offset < Size(prefix) - 1
  }

  /** A request is granted exactly if it asks for addresses at all and the offsets of all of them are hosts. */
  lemma AllocatableExactly(cidr: string, ipStart: int, count: int)
    ensures Allocatable(cidr, ipStart, count) <==>
            && ParseCidr(cidr).Some? && count >= 1
            && forall k | ipStart <= k < ipStart + count :: IsHost(ParseCidr(cidr).value.prefix, k)
  {
    hide ParseCidr, Size;
    var c := ParseCidr(cidr);
    if c.Some? && count >= 1 {
      var prefix := c.value.prefix;
      if prefix > 30 {
        TinyBlock(prefix);
      }
      if forall k | ipStart <= k < ipStart + count :: IsHost(prefix, k) {
        assert IsHost(prefix, ipStart) && IsHost(prefix, ipStart + count - 1);
      }
    }
  }

  lemma TinyBlock(prefix: nat)
    requires 30 < prefix <= 32
    ensures Size(prefix) <= 2
  {
    assert Pow2(0) == 1 && Pow2(1) == 2;
  }

  method AllocateIPv4s(cidr: string, ipStart: int, count: int) returns (r: Result<(seq<string>, string)>)
    ensures r.Ok? <==> Allocatable(cidr, ipStart, count)
    ensures r.Ok? ==>
              var c := ParseCidr(cidr).value;
              && |r.value.0| == count
              && (forall i | 0 <= i < count :: r.value.0[i] == Dotted(HostAddress(c.ip, ipStart + i)))
              && r.value.1 == PrefixText(c.prefix)
  {
    hide ParseCidr, Dotted, PrefixText, OfWord, ToWord;
    if count <= 0 {
      return Err("count must be > 0");
    }
    if ipStart < 1 {
      return Err("ipStart must be >= 1");
    }
    var parsed := ParseCidr(cidr);
    if parsed.None? {
      return Err("invalid CIDR");
    }
    var ones := parsed.value.prefix;
    var total := Pow2(32 - ones);
    SmallBlock(ones);
    if total < 4 {
      return Err("CIDR too small / not supported");
    }
    var minHost := 1;
    var maxHost := total - 2;
    var lastHost := ipStart + count - 1;
    if ipStart < minHost || lastHost > maxHost {
      return Err("cannot allocate from start");
    }
    var baseU := ToWord(parsed.value.ip);
    assert lastHost < TWO32 by {
      BlockFits(parsed.value.ip, ones);
    }
    var ips: seq<string> := [];
    for i := 0 to count
      invariant |ips| == i
      invariant forall j | 0 <= j < i :: ips[j] == Dotted(HostAddress(parsed.value.ip, ipStart + j))
    {
      var hostOffset: Word := ipStart + i;  // the conversion to 32 bits loses nothing
      ips := ips + [Dotted(OfWord(Sum32(baseU, hostOffset)))];
    }
    return Ok((ips, PrefixText(ones)));
  }

  lemma SmallBlock(prefix: nat)
    requires prefix <= 32
    ensures Size(prefix) < 4 <==> prefix > 30
  {
    assert Pow2(0) == 1 && Pow2(1) == 2 && Pow2(2) == 4;
    if prefix <= 30 {
      Pow2Add(2, 30 - prefix);
      var p := Pow2(30 - prefix);
      assert 4 * p >= 4;
    }
  }

  /** Offsets below 2^32 apart name different addresses, wrap-around or not. */
  lemma HostsDistinct(base: Address, m: nat, n: nat)
    requires m < n < TWO32
    ensures HostAddress(base, m) != HostAddress(base, n)
    ensures Dotted(HostAddress(base, m)) != Dotted(HostAddress(base, n))
  {
    WordRoundTrip(Sum32(ToWord(base), m));
    WordRoundTrip(Sum32(ToWord(base), n));
    if Dotted(HostAddress(base, m)) == Dotted(HostAddress(base, n)) {
      DottedInjective(HostAddress(base, m), HostAddress(base, n));
    }
  }

  /**
    With host part h (the bits of the written address that the mask clears), the address at an offset
    lies in the subnet exactly when h + offset stays below the block size; the /0 block holds everything.
    An allocated offset never reaches 2^32.
   */
  lemma InSubnetExactly(base: Address, prefix: nat, offset: nat)
    requires prefix <= 30 && offset <= Size(prefix) - 2
    ensures var net := Masked(base, prefix);
            var h := ToWord(base) - ToWord(net);
            Contains(net, prefix, HostAddress(base, offset)) <==> prefix == 0 || h + offset < Size(prefix)
  {
    var net := Masked(base, prefix);
    BlockFits(base, prefix);
    ContainsIsInterval(base, prefix, HostAddress(base, offset));
    WordRoundTrip(Sum32(ToWord(base), offset));
    if prefix == 0 {
      Pow2Word();
    } else {
      HalfSpace(prefix);
    }
  }

  lemma HalfSpace(prefix: nat)
    requires 1 <= prefix <= 32
    ensures 2 * Size(prefix) <= TWO32
  {
    Pow2Word();
    Pow2Add(prefix - 1, 33 - prefix);
    var p, s := Pow2(prefix - 1), Pow2(33 - prefix);
    assert p * s >= s;
  }

  /**
    Written with zero host bits, a granted block is consecutive addresses of the subnet, computed
    without wrap-around, none of them the network address and none the broadcast address.
   */
  lemma AllocatedBlock(cidr: string, ipStart: int, count: int, i: nat)
    requires Allocatable(cidr, ipStart, count) && i < count
    requires var c := ParseCidr(cidr).value; Masked(c.ip, c.prefix) == c.ip
    ensures var c := ParseCidr(cidr).value;
            var a := HostAddress(c.ip, ipStart + i);
            && ToWord(a) == ToWord(c.ip) + ipStart + i
            && Contains(c.ip, c.prefix, a)
            && ToWord(c.ip) < ToWord(a) < ToWord(c.ip) + Size(c.prefix) - 1
  {
    hide ToWord, OfWord, Masked, Contains, ParseCidr, Size;
    var c := ParseCidr(cidr).value;
    BlockFits(c.ip, c.prefix);
    WordRoundTrip(Sum32(ToWord(c.ip), ipStart + i));
    InSubnetExactly(c.ip, c.prefix, ipStart + i);
  }

  /**
    A written host part is not refused: the whole grant lies in the subnet exactly when the host part plus the
    last offset stays below the block size, which the allocator does not test.
   */
  lemma GrantInSubnetExactly(cidr: string, ipStart: int, count: int)
    requires Allocatable(cidr, ipStart, count)
    ensures var c := ParseCidr(cidr).value;
            var net := Masked(c.ip, c.prefix);
            (forall k | ipStart <= k < ipStart + count :: Contains(net, c.prefix, HostAddress(c.ip, k)))
            <==> c.prefix == 0 || ToWord(c.ip) - ToWord(net) + ipStart + count - 1 < Size(c.prefix)
  {
    hide ParseCidr, Masked, Contains, HostAddress, ToWord, Size;
    var c := ParseCidr(cidr).value;
    var net := Masked(c.ip, c.prefix);
    forall k | ipStart <= k < ipStart + count
      ensures Contains(net, c.prefix, HostAddress(c.ip, k))
              <==> c.prefix == 0 || ToWord(c.ip) - ToWord(net) + k < Size(c.prefix)
    {
      InSubnetExactly(c.ip, c.prefix, k);
    }
    var last := ipStart + count - 1;
    assert Contains(net, c.prefix, HostAddress(c.ip, last))
           <==> c.prefix == 0 || ToWord(c.ip) - ToWord(net) + last < Size(c.prefix);
  }

  /** Written with host bits, 10.0.0.128/24 is granted 200 addresses from offset 2 on, and leaves its subnet. */
  lemma GrantEscapes(base: Address)
    requires base == [10, 0, 0, 128]
    ensures var cidr := Dotted(base) + PrefixText(24);
            && Allocatable(cidr, 2, 200)
            && exists k | 2 <= k < 202 :: !Contains(Masked(base, 24), 24, HostAddress(base, k))
  {
    var cidr := Dotted(base) + PrefixText(24);
    ParseWritten(base, 24);
    MaskedWord(base, 24);
    assert Size(24) == 256 by {
      Pow2Byte(0);
    }
    assert ToWord(base) == 0x0A00_0080;
    hide ParseCidr, Dotted, PrefixText, Contains, Masked, HostAddress, ToWord;
    GrantInSubnetExactly(cidr, 2, 200);
  }
}

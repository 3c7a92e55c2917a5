/** What a long run of automatic allocations on one network hands out. */
module AllocationRuns {
  import opened Wrappers
  import opened Text
  import opened Ipv4
  import opened IpTexts
  import opened Subnet
  import opened AddressSearch
  import opened Admission

  function PrefixOf(n: Network): (p: nat)
    requires ParseCidr(n.Range()).Some?
    ensures p <= 32
  {
    ParseCidr(n.Range()).value.prefix
  }

  /** Up to the capacity, request i (counting from 0) gets place i + 1. */
  lemma {:induction false} Consecutive(v6: V6, n: Network, rs: seq<Request>)
    requires Empty(n) && Automatic(rs) && |rs| <= Capacity(PrefixOf(n))
    ensures After(v6, n, rs).Some?
    ensures var m := After(v6, n, rs).value;
            m.cidr == n.cidr && m.podRange == n.podRange && Allocated(m, NetOf(n), |rs|)
    ensures forall i: nat | i < |rs| :: AutoAddress(v6, n, rs, i) == Some(Place(NetOf(n), i + 1))
    decreases |rs|
  {
    hide ParseCidr, ParseAddress, Dotted, Next, Masked, PrefixText, Capacity, Place, Allocated, Assign;
    if rs == [] {
      NothingAllocated(n);
    } else {
      var front, r := rs[..|rs| - 1], rs[|rs| - 1];
      assert r in rs;
      Consecutive(v6, n, front);
      ParseEmpty();
      var m := After(v6, n, front).value;
      NextAllocation(v6, m, r, NetOf(n), |front|);
      AllocatedStep(m, NetOf(n), |front|, r);
      assert AutoAddress(v6, n, rs, |front|) == Some(Place(NetOf(n), |rs|));
      assert After(v6, n, rs) == Some(Assign(v6, m, r).network);
      forall i: nat | i < |front|
        ensures AutoAddress(v6, n, rs, i) == Some(Place(NetOf(n), i + 1))
      {
        assert front[..i] == rs[..i] && front[i] == rs[i];
        assert AutoAddress(v6, n, front, i) == AutoAddress(v6, n, rs, i);
      }
    }
  }

  lemma NothingAllocated(n: Network)
    requires Empty(n)
    ensures Allocated(n, NetOf(n), 0)
  {
    hide ParseCidr, Dotted, Place;
  }

  lemma AllocatedStep(m: Network, net: Address, k: nat, r: Request)
    requires Allocated(m, net, k)
    ensures var key := Dotted(Place(net, k + 1));
            Allocated(m.(last := key, connected := m.connected + 1).Record(key, r.pod), net, k + 1)
  {
    hide Dotted, Place;
    var key := Dotted(Place(net, k + 1));
    var m' := m.(last := key, connected := m.connected + 1).Record(key, r.pod);
    assert m'.Assigned().Keys == m.Assigned().Keys + {key};
    forall i: nat | 1 <= i <= k + 1
      ensures Dotted(Place(net, i)) in m'.Assigned().Keys
    {
      if i <= k {
        assert Dotted(Place(net, i)) in m.Assigned().Keys;
      }
    }
    forall other | other in m'.Assigned().Keys
      ensures exists i: nat :: 1 <= i <= k + 1 && other == Dotted(Place(net, i))
    {
      if other != key {
        var i: nat :| 1 <= i <= k && other == Dotted(Place(net, i));
        assert 1 <= i <= k + 1 && other == Dotted(Place(net, i));
      } else {
        assert 1 <= k + 1 <= k + 1 && other == Dotted(Place(net, k + 1));
      }
    }
  }

  /**
    On an empty network whose range is a /24 or shorter, the first 256 automatic addresses are the last octets
    1 to 255 and then 0: each octet exactly once. The next automatic request never returns.
   */
  lemma WideBlockFills(v6: V6, n: Network, rs: seq<Request>, next: Request)
    requires Empty(n) && Automatic(rs) && |rs| == 256 && next.ips == []
    requires PrefixOf(n) <= 24
    ensures forall i: nat | i < 256 ::
              AutoAddress(v6, n, rs, i) == Some(NetOf(n)[3 := if i == 255 then 0 else i + 1])
    ensures After(v6, n, rs).Some? && Assign(v6, After(v6, n, rs).value, next).Hangs?
  {
    hide ParseCidr, ParseAddress, Dotted, Masked, Contains, Next, Allocated, After, AutoAddress, Place, Assign;
    BlockStartsEven(ParseCidr(n.Range()).value.ip, PrefixOf(n));
    Consecutive(v6, n, rs);
    var m := After(v6, n, rs).value;
    FullOctetHangs(v6, m, NetOf(n));
    HangsWithSearch(v6, m, next);
    forall i: nat | i < 256
      ensures AutoAddress(v6, n, rs, i) == Some(NetOf(n)[3 := if i == 255 then 0 else i + 1])
    {
      PlaceFromZero(NetOf(n), i + 1);
    }
  }

  lemma PlaceFromZero(net: Address, i: nat)
    requires net[3] == 0 && i <= 256
    ensures Place(net, i) == net[3 := if i == 256 then 0 else i]
  {
  }

  lemma HangsWithSearch(v6: V6, m: Network, r: Request)
    requires ParseCidr(m.cidr).Some? && r.ips == []
    requires Next(v6, m.Range(), m.last, m.Assigned().Keys).Spins?
    ensures Assign(v6, m, r).Hangs?
  {
    hide ParseCidr, Next;
    ParseEmpty();
  }

  lemma FullOctetHangs(v6: V6, m: Network, net: Address)
    requires ParseCidr(m.Range()).Some? && net == NetOf(m) && Allocated(m, net, 256)
    requires PrefixOf(m) <= 24
    ensures Next(v6, m.Range(), m.last, m.Assigned().Keys).Spins?
  {
    hide ParseCidr, ParseAddress, Dotted, Masked, Contains;
    var s := Start(v6, m.Range(), m.last, m.Assigned().Keys).value;
    FirstPlace(v6, m, s, net, 256);
    PlaceInBlock(ParseCidr(m.Range()).value.ip, PrefixOf(m), 256);
    ParseDotted(Place(net, 256));
    assert s.base == Place(net, 256);
    NoOctetLeft(m, s, net);
    HaltsExactly(s);
    HaltsWithinOneRound(s);
  }

  lemma NoOctetLeft(m: Network, s: Search, net: Address)
    requires Allocated(m, net, 256) && s.taken == m.Assigned().Keys && s.base == Place(net, 256)
    ensures !SomeOctetFree(s)
  {
    hide Dotted, Place, Allocated;
    forall o: Byte
      ensures !s.Free(o)
    {
      var i := PlaceOf(net, o);
      assert Place(net, i) == s.At(o);
      TakenPlace(m, net, 256, i);
    }
  }

  /** The place at which an octet is reached. */
  lemma PlaceOf(net: Address, o: Byte) returns (i: nat)
    ensures 1 <= i <= 256 && Place(net, i) == Place(net, 256)[3 := o]
  {
    i := if o > net[3] then o - net[3] else o as int - net[3] as int + 256;
  }

  lemma TakenPlace(m: Network, net: Address, k: nat, i: nat)
    requires Allocated(m, net, k) && 1 <= i <= k
    ensures Dotted(Place(net, i)) in m.Assigned().Keys
  {
  }

  /** The key recorded for a mask without an address is no address of the network. */
  lemma FailedKey(v6: V6, prefix: nat, a: Address)
    requires v6.Lawful()
    ensures RecordKey(v6, PrefixText(prefix)) != Dotted(a)
  {
    var text := PrefixText(prefix);
    assert IndexOf(text, '/') == 0 && text[..0] == "";
    ParseEmpty();
    assert ParseCidr(text).None?;
    NoColon(a);
    DottedStart(a);
    assert "<nil>"[0] == '<';
  }

  /**
    On an empty network whose range is /25 to /31, the automatic requests that follow the capacity go wrong in
    turn: the first is written a prefix without an address and forgets the last address, so the search starts
    afresh; the second is then given an address outside the range.
   */
  lemma NarrowBlockEscapes(v6: V6, n: Network, rs: seq<Request>, r1: Request, r2: Request)
    requires v6.Lawful()
    requires Empty(n) && Automatic(rs) && r1.ips == [] && r2.ips == []
    requires 25 <= PrefixOf(n) <= 31 && |rs| == Capacity(PrefixOf(n))
    ensures After(v6, n, rs).Some?
    ensures var t1 := Assign(v6, After(v6, n, rs).value, r1);
            && t1.Granted? && t1.ips == [PrefixText(ParseCidr(n.cidr).value.prefix)] && t1.network.last == ""
            && var a := Place(NetOf(n), |rs| + 1);
               var t2 := Assign(v6, t1.network, r2);
               && t2.Granted? && t2.ips == [Dotted(a) + PrefixText(ParseCidr(n.cidr).value.prefix)]
               && !Contains(NetOf(n), PrefixOf(n), a)
  {
    hide ParseCidr, ReadCidr, Dotted, IpText, Masked, Contains, PrefixText, Place, RecordKey, Capacity, Allocated,
         After, Next, Assign, V6.Lawful;
    var net, k := NetOf(n), |rs|;
    Consecutive(v6, n, rs);
    var m := After(v6, n, rs).value;
    var t1 := Assign(v6, m, r1);
    var mask := PrefixText(ParseCidr(n.cidr).value.prefix);
    CapacityPositive(PrefixOf(n));
    NarrowPlaces(n, k);
    ResumeFails(v6, m, net, k);
    AssignNotFound(v6, m, r1);
    FailedKey(v6, ParseCidr(n.cidr).value.prefix, Place(net, k + 1));
    FreshEscapes(v6, m, t1.network, net, k, RecordKey(v6, mask));
    AssignFound(v6, t1.network, r2, Place(net, k + 1));
  }

  lemma NarrowPlaces(n: Network, k: nat)
    requires ParseCidr(n.Range()).Some? && 25 <= PrefixOf(n) <= 31 && k == Capacity(PrefixOf(n))
    ensures k <= 127 && !Contains(NetOf(n), PrefixOf(n), Place(NetOf(n), k + 1))
  {
    hide ParseCidr, Masked, Contains, Place;
    PlaceInBlock(ParseCidr(n.Range()).value.ip, PrefixOf(n), k + 1);
    CapacityBound(ParseCidr(n.Range()).value.ip, PrefixOf(n));
  }

  /** An automatic admission whose search finds nothing. */
  lemma AssignNotFound(v6: V6, n: Network, r: Request)
    requires r.ips == [] && ParseCidr(n.cidr).Some? && Next(v6, n.Range(), n.last, n.Assigned().Keys).NotFound?
    ensures var mask := PrefixText(ParseCidr(n.cidr).value.prefix);
            var served := n.(last := "", connected := n.connected + 1);
            Assign(v6, n, r) == Granted(served.Record(RecordKey(v6, mask), r.pod), [mask])
  {
    hide ParseCidr, ReadCidr, PrefixText, RecordKey, Next;
    ParseEmpty();
    var mask := PrefixText(ParseCidr(n.cidr).value.prefix);
    assert "" + mask == mask;
  }

  /** An automatic admission whose search finds an IPv4 address. */
  lemma AssignFound(v6: V6, n: Network, r: Request, a: Address)
    requires r.ips == [] && ParseCidr(n.cidr).Some?
    requires var o := Next(v6, n.Range(), n.last, n.Assigned().Keys); o.Found? && o.address == a
    ensures Assign(v6, n, r).Granted?
    ensures Assign(v6, n, r).ips == [Dotted(a) + PrefixText(ParseCidr(n.cidr).value.prefix)]
  {
    hide ParseCidr, ReadCidr, Dotted, PrefixText, RecordKey, Next;
    ParseEmpty();
  }

  lemma CapacityPositive(prefix: nat)
    requires 25 <= prefix <= 31
    ensures Capacity(prefix) >= 1
  {
    Pow2Grows(1, 32 - prefix);
    assert Pow2(1) == 2 * Pow2(0) == 2;
  }

  lemma ResumeFails(v6: V6, m: Network, net: Address, k: nat)
    requires ParseCidr(m.Range()).Some? && net == NetOf(m) && Allocated(m, net, k) && k > 0
    requires !Contains(net, PrefixOf(m), Place(net, k + 1))
    ensures Next(v6, m.Range(), m.last, m.Assigned().Keys).NotFound?
  {
    hide ParseCidr, ParseAddress, Dotted, Masked, Contains, Place;
    var s := Start(v6, m.Range(), m.last, m.Assigned().Keys).value;
    FirstPlace(v6, m, s, net, k);
    FirstFit(s, 0);
  }

  lemma FreshEscapes(v6: V6, m: Network, m': Network, net: Address, k: nat, key: string)
    requires ParseCidr(m.Range()).Some? && net == NetOf(m) && Allocated(m, net, k) && 1 <= k <= 127
    requires m'.Range() == m.Range() && m'.last == "" && m'.Assigned().Keys == m.Assigned().Keys + {key}
    requires key != Dotted(Place(net, k + 1))
    ensures var t := Next(v6, m'.Range(), m'.last, m'.Assigned().Keys);
            t.Found? && t.address == Place(net, k + 1)
  {
    hide ParseCidr, ParseAddress, Dotted, Masked, Contains, Place;
    ParseEmpty();
    var s := Start(v6, m'.Range(), m'.last, m'.Assigned().Keys).value;
    forall j: nat
      ensures s.At(s.Octet(j)) == Place(net, j + 1)
    {
      PlaceAfter(net, 0, j);
      assert s.base == net;
      FreshPlace(s, j);
    }
    forall j: nat
      ensures s.Passes(s.Octet(j))
    {
      FreshNeverLeaves(s, s.Octet(j));
    }
    forall i: nat | 1 <= i <= k
      ensures Dotted(Place(net, i)) != Dotted(Place(net, k + 1))
    {
      PlacesDiffer(net, i, k + 1);
    }
    assert s.Free(s.Octet(k));
    forall j: nat | j < k
      ensures !s.Free(s.Octet(j))
    {
      assert Dotted(Place(net, j + 1)) in m.Assigned().Keys;
    }
    FirstFit(s, k);
  }

  lemma FreshPlace(s: Search, j: nat)
    requires |s.base| == 4
    ensures s.At(s.Octet(j)) == Place(s.base, j + 1)
  {
  }
}

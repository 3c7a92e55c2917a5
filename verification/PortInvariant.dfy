/**
  Port exclusivity: no two owners on a node hold the same interface, and every held interface carries the used
  label, so that it is never offered again. Every used label is accounted for by an owner or by a lost port.
*/
module PortInvariant {
  import opened Finalizers
  import opened NadNames
  import opened IpTexts
  import opened Admission
  import opened PodAdmission
  import opened Cluster

  /** Who may hold an interface: a position in a pod's lists, or a network that took it. */
  datatype Owner = Slot(pod: string, index: nat) | Taker(grab: Grab)

  ghost predicate Has(s: State, o: Owner, h: Hold) {
    match o
    case Slot(p, i) => p in s.pods && s.pods[p].Owns() && i < s.pods[p].Slots() && h == s.pods[p].HoldAt(i)
    case Taker(g) => g in s.grabs && h == g.at
  }

  ghost predicate Used(s: State, h: Hold) {
    h.nad in s.nads && MarkedUsed(s.nads[h.nad], h.node)
  }

  ghost predicate Labelled(s: State) {
    forall o, h :: Has(s, o, h) ==> Used(s, h)
  }

  ghost predicate Exclusive(s: State) {
    forall o1, o2, h :: Has(s, o1, h) && Has(s, o2, h) ==> o1 == o2
  }

  ghost predicate LostForGood(s: State) {
    forall h | h in s.lost :: Used(s, h) && forall o :: !Has(s, o, h)
  }

  ghost predicate Accounted(s: State) {
    forall h | Used(s, h) :: h in s.lost || exists o :: Has(s, o, h)
  }

  /** The interfaces of one overlay: all labelled as its own, each with a port number no other one has. */
  ghost predicate Pool(nads: map<string, Labels>) {
    && (forall x | x in nads :: "app" in nads[x] && nads[x]["app"] == "l2sm" && PortNumber(x).Ok?)
    && (forall x, y | x in nads && y in nads && x != y :: PortNumber(x) != PortNumber(y))
  }

  /** The Multus list Handle writes is as long as the list it was asked to serve. */
  ghost predicate Matched(s: State) {
    forall p | p in s.pods :: s.pods[p].multus.Some? ==> SameLength(s.pods[p])
  }

  ghost predicate Ports(s: State) {
    Labelled(s) && Exclusive(s) && LostForGood(s) && Accounted(s)
  }

  ghost predicate Inv(s: State) {
    Ports(s) && Pool(s.nads) && Matched(s)
  }

  /** A cluster right after the overlay created its interfaces. */
  ghost predicate Initial(s: State, overlay: string, size: nat) {
    && (forall x :: x in s.nads <==> exists i: nat :: 1 <= i <= size && x == NadName(overlay, i))
    && (forall x | x in s.nads :: s.nads[x] == map["app" := "l2sm", "overlay" := overlay])
    && s.pods == map[] && s.sdn == {} && s.grabs == {} && s.lost == {} && s.stale == {}
  }

  lemma InitialInv(s: State, overlay: string, size: nat)
    requires Initial(s, overlay, size)
    ensures Inv(s)
  {
    hide NadName, PortNumber;
    forall x | x in s.nads
      ensures PortNumber(x).Ok?
    {
      var i: nat :| 1 <= i <= size && x == NadName(overlay, i);
      PortsDistinct(overlay, i, i + 1);
    }
    forall x, y | x in s.nads && y in s.nads && x != y
      ensures PortNumber(x) != PortNumber(y)
    {
      var i: nat :| 1 <= i <= size && x == NadName(overlay, i);
      var j: nat :| 1 <= j <= size && y == NadName(overlay, j);
      PortsDistinct(overlay, i, j);
    }
    forall h
      ensures !Used(s, h)
    {
      KeysDiffer(h.node, h.node);
    }
  }

  /** The label keys of different nodes are different, and none is the "app" or the "overlay" label. */
  lemma KeysDiffer(m: string, n: string)
    ensures LabelKey(m) == LabelKey(n) ==> m == n
    ensures LabelKey(m) != "app" && LabelKey(m) != "overlay"
  {
    assert LabelKey(m)[5..] == m && LabelKey(n)[5..] == n;
    assert LabelKey(m)[0] == 'u';
  }

  // ---------- three ways a step can move ports ----------

  /** New owners get interfaces that were not used, and these become used. */
  lemma GrantKeeps(s: State, s': State, grants: map<Owner, Hold>)
    requires Ports(s) && s'.lost == s.lost
    requires forall o, h :: Has(s', o, h) <==> Has(s, o, h) || (o in grants && grants[o] == h)
    requires forall o, h | o in grants :: !Has(s, o, h)
    requires forall o | o in grants :: !Used(s, grants[o])
    requires forall o1, o2 | o1 in grants && o2 in grants && grants[o1] == grants[o2] :: o1 == o2
    requires forall h :: Used(s', h) <==> Used(s, h) || h in grants.Values
    ensures Ports(s')
  {
    forall h | Used(s', h)
      ensures h in s'.lost || exists o :: Has(s', o, h)
    {
      if Used(s, h) {
        if h !in s.lost {
          var o :| Has(s, o, h);
          assert Has(s', o, h);
        }
      } else {
        var o :| o in grants && grants[o] == h;
        assert Has(s', o, h);
      }
    }
  }

  /** Owners go, and what they held becomes free. */
  lemma ReleaseKeeps(s: State, s': State, gone: set<Owner>)
    requires Ports(s) && s'.lost == s.lost
    requires forall o, h :: Has(s', o, h) <==> Has(s, o, h) && o !in gone
    requires forall h :: Used(s', h) <==> Used(s, h) && !exists o :: o in gone && Has(s, o, h)
    ensures Ports(s')
  {
    forall h | Used(s', h)
      ensures h in s'.lost || exists o :: Has(s', o, h)
    {
      if h !in s.lost {
        var o :| Has(s, o, h);
        assert Has(s', o, h);
      }
    }
    forall o, h | Has(s', o, h)
      ensures Used(s', h)
    {
      assert Has(s, o, h) && o !in gone;
    }
  }

  /** Owners go, and what they held stays labelled: it is lost. */
  lemma LoseKeeps(s: State, s': State, gone: set<Owner>)
    requires Ports(s)
    requires forall o, h :: Has(s', o, h) <==> Has(s, o, h) && o !in gone
    requires forall h :: Used(s', h) <==> Used(s, h)
    requires forall h :: h in s'.lost <==> h in s.lost || exists o :: o in gone && Has(s, o, h)
    ensures Ports(s')
  {
    forall h | Used(s', h)
      ensures h in s'.lost || exists o :: Has(s', o, h)
    {
      if h !in s.lost {
        var o :| Has(s, o, h);
        assert o !in gone ==> Has(s', o, h);
      }
    }
  }

  /** Unused interfaces become used without an owner. */
  lemma WasteKeeps(s: State, s': State, wasted: set<Hold>)
    requires Ports(s) && s'.lost == s.lost + wasted
    requires forall o, h :: Has(s', o, h) <==> Has(s, o, h)
    requires forall h :: Used(s', h) <==> Used(s, h) || h in wasted
    requires forall h | h in wasted :: !Used(s, h)
    ensures Ports(s')
  {
    forall h | Used(s', h)
      ensures h in s'.lost || exists o :: Has(s', o, h)
    {
      if h !in s'.lost {
        var o :| Has(s, o, h);
        assert Has(s', o, h);
      }
    }
  }

  /** Neither owners nor labels change. */
  lemma SameKeeps(s: State, s': State)
    requires Ports(s) && s'.lost == s.lost
    requires forall o, h :: Has(s', o, h) <==> Has(s, o, h)
    requires forall h :: Used(s', h) <==> Used(s, h)
    ensures Ports(s')
  {
    ReleaseKeeps(s, s', {});
  }

  // ---------- labels ----------

  lemma RelabelUsed(s: State, names: set<string>, node: string, value: string)
    ensures forall h :: Used(s.(nads := Relabel(s.nads, names, node, value)), h) <==>
              if h.nad in names && h.node == node then h.nad in s.nads && value == "true" else Used(s, h)
  {
    var s' := s.(nads := Relabel(s.nads, names, node, value));
    forall h
      ensures Used(s', h) <==>
              if h.nad in names && h.node == node then h.nad in s.nads && value == "true" else Used(s, h)
    {
      KeysDiffer(h.node, node);
    }
  }

  lemma RelabelPool(nads: map<string, Labels>, names: set<string>, node: string, value: string)
    requires Pool(nads)
    ensures Pool(Relabel(nads, names, node, value))
  {
    KeysDiffer(node, node);
  }

  // ---------- Handle ----------

  function Granted(name: string, node: string, free: seq<string>, n: nat): map<Owner, Hold>
    requires n <= |free|
  {
    map o | o in (set i: nat | i < n :: Slot(name, i)) :: Hold(node, free[o.index])
  }

  /** The pod Handle leaves behind. */
  lemma HandlePod(v6: V6, s: State, name: string, picked: string, order: seq<string>, linkLocals: seq<string>,
                  lostWrites: set<nat>)
    requires Grants(s, name, picked, order) && Returns(v6, s, name, picked, order, linkLocals)
    ensures var s' := Handle(v6, s, name, picked, order, linkLocals, lostWrites);
            var node, n := NodeFor(s.pods[name], picked), |s.pods[name].l2sm.value|;
            var free := FreeNads(order, s.nads, node);
            && name in s'.pods && s'.pods == s.pods[name := s'.pods[name]] && s'.grabs == s.grabs
            && s'.nads == Relabel(s.nads, Taken(free, n, lostWrites), node, "true")
            && s'.pods[name].Owns() && s'.pods[name].Slots() == n
            && forall i: nat | i < n :: s'.pods[name].HoldAt(i) == Hold(node, free[i])
  {
    hide Served, FreeNads, Relabel, Taken;
    var wanted := s.pods[name].l2sm.value;
    ServedShape(v6, s.networks, wanted, name, linkLocals, |wanted|);
  }

  /** A pod without ports that gets n of them is n new owners. */
  lemma PodGains(s: State, s': State, name: string, node: string, free: seq<string>, n: nat)
    requires name in s.pods && s.pods[name].Slots() == 0 && n <= |free| && s'.grabs == s.grabs
    requires name in s'.pods && s'.pods == s.pods[name := s'.pods[name]]
    requires s'.pods[name].Owns() && s'.pods[name].Slots() == n
    requires forall i: nat | i < n :: s'.pods[name].HoldAt(i) == Hold(node, free[i])
    ensures var grants := Granted(name, node, free, n);
            && (forall o, h :: Has(s', o, h) <==> Has(s, o, h) || (o in grants && grants[o] == h))
            && (forall o, h | o in grants :: !Has(s, o, h))
  {
    hide Pod.HoldAt;
  }

  /** Handle gives each listed network its own interface, none of which was used before. */
  lemma HandleOwners(v6: V6, s: State, name: string, picked: string, order: seq<string>, linkLocals: seq<string>,
                     lostWrites: set<nat>)
    requires Lists(order, s.nads) && Grants(s, name, picked, order) && Returns(v6, s, name, picked, order, linkLocals)
    ensures var s' := Handle(v6, s, name, picked, order, linkLocals, lostWrites);
            var node, n := NodeFor(s.pods[name], picked), |s.pods[name].l2sm.value|;
            var free := FreeNads(order, s.nads, node);
            var grants := Granted(name, node, free, n);
            && (forall o, h :: Has(s', o, h) <==> Has(s, o, h) || (o in grants && grants[o] == h))
            && (forall o, h | o in grants :: !Has(s, o, h))
            && (forall o | o in grants :: !Used(s, grants[o]))
            && (forall o1, o2 | o1 in grants && o2 in grants && grants[o1] == grants[o2] :: o1 == o2)
            && (forall h :: Used(s', h) <==> Used(s, h) || (h.node == node && h.nad in Taken(free, n, lostWrites)))
  {
    var node, n := NodeFor(s.pods[name], picked), |s.pods[name].l2sm.value|;
    var free := FreeNads(order, s.nads, node);
    var s' := Handle(v6, s, name, picked, order, linkLocals, lostWrites);
    HandlePod(v6, s, name, picked, order, linkLocals, lostWrites);
    PodGains(s, s', name, node, free, n);
    hide Handle, FreeNads, Relabel, Has, Taken;
    RelabelUsed(s, Taken(free, n, lostWrites), node, "true");
    assert forall h :: Used(s', h) == Used(s.(nads := s'.nads), h);
    GrantedAreFree(s, order, name, node, n);
    hide Used, Granted, Pod.HoldAt;
  }

  /** What is granted was unused, and each interface is granted once. */
  lemma GrantedAreFree(s: State, order: seq<string>, name: string, node: string, n: nat)
    requires Lists(order, s.nads) && n <= |FreeNads(order, s.nads, node)|
    ensures var grants := Granted(name, node, FreeNads(order, s.nads, node), n);
            && (forall o | o in grants :: !Used(s, grants[o]))
            && (forall o1, o2 | o1 in grants && o2 in grants && grants[o1] == grants[o2] :: o1 == o2)
  {
    hide FreeNads, MarkedUsed;
    DistinctFree(order, s.nads, node);
    var grants := Granted(name, node, FreeNads(order, s.nads, node), n);
    forall o | o in grants
      ensures !Used(s, grants[o])
    {
      FreeIsUnused(s, order, node, o.index);
    }
  }

  /**
    When Handle finds enough interfaces, the invariant survives exactly if every label update goes through:
    a single lost write leaves a held interface that is offered again.
   */
  lemma HandleKeepsExactly(v6: V6, s: State, name: string, picked: string, order: seq<string>, linkLocals: seq<string>,
                           lostWrites: set<nat>)
    requires Inv(s) && Lists(order, s.nads)
    requires Grants(s, name, picked, order) && Returns(v6, s, name, picked, order, linkLocals)
    ensures Inv(Handle(v6, s, name, picked, order, linkLocals, lostWrites)) <==>
            forall i | i in lostWrites :: i >= |s.pods[name].l2sm.value|
    ensures var s' := Handle(v6, s, name, picked, order, linkLocals, lostWrites);
            Inv(s') || exists o, h :: Has(s', o, h) && !Used(s', h)
  {
    hide Has, Used, Handle, FreeNads, Returns, Pool, Matched, Relabel;
    var pod := s.pods[name];
    var node, n := NodeFor(pod, picked), |pod.l2sm.value|;
    var free := FreeNads(order, s.nads, node);
    var grants := Granted(name, node, free, n);
    var s' := Handle(v6, s, name, picked, order, linkLocals, lostWrites);
    HandleOwners(v6, s, name, picked, order, linkLocals, lostWrites);
    HandleRest(v6, s, name, picked, order, linkLocals, lostWrites);
    if forall i | i in lostWrites :: i >= n {
      TakenAll(name, node, free, n, lostWrites);
      GrantKeeps(s, s', grants);
    } else {
      var i :| i in lostWrites && i < n;
      assert Slot(name, i) in grants && grants[Slot(name, i)] == Hold(node, free[i]);
      assert Has(s', Slot(name, i), Hold(node, free[i]));
      DistinctFree(order, s.nads, node);
      assert free[i] !in Taken(free, n, lostWrites);
      assert !Used(s', Hold(node, free[i]));
    }
  }

  lemma DistinctFree(order: seq<string>, nads: map<string, Labels>, node: string)
    requires Lists(order, nads)
    ensures var free := FreeNads(order, nads, node);
            forall i, j | 0 <= i < |free| && 0 <= j < |free| && free[i] == free[j] :: i == j
  {
    var free := FreeNads(order, nads, node);
    assert forall i, j | 0 <= i < j < |free| :: free[i] != free[j];
  }

  lemma TakenAll(name: string, node: string, free: seq<string>, n: nat, lostWrites: set<nat>)
    requires n <= |free| && forall i | i in lostWrites :: i >= n
    ensures var grants := Granted(name, node, free, n);
            forall h: Hold :: (h.node == node && h.nad in Taken(free, n, lostWrites)) <==> h in grants.Values
  {
    var grants := Granted(name, node, free, n);
    forall h: Hold | h.node == node && h.nad in Taken(free, n, lostWrites)
      ensures h in grants.Values
    {
      var i: nat :| i < n && i !in lostWrites && h.nad == free[i];
      assert Slot(name, i) in grants && grants[Slot(name, i)] == h;
    }
  }

  lemma HandleRest(v6: V6, s: State, name: string, picked: string, order: seq<string>, linkLocals: seq<string>,
                   lostWrites: set<nat>)
    requires Inv(s) && name in s.pods && Returns(v6, s, name, picked, order, linkLocals)
    ensures var s' := Handle(v6, s, name, picked, order, linkLocals, lostWrites);
            && Pool(s'.nads) && Matched(s')
            && s'.lost == s.lost && s'.grabs == s.grabs && s'.sdn == s.sdn && s'.stale == s.stale
    ensures !Grants(s, name, picked, order) ==> Ports(Handle(v6, s, name, picked, order, linkLocals, lostWrites))
  {
    hide Served, FreeNads, Relabel, Pool;
    var pod := s.pods[name];
    var s' := Handle(v6, s, name, picked, order, linkLocals, lostWrites);
    if Grants(s, name, picked, order) {
      var node, wanted := NodeFor(pod, picked), pod.l2sm.value;
      ServedShape(v6, s.networks, wanted, name, linkLocals, |wanted|);
      RelabelPool(s.nads, Taken(FreeNads(order, s.nads, node), |wanted|, lostWrites), node, "true");
    } else {
      SameKeeps(s, s');
    }
  }

  /** A first free interface that is not labelled stays the first free one. */
  lemma {:induction false} FirstFreeStays(order: seq<string>, nads: map<string, Labels>, names: set<string>,
                                          node: string)
    requires FreeNads(order, nads, node) != [] && FreeNads(order, nads, node)[0] !in names
    ensures var free := FreeNads(order, Relabel(nads, names, node, "true"), node);
            free != [] && free[0] == FreeNads(order, nads, node)[0]
  {
    if order[0] in nads && IsFree(nads[order[0]], node) {
    } else {
      KeysDiffer(node, node);
      FirstFreeStays(order[1..], nads, names, node);
    }
  }

  /**
    What a lost label write leads to: when the label of the first interface a pod takes is not written, the next
    admission on the same node and the same listing takes that interface again, and two pods own it.
   */
  lemma LostWriteShares(v6: V6, s: State, p: string, q: string, picked: string, order: seq<string>,
                        linkLocals: seq<string>, linkLocals': seq<string>, lostWrites: set<nat>, lostWrites': set<nat>)
    requires Lists(order, s.nads) && p != q && 0 in lostWrites
    requires Grants(s, p, picked, order) && Returns(v6, s, p, picked, order, linkLocals) && s.pods[p].l2sm.value != []
    requires var s1 := Handle(v6, s, p, picked, order, linkLocals, lostWrites);
             && Grants(s1, q, picked, order) && Returns(v6, s1, q, picked, order, linkLocals')
             && s1.pods[q].l2sm.value != []
             && NodeFor(s1.pods[q], picked) == NodeFor(s.pods[p], picked)
    ensures var s1 := Handle(v6, s, p, picked, order, linkLocals, lostWrites);
            var s2 := Handle(v6, s1, q, picked, order, linkLocals', lostWrites');
            exists h :: Has(s2, Slot(p, 0), h) && Has(s2, Slot(q, 0), h)
  {
    hide Handle, FreeNads, Returns, Relabel, Lists;
    var node, n := NodeFor(s.pods[p], picked), |s.pods[p].l2sm.value|;
    var free := FreeNads(order, s.nads, node);
    var s1 := Handle(v6, s, p, picked, order, linkLocals, lostWrites);
    var s2 := Handle(v6, s1, q, picked, order, linkLocals', lostWrites');
    HandlePod(v6, s, p, picked, order, linkLocals, lostWrites);
    HandlePod(v6, s1, q, picked, order, linkLocals', lostWrites');
    DistinctFree(order, s.nads, node);
    assert free[0] !in Taken(free, n, lostWrites);
    FirstFreeStays(order, s.nads, Taken(free, n, lostWrites), node);
    assert s2.pods[p] == s1.pods[p];
    assert Has(s2, Slot(p, 0), Hold(node, free[0])) && Has(s2, Slot(q, 0), Hold(node, free[0]));
  }

  /** An admission that comes to nothing keeps the invariant wherever it stops and whichever label writes are lost. */
  lemma AbandonKeeps(v6: V6, s: State, name: string, picked: string, order: seq<string>, linkLocals: seq<string>,
                     lostWrites: set<nat>, n: nat)
    requires Inv(s) && Lists(order, s.nads) && Grants(s, name, picked, order) && ServesTo(v6, s, name, linkLocals, n)
    ensures Inv(Abandon(v6, s, name, picked, order, linkLocals, lostWrites, n))
  {
    var node := NodeFor(s.pods[name], picked);
    var taken := Taken(FreeNads(order, s.nads, node), n, lostWrites);
    var s' := Abandon(v6, s, name, picked, order, linkLocals, lostWrites, n);
    TakenAreFree(s, order, node, n, lostWrites);
    hide FreeNads, Relabel, Taken, ServesTo, Pod.HoldAt;
    RelabelUsed(s, taken, node, "true");
    RelabelPool(s.nads, taken, node, "true");
    assert forall h :: Used(s', h) == Used(s.(nads := s'.nads), h);
    assert forall o, h :: Has(s', o, h) == Has(s, o, h);
    hide Used, Has, Abandon, Pool, Matched;
    WasteKeeps(s, s', HoldsOn(node, taken));
  }

  lemma TakenAreFree(s: State, order: seq<string>, node: string, n: nat, lostWrites: set<nat>)
    requires n <= |FreeNads(order, s.nads, node)|
    ensures forall x | x in Taken(FreeNads(order, s.nads, node), n, lostWrites) ::
              x in s.nads && !Used(s, Hold(node, x))
  {
    hide FreeNads, MarkedUsed;
    var free := FreeNads(order, s.nads, node);
    forall x | x in Taken(free, n, lostWrites)
      ensures x in s.nads && !Used(s, Hold(node, x))
    {
      var i: nat :| i < n && i !in lostWrites && x == free[i];
      assert free[i] in free;
      FreeIsUnused(s, order, node, i);
    }
  }

  // ---------- deletion by the reconciler ----------

  function SlotsOf(name: string, n: nat): set<Owner> {
    set i: nat | i < n :: Slot(name, i)
  }

  /** A state that differs from s in pod `name` only, which owned its ports before and does not any more. */
  ghost predicate PodStops(s: State, s': State, name: string) {
    && name in s.pods && s.pods[name].Owns() && s'.grabs == s.grabs
    && s'.pods.Keys <= s.pods.Keys
    && (forall p | p in s.pods && p != name :: p in s'.pods && s'.pods[p] == s.pods[p])
    && (name in s'.pods ==> !s'.pods[name].Owns())
  }

  lemma PodStopsOwners(s: State, s': State, name: string)
    requires PodStops(s, s', name)
    ensures var gone := SlotsOf(name, s.pods[name].Slots());
            && (forall o, h :: Has(s', o, h) <==> Has(s, o, h) && o !in gone)
            && (forall h :: h in s.pods[name].Holds() <==> exists o :: o in gone && Has(s, o, h))
  {
    var gone := SlotsOf(name, s.pods[name].Slots());
    forall h | h in s.pods[name].Holds()
      ensures exists o :: o in gone && Has(s, o, h)
    {
      var i :| 0 <= i < s.pods[name].Slots() && h == s.pods[name].HoldAt(i);
      assert Slot(name, i) in gone && Has(s, Slot(name, i), h);
    }
  }

  lemma NamesAreHolds(pod: Pod)
    ensures forall h: Hold :: h in pod.Holds() <==> h.node == pod.node && h.nad in NamesBelow(pod, pod.Slots())
  {
    forall h: Hold | h.node == pod.node && h.nad in NamesBelow(pod, pod.Slots())
      ensures h in pod.Holds()
    {
      var i :| 0 <= i < pod.Slots() && h.nad == pod.multus.value[i].name;
      assert h == pod.HoldAt(i);
    }
  }

  /** A deletion the reconciler will act on. */
  ghost predicate Detaches(s: State, name: string) {
    && name in s.pods
    && s.pods[name].deleting && L2SM in s.pods[name].finalizers && SameLength(s.pods[name])
  }

  lemma DetachStops(s: State, name: string, sdnFails: set<nat>, api: ApiCalls)
    requires Detaches(s, name) && Completes(s.pods[name], api)
    ensures PodStops(s, Detach(s, name, sdnFails, api), name)
  {
  }

  lemma DetachReleases(s: State, name: string, sdnFails: set<nat>, api: ApiCalls)
    requires Inv(s) && Detaches(s, name)
    ensures var s' := Detach(s, name, sdnFails, api);
            var names := NamesBelow(s.pods[name], Finished(s.pods[name], api));
            forall h :: Used(s', h) <==> Used(s, h) && !(h.nad in names && h.node == s.pods[name].node)
  {
    var names := NamesBelow(s.pods[name], Finished(s.pods[name], api));
    hide NamesBelow, Inv, Relabel, Finished;
    RelabelUsed(s, names, s.pods[name].node, "false");
    var s' := Detach(s, name, sdnFails, api);
    assert forall h :: Used(s', h) == Used(s.(nads := s'.nads), h);
  }

  lemma DetachRest(s: State, name: string, sdnFails: set<nat>, api: ApiCalls)
    requires Inv(s) && Detaches(s, name)
    ensures var s' := Detach(s, name, sdnFails, api);
            Pool(s'.nads) && Matched(s') && s'.lost == s.lost && s'.grabs == s.grabs
            && s'.nads
               == Relabel(s.nads, NamesBelow(s.pods[name], Finished(s.pods[name], api)), s.pods[name].node, "false")
    ensures !Completes(s.pods[name], api) ==> Detach(s, name, sdnFails, api).pods == s.pods
  {
    hide Pool, Ports, Relabel, NamesBelow, PairsBelow, Finished, Tried;
    RelabelPool(s.nads, NamesBelow(s.pods[name], Finished(s.pods[name], api)), s.pods[name].node, "false");
  }

  /**
    A deletion keeps the invariant exactly if it completes or releases nothing: one that fails in between leaves
    the pod owning interfaces that are offered again.
   */
  lemma DetachKeepsExactly(s: State, name: string, sdnFails: set<nat>, api: ApiCalls)
    requires Inv(s) && Detaches(s, name)
    ensures Inv(Detach(s, name, sdnFails, api)) <==>
            Completes(s.pods[name], api) || Finished(s.pods[name], api) == 0
    ensures var s' := Detach(s, name, sdnFails, api);
            Inv(s') || exists o, h :: Has(s', o, h) && !Used(s', h)
  {
    var pod := s.pods[name];
    var s' := Detach(s, name, sdnFails, api);
    DetachRest(s, name, sdnFails, api);
    DetachReleases(s, name, sdnFails, api);
    if Completes(pod, api) {
      DetachStops(s, name, sdnFails, api);
      PodStopsOwners(s, s', name);
      NamesAreHolds(pod);
      hide Has, Used, Detach, NamesBelow, Pool, Matched, Relabel;
      ReleaseKeeps(s, s', SlotsOf(name, pod.Slots()));
    } else if Finished(pod, api) == 0 {
      hide Used, Detach, Pool, Matched, Relabel;
      SameKeeps(s, s');
    } else {
      hide Used, Detach, Pool, Matched, Relabel;
      var h := pod.HoldAt(0);
      assert Has(s', Slot(name, 0), h);
      assert h.nad in NamesBelow(pod, Finished(pod, api));
    }
  }

  // ---------- the other steps on pods ----------

  /** Steps that change neither a label nor who owns what: only lists of networks, finalizers of owners, newcomers. */
  ghost predicate PortsAlike(s: State, s': State) {
    && s'.nads == s.nads && s'.grabs == s.grabs && s'.lost == s.lost
    && (forall p | p in s.pods && s.pods[p].Owns() && s.pods[p].Slots() > 0 ::
          p in s'.pods && s'.pods[p].Owns() && s'.pods[p].Slots() == s.pods[p].Slots()
          && forall i: nat | i < s.pods[p].Slots() :: s'.pods[p].HoldAt(i) == s.pods[p].HoldAt(i))
    && (forall p | p in s'.pods && s'.pods[p].Owns() && s'.pods[p].Slots() > 0 ::
          p in s.pods && s.pods[p].Owns() && s.pods[p].Slots() > 0)
  }

  lemma PortsAlikeKeeps(s: State, s': State)
    requires Ports(s) && PortsAlike(s, s')
    ensures Ports(s')
  {
    hide Pod.HoldAt;
    SameKeeps(s, s');
  }

  lemma AttachKeeps(s: State, name: string, sdnFails: set<nat>)
    requires Inv(s) && name in s.pods && BothLists(s.pods[name]) && !s.pods[name].deleting
    ensures Inv(Attach(s, name, sdnFails))
  {
    hide Ports, Pool, Reach, PairsBelow, NetworksExist;
    var s' := Attach(s, name, sdnFails);
    assert PortsAlike(s, s');
    PortsAlikeKeeps(s, s');
  }

  lemma CreateKeeps(s: State, name: string, pod: Pod)
    requires Inv(s) && name !in s.pods && Fresh(pod)
    ensures Inv(CreatePod(s, name, pod))
  {
    hide Ports;
    assert PortsAlike(s, CreatePod(s, name, pod));
    PortsAlikeKeeps(s, CreatePod(s, name, pod));
  }

  /** A deletion request keeps the invariant; a live pod without the finalizer leaves its ports used and ownerless. */
  lemma DeleteKeeps(s: State, name: string)
    requires Inv(s) && name in s.pods
    ensures Inv(DeletePod(s, name))
    ensures var s', pod := DeletePod(s, name), s.pods[name];
            if pod.deleting || L2SM in pod.finalizers then forall o, h :: Has(s', o, h) <==> Has(s, o, h)
            else forall h | h in pod.Holds() :: Used(s', h) && forall o :: !Has(s', o, h)
  {
    var s' := DeletePod(s, name);
    var pod := s.pods[name];
    DeleteRest(s, name);
    hide DeletePod;
    if pod.deleting || L2SM in pod.finalizers {
      DeleteAlike(s, name);
      hide Ports, PortsAlike;
      PortsAlikeKeeps(s, s');
    } else {
      DeleteStops(s, name);
      hide Has, MarkedUsed;
      LoseKeeps(s, s', SlotsOf(name, pod.Slots()));
      assert forall h | h in pod.Holds() :: h in s'.lost;
    }
  }

  lemma DeleteRest(s: State, name: string)
    requires Inv(s) && name in s.pods
    ensures var s', pod := DeletePod(s, name), s.pods[name];
            && Pool(s'.nads) && Matched(s') && s'.nads == s.nads
            && s'.lost == if pod.deleting || L2SM in pod.finalizers then s.lost else s.lost + pod.Holds()
  {
    hide Ports, Pool, Pod.Holds;
  }

  lemma DeleteAlike(s: State, name: string)
    requires name in s.pods && (s.pods[name].deleting || L2SM in s.pods[name].finalizers)
    ensures PortsAlike(s, DeletePod(s, name))
    ensures forall o, h :: Has(DeletePod(s, name), o, h) <==> Has(s, o, h)
  {
  }

  lemma DeleteStops(s: State, name: string)
    requires name in s.pods && !s.pods[name].deleting && L2SM !in s.pods[name].finalizers
    ensures PodStops(s, DeletePod(s, name), name)
    ensures var gone := SlotsOf(name, s.pods[name].Slots());
            && (forall o, h :: Has(DeletePod(s, name), o, h) <==> Has(s, o, h) && o !in gone)
            && (forall h :: h in s.pods[name].Holds() <==> exists o :: o in gone && Has(s, o, h))
  {
    var s' := DeletePod(s, name);
    assert PodStops(s, s', name);
    PodStopsOwners(s, s', name);
  }

  lemma DropAlike(s: State, name: string, finalizer: string)
    requires name in s.pods && finalizer != L2SM
    ensures PortsAlike(s, DropFinalizer(s, name, finalizer))
  {
  }

  lemma DropKeeps(s: State, name: string, finalizer: string)
    requires Inv(s) && name in s.pods && finalizer != L2SM
    ensures Inv(DropFinalizer(s, name, finalizer))
  {
    hide Ports, Pool;
    var s' := DropFinalizer(s, name, finalizer);
    DropAlike(s, name, finalizer);
    hide PortsAlike;
    PortsAlikeKeeps(s, s');
  }

  // ---------- interfaces taken by networks ----------

  /** An interface taken by a network keeps the invariant exactly if its label is written, or nothing was taken. */
  lemma GrabKeepsExactly(s: State, s': State, order: seq<string>, g: Grab, writeOk: bool)
    requires Inv(s) && Lists(order, s.nads)
    requires FreeNads(order, s.nads, g.at.node) != [] && g.at.nad == FreeNads(order, s.nads, g.at.node)[0]
    requires s'.pods == s.pods && s'.grabs == s.grabs + {g} && s'.lost == s.lost
    requires s'.nads == if writeOk then Relabel(s.nads, {g.at.nad}, g.at.node, "true") else s.nads
    ensures Inv(s') <==> writeOk
    ensures writeOk || (Has(s', Taker(g), g.at) && !Used(s', g.at))
  {
    hide FreeNads, Relabel, Pod.HoldAt, Pool, MarkedUsed;
    FreeIsUnused(s, order, g.at.node, 0);
    assert Has(s', Taker(g), g.at);
    if writeOk {
      RelabelUsed(s, {g.at.nad}, g.at.node, "true");
      RelabelPool(s.nads, {g.at.nad}, g.at.node, "true");
      assert forall h :: Used(s', h) == Used(s.(nads := s'.nads), h);
      var grants := map[Taker(g) := g.at];
      assert !Has(s, Taker(g), g.at);
      GrabOwners(s, s', g);
      hide Used, Has;
      GrantKeeps(s, s', grants);
    } else {
      assert !Used(s', g.at);
    }
  }

  lemma FreeIsUnused(s: State, order: seq<string>, node: string, i: nat)
    requires i < |FreeNads(order, s.nads, node)|
    ensures !Used(s, Hold(node, FreeNads(order, s.nads, node)[i]))
  {
    hide FreeNads;
    assert FreeNads(order, s.nads, node)[i] in FreeNads(order, s.nads, node);
  }

  lemma GrabOwners(s: State, s': State, g: Grab)
    requires s'.pods == s.pods && s'.grabs == s.grabs + {g}
    ensures forall o, h :: Has(s', o, h) <==> Has(s, o, h) || (o == Taker(g) && h == g.at)
  {
    hide Pod.HoldAt;
  }

  lemma NedKeepsExactly(s: State, network: string, node: string, order: seq<string>, attachOk: bool, writeOk: bool)
    requires Inv(s) && Lists(order, s.nads)
    ensures Inv(ConnectNed(s, network, node, order, attachOk, writeOk)) <==>
            writeOk || !attachOk || FreeNads(order, s.nads, node) == []
  {
    hide FreeNads, Inv, Relabel;
    var free := FreeNads(order, s.nads, node);
    if free != [] && attachOk {
      GrabKeepsExactly(s, ConnectNed(s, network, node, order, attachOk, writeOk), order,
                       Grab(Bridge, network, Hold(node, free[0])), writeOk);
    }
  }

  lemma IdsKeepsExactly(s: State, network: string, node: string, order: seq<string>, mirrorOk: bool, writeOk: bool)
    requires Inv(s) && Lists(order, s.nads)
    ensures Inv(MirrorIds(s, network, node, order, mirrorOk, writeOk)) <==>
            writeOk || !mirrorOk || FreeNads(order, s.nads, node) == []
  {
    var free := FreeNads(order, s.nads, node);
    assert free != [] ==> free[0] in free && PortNumber(free[0]).Ok?;
    hide FreeNads, Inv, Relabel;
    if free != [] && mirrorOk {
      GrabKeepsExactly(s, MirrorIds(s, network, node, order, mirrorOk, writeOk), order,
                       Grab(Mirror, network, Hold(node, free[0])), writeOk);
    }
  }

  lemma NetworkUpKeeps(s: State, name: string, network: Network)
    requires Inv(s)
    ensures Inv(CreateNetwork(s, name, network))
  {
    hide Ports;
    PortsAlikeKeeps(s, CreateNetwork(s, name, network));
  }

  /**
    The removal of a network keeps the invariant; the interfaces it had taken stay used, and have no owner any more.
   */
  lemma NetworkDownKeeps(s: State, name: string)
    requires Inv(s)
    ensures Inv(RemoveNetwork(s, name))
    ensures var s' := RemoveNetwork(s, name);
            forall h | h in GrabbedFor(s, name) :: Used(s', h) && forall o :: !Has(s', o, h)
  {
    var s' := RemoveNetwork(s, name);
    var gone := set g | g in s.grabs && g.network == name :: Taker(g);
    hide Pod.HoldAt, MarkedUsed, Pool;
    forall o, h
      ensures Has(s', o, h) <==> Has(s, o, h) && o !in gone
    {
    }
    forall h
      ensures h in GrabbedFor(s, name) <==> exists o :: o in gone && Has(s, o, h)
    {
      if h in GrabbedFor(s, name) {
        var g :| g in s.grabs && g.network == name && h == g.at;
        assert Taker(g) in gone && Has(s, Taker(g), h);
      }
    }
    assert forall h :: Used(s', h) == Used(s, h);
    hide Has, Used;
    LoseKeeps(s, s', gone);
    assert forall h | h in GrabbedFor(s, name) :: h in s'.lost;
  }
}

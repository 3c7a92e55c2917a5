/**
  Containment in the pods the reconciler has met: every pair at the SDN controller belongs to a pod that carries the
  finalizer, or is a bridge, even when attach calls fail; and what a quarantine move cut short does to it.
*/
module MetPods {
  import opened Finalizers
  import opened IpTexts
  import opened PodAdmission
  import opened Cluster
  import opened PortInvariant
  import opened Quarantine
  import opened QuarantineLaws
  import opened SdnAgreement
  import opened SdnEquality

  ghost predicate MetContained(s: State) {
    forall a | a in s.sdn :: Attached(s, a) || Bridged(s, a)
  }

  // ---------- step by step ----------

  /** A step that adds no pairs and takes none away from the lists of any met pod. */
  lemma MetGrow(s: State, s': State)
    requires MetContained(s) && s'.sdn <= s.sdn && s.grabs <= s'.grabs
    requires forall p | p in s.pods && L2SM in s.pods[p].finalizers ::
               p in s'.pods && L2SM in s'.pods[p].finalizers && s.pods[p].Pairs() <= s'.pods[p].Pairs()
    ensures MetContained(s')
  {
    hide Pod.Pairs;
    forall a | a in s'.sdn
      ensures Attached(s', a) || Bridged(s', a)
    {
      if Attached(s, a) {
        var p :| p in s.pods && L2SM in s.pods[p].finalizers && a in s.pods[p].Pairs();
        assert a in s'.pods[p].Pairs();
      } else {
        var g :| g in s.grabs && g.purpose.Bridge? && a == GrabPair(g);
        assert g in s'.grabs;
      }
    }
  }

  /** A step that adds pairs of one met pod, or a bridge, to what another step of this kind would leave. */
  lemma MetAdds(s: State, added: set<Attachment>)
    requires MetContained(s) && forall a | a in added :: Attached(s, a) || Bridged(s, a)
    ensures MetContained(s.(sdn := s.sdn + added))
  {
    hide Pod.Pairs;
    var s' := s.(sdn := s.sdn + added);
    assert forall a :: Attached(s', a) == Attached(s, a) && Bridged(s', a) == Bridged(s, a);
  }

  lemma HandleMet(v6: V6, s: State, name: string, picked: string, order: seq<string>, linkLocals: seq<string>,
                  lostWrites: set<nat>)
    requires MetContained(s) && name in s.pods && Returns(v6, s, name, picked, order, linkLocals)
    ensures MetContained(Handle(v6, s, name, picked, order, linkLocals, lostWrites))
  {
    var s' := Handle(v6, s, name, picked, order, linkLocals, lostWrites);
    hide FreeNads, Served, Relabel, Taken, Multus;
    if Admissible(s.pods[name]) {
      assert s.pods[name].Pairs() == {};
    }
    MetGrow(s, s');
  }

  lemma AttachMet(s: State, name: string, sdnFails: set<nat>)
    requires MetContained(s) && name in s.pods && BothLists(s.pods[name])
    ensures MetContained(Attach(s, name, sdnFails))
  {
    var s', pod := Attach(s, name, sdnFails), s.pods[name];
    SameListsPairs(pod, s'.pods[name]);
    AttachAdds(s, name, sdnFails);
    hide Attach, Pod.Pairs;
    var calm := s'.(sdn := s.sdn);
    MetGrow(s, calm);
    forall a | a in s'.sdn && a !in s.sdn
      ensures Attached(calm, a)
    {
      assert a in calm.pods[name].Pairs();
    }
    hide Attached, MetContained;
    MetAdds(calm, s'.sdn - s.sdn);
    assert s' == calm.(sdn := calm.sdn + (s'.sdn - s.sdn));
  }

  /** A first meeting stores the finalizer and adds some of the pod's own pairs. */
  lemma AttachAdds(s: State, name: string, sdnFails: set<nat>)
    requires name in s.pods && BothLists(s.pods[name])
    ensures var s', pod := Attach(s, name, sdnFails), s.pods[name];
            && s'.pods == s.pods[name := pod.(finalizers := pod.finalizers + [L2SM])]
            && s'.grabs == s.grabs && s.sdn <= s'.sdn <= s.sdn + pod.Pairs()
  {
    var pod := s.pods[name];
    if pod.Slots() > 0 {
      PairsBelowListed(pod, Reach(pod.multus.value, sdnFails), {});
    }
    hide Pod.Pairs, PairsBelow, Reach, NetworksExist;
  }

  /**
    A completed deletion keeps the containment exactly if every pair still at the controller is detached: a failed
    detach of such a pair leaves it there without a pod.
   */
  lemma DetachMetExactly(s: State, name: string, sdnFails: set<nat>)
    requires Inv(s) && MetContained(s) && Detaches(s, name)
    ensures MetContained(Detach(s, name, sdnFails, AllSucceed)) <==>
            forall i: nat | i in sdnFails && i < s.pods[name].Slots() :: s.pods[name].PairAt(i) !in s.sdn
  {
    var pod := s.pods[name];
    var s' := Detach(s, name, sdnFails, AllSucceed);
    DetachFinishes(s, name);
    DetachKeepsOthers(s, name, sdnFails);
    PairsDistinct(s, name);
    PairsThatRemain(s.sdn, pod, sdnFails);
    hide Inv, Detach, Completes, Finished, Tried, Reach, Attached, Bridged, PairsBelow, Pod.PairAt, Pod.Pairs;
    forall a
      ensures a in pod.Pairs() ==> !Attached(s', a) && !Bridged(s', a)
      ensures a !in pod.Pairs() ==> Attached(s', a) == Attached(s, a) && Bridged(s', a) == Bridged(s, a)
    {
      OthersAttached(s, s', name, a);
    }
  }

  /** Once a pod has no met pairs any more, the other pods' pairs are the attached ones, and nobody has its own. */
  lemma OthersAttached(s: State, s': State, name: string, a: Attachment)
    requires Inv(s) && OthersAlike(s, s', name) && MetPairs(s', name) == {}
    ensures a in MetPairs(s, name) ==> !Attached(s', a) && !Bridged(s', a)
    ensures a !in MetPairs(s, name) ==> Attached(s', a) == Attached(s, a) && Bridged(s', a) == Bridged(s, a)
  {
    hide MetPairs, Pod.Pairs, Inv;
    MetPairsOwned(s, name);
    AttachedSplit(s, s', name, a);
    AttachedSplit(s, s, name, a);
  }

  /** A detach loop takes all of a pod's pairs from the controller exactly if none of those there fails. */
  lemma PairsThatRemain(sdn: set<Attachment>, pod: Pod, sdnFails: set<nat>)
    requires forall i: nat, j: nat | i < pod.Slots() && j < pod.Slots() && pod.PairAt(i) == pod.PairAt(j) :: i == j
    ensures (forall a | a in sdn - PairsBelow(pod, pod.Slots(), sdnFails) :: a !in pod.Pairs()) <==>
            forall i: nat | i in sdnFails && i < pod.Slots() :: pod.PairAt(i) !in sdn
  {
    hide Pod.PairAt;
    if i: nat :| i in sdnFails && i < pod.Slots() && pod.PairAt(i) in sdn {
      assert pod.PairAt(i) in pod.Pairs();
      assert pod.PairAt(i) in sdn - PairsBelow(pod, pod.Slots(), sdnFails);
    }
  }

  lemma DetachKeepsOthers(s: State, name: string, sdnFails: set<nat>)
    requires Detaches(s, name) && Completes(s.pods[name], AllSucceed)
    requires Tried(s.pods[name], AllSucceed) == s.pods[name].Slots()
    ensures var s', pod := Detach(s, name, sdnFails, AllSucceed), s.pods[name];
            && OthersAlike(s, s', name) && MetPairs(s', name) == {}
            && s'.sdn == s.sdn - PairsBelow(pod, pod.Slots(), sdnFails)
  {
    hide PairsBelow, NamesBelow, Relabel, Pod.Pairs, Finished, Tried;
  }

  /** The pairs of a pod's own ports stand at one position each. */
  lemma PairsDistinct(s: State, name: string)
    requires Inv(s) && name in s.pods && s.pods[name].Owns()
    ensures forall i: nat, j: nat | i < s.pods[name].Slots() && j < s.pods[name].Slots()
                                    && s.pods[name].PairAt(i) == s.pods[name].PairAt(j) :: i == j
  {
    hide Inv;
    var pod := s.pods[name];
    forall i: nat, j: nat | i < pod.Slots() && j < pod.Slots() && pod.PairAt(i) == pod.PairAt(j)
      ensures i == j
    {
      PortHasOwner(s, name, i, Slot(name, j), pod.HoldAt(j));
    }
  }

  lemma DeleteMet(s: State, name: string)
    requires MetContained(s) && name in s.pods
    ensures MetContained(DeletePod(s, name))
  {
    var pod := s.pods[name];
    SameListsPairs(pod, pod.(deleting := true));
    hide Pod.Pairs;
    MetGrow(s, DeletePod(s, name));
  }

  lemma DropMet(s: State, name: string, finalizer: string)
    requires MetContained(s) && name in s.pods && finalizer != L2SM
    ensures MetContained(DropFinalizer(s, name, finalizer))
  {
    var pod := s.pods[name];
    SameListsPairs(pod, pod.(finalizers := Without(pod.finalizers, finalizer)));
    hide Pod.Pairs;
    MetGrow(s, DropFinalizer(s, name, finalizer));
  }

  lemma CreateMet(s: State, name: string, pod: Pod)
    requires MetContained(s) && name !in s.pods
    ensures MetContained(CreatePod(s, name, pod))
  {
    hide Pod.Pairs;
    MetGrow(s, CreatePod(s, name, pod));
  }

  lemma NedMet(s: State, network: string, node: string, order: seq<string>, callOk: bool, writeOk: bool)
    requires MetContained(s)
    ensures MetContained(ConnectNed(s, network, node, order, callOk, writeOk))
  {
    hide Pod.Pairs, FreeNads, Relabel;
    var s' := ConnectNed(s, network, node, order, callOk, writeOk);
    var free := FreeNads(order, s.nads, node);
    if free != [] && callOk {
      var g := Grab(Bridge, network, Hold(node, free[0]));
      var calm := s'.(sdn := s.sdn);
      MetGrow(s, calm);
      assert g in calm.grabs && GrabPair(g) == Attachment(network, PortOf(g.at));
      MetAdds(calm, {GrabPair(g)});
      assert s' == calm.(sdn := calm.sdn + {GrabPair(g)});
    }
  }

  lemma OthersMet(s: State, s': State)
    requires MetContained(s) && s'.pods == s.pods && s'.sdn <= s.sdn && s.grabs <= s'.grabs
    ensures MetContained(s')
  {
    hide Pod.Pairs;
    MetGrow(s, s');
  }

  lemma NetworkDownMet(s: State, name: string)
    requires MetContained(s)
    ensures MetContained(RemoveNetwork(s, name))
  {
    hide Pod.Pairs;
    var s' := RemoveNetwork(s, name);
    forall a | a in s'.sdn
      ensures Attached(s', a) || Bridged(s', a)
    {
      RemovedPairs(s, name, a);
    }
  }

  // ---------- quarantine ----------

  /** A move of a met pod keeps the containment unless its pod write fails. */
  lemma MoveMet(v6: V6, s: State, source: string, target: string, name: string, calls: Calls)
    requires MetContained(s) && Movable(s, source, target) && name in s.pods && !calls.PodWriteFails?
    requires Concerned(s.pods[name], source) ==> L2SM in s.pods[name].finalizers
    ensures MetContained(Move(v6, s, source, target, name, calls))
  {
    var pod := s.pods[name];
    var s' := Move(v6, s, source, target, name, calls);
    if Concerned(pod, source) && Readable(pod, source) && !calls.DetachFails? && !calls.AttachFails? {
      var i := MovedAt(pod, source);
      RenamedPairs(pod, i, target);
      MoveSwaps(v6, s, source, target, name, calls);
      hide Move, Renamed, Pod.PairAt, NetworkIndex;
      var pod' := s'.pods[name];
      forall a | a in s'.sdn
        ensures Attached(s', a) || Bridged(s', a)
      {
        if a == pod'.PairAt(i) {
          assert a in pod'.Pairs();
        } else if Attached(s, a) {
          var p :| p in s.pods && L2SM in s.pods[p].finalizers && a in s.pods[p].Pairs();
          if p == name {
            var j :| 0 <= j < pod.Slots() && a == pod.PairAt(j);
            assert a == pod'.PairAt(j);
            assert a in pod'.Pairs();
          } else {
            assert s'.pods[p] == s.pods[p];
          }
        }
      }
    } else {
      hide Pod.Pairs;
      MetGrow(s, s');
    }
  }

  lemma {:induction false} SweepMet(v6: V6, s: State, source: string, target: string, names: seq<string>,
                                    calls: seq<Calls>, n: nat)
    requires MetContained(s) && Movable(s, source, target) && n <= |names| <= |calls| && Met(s, names, source)
    requires forall c | c in calls :: !c.PodWriteFails?
    ensures var s' := SweepTo(v6, s, source, target, names, calls, n).state;
            MetContained(s') && Met(s', names, source)
  {
    hide MetContained, Move, Judge, SweepTo, Concerned;
    if n == 0 {
      SweepNone(v6, s, source, target, names, calls);
    } else {
      SweepMet(v6, s, source, target, names, calls, n - 1);
      SweepNext(v6, s, source, target, names, calls, n - 1);
      var w := SweepTo(v6, s, source, target, names, calls, n - 1);
      assert names[n - 1] in names && calls[n - 1] in calls;
      if !w.state.pods[names[n - 1]].deleting {
        MoveMet(v6, w.state, source, target, names[n - 1], calls[n - 1]);
        MoveKeepsMet(v6, w.state, source, target, names[n - 1], calls[n - 1], names);
      }
    }
  }

  /**
    What a move whose pod write fails leads to: after it, a deletion in which every call succeeds frees the moved
    port's interface but leaves the port attached to the target network.
   */
  lemma InterruptedMoveLeaks(v6: V6, s: State, source: string, target: string, name: string)
    requires Inv(s) && Movable(s, source, target) && name in s.pods && !s.pods[name].deleting
    requires L2SM in s.pods[name].finalizers && Concerned(s.pods[name], source) && Readable(s.pods[name], source)
    ensures var h := s.pods[name].HoldAt(MovedAt(s.pods[name], source));
            var s1 := Move(v6, s, source, target, name, PodWriteFails);
            && name in DeletePod(s1, name).pods
            && var s3 := Reconcile(DeletePod(s1, name), name, {}, AllSucceed);
               && Attachment(target, PortOf(h)) in s3.sdn && !Used(s3, h)
               && Inv(s3)
  {
    var pod := s.pods[name];
    var i := MovedAt(pod, source);
    var s1 := Move(v6, s, source, target, name, PodWriteFails);
    MoveStopsShort(v6, s, source, target, name, PodWriteFails);
    MoveKeeps(v6, s, source, target, name, PodWriteFails);
    hide Move, Inv;
    var s2, pod2 := DeletePod(s1, name), pod.(deleting := true);
    DeleteKeeps(s1, name);
    assert s2.pods[name] == pod2 && s2.sdn == s1.sdn;
    SameListsPairs(pod, pod2);
    assert pod2.PairAt(i) == pod.PairAt(i) && pod2.HoldAt(i) == pod.HoldAt(i);
    assert Detaches(s2, name);
    hide DeletePod;
    DetachFinishes(s2, name);
    DetachResult(s2, name);
    PairsBelowAll(pod2);
    DetachReleases(s2, name, {}, AllSucceed);
    DetachKeepsExactly(s2, name, {}, AllSucceed);
    NamesAreHolds(pod2);
    NotOwnPair(s2, name, i, target);
    assert pod2.HoldAt(i) in pod2.Holds();
  }

  lemma NotOwnPair(s: State, name: string, i: nat, target: string)
    requires Inv(s) && name in s.pods && s.pods[name].Owns() && i < s.pods[name].Slots()
    requires s.pods[name].PairAt(i).network != target
    ensures Attachment(target, s.pods[name].PairAt(i).port) !in s.pods[name].Pairs()
  {
    ForeignPair(s, name, i, Attachment(target, s.pods[name].PairAt(i).port));
    hide Inv, Pod.PairAt;
  }

  /**
    Such a free interface, when it comes first in the listing, is given to the next admitted pod for its first
    network: the pod's port is on the target network as well, whatever network it listed.
   */
  lemma NextPodInherits(v6: V6, s: State, q: string, picked: string, order: seq<string>, linkLocals: seq<string>,
                        h: Hold, target: string)
    requires Inv(s) && Lists(order, s.nads) && Grants(s, q, picked, order) && s.pods[q].l2sm.value != []
    requires Returns(v6, s, q, picked, order, linkLocals)
    requires Attachment(target, PortOf(h)) in s.sdn && !Used(s, h)
    requires h.node == NodeFor(s.pods[q], picked) && order != [] && order[0] == h.nad
    ensures var s' := Handle(v6, s, q, picked, order, linkLocals, {});
            && Has(s', Slot(q, 0), h)
            && s'.pods[q].PairAt(0) == Attachment(s.pods[q].l2sm.value[0].name, PortOf(h))
            && Attachment(target, PortOf(h)) in s'.sdn
            && (s.pods[q].l2sm.value[0].name != target ==> Attachment(target, PortOf(h)) !in s'.pods[q].Pairs())
  {
    var s' := Handle(v6, s, q, picked, order, linkLocals, {});
    FirstIsFree(s, order, h);
    HandlePod(v6, s, q, picked, order, linkLocals, {});
    HandleRest(v6, s, q, picked, order, linkLocals, {});
    HandleKeepsExactly(v6, s, q, picked, order, linkLocals, {});
    HandleLists(v6, s, q, picked, order, linkLocals);
    hide Handle, FreeNads, Returns, Inv, Lists, PortOf, Pod.Pairs;
    if s.pods[q].l2sm.value[0].name != target {
      NotOwnPair(s', q, 0, target);
    }
  }

  lemma FirstIsFree(s: State, order: seq<string>, h: Hold)
    requires Inv(s) && Lists(order, s.nads) && order != [] && order[0] == h.nad && !Used(s, h)
    ensures var free := FreeNads(order, s.nads, h.node); free != [] && free[0] == h.nad
  {
    assert order[0] in order;
  }

  lemma HandleLists(v6: V6, s: State, q: string, picked: string, order: seq<string>, linkLocals: seq<string>)
    requires Grants(s, q, picked, order) && Returns(v6, s, q, picked, order, linkLocals)
    ensures var s' := Handle(v6, s, q, picked, order, linkLocals, {});
            q in s'.pods && s'.pods[q].l2sm == s.pods[q].l2sm
  {
    hide FreeNads, Served, Relabel, Taken, Multus;
  }
}

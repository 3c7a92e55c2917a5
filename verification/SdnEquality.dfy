/**
  When no call fails, the SDN controller holds exactly the pairs of the pods that carry the finalizer, and the
  bridges.
*/
module SdnEquality {
  import opened Finalizers
  import opened NadNames
  import opened IpTexts
  import opened Admission
  import opened PodAdmission
  import opened Cluster
  import opened PortInvariant
  import opened Quarantine
  import opened QuarantineLaws
  import opened SdnAgreement

  /** The pair of some pod that the reconciler has met. */
  ghost predicate Attached(s: State, a: Attachment) {
    exists p :: p in s.pods && L2SM in s.pods[p].finalizers && a in s.pods[p].Pairs()
  }

  ghost predicate Agreed(s: State) {
    && (forall a :: a in s.sdn <==> Attached(s, a) || Bridged(s, a))
    && (forall p | p in s.pods :: L2SM in s.pods[p].finalizers ==> SameLength(s.pods[p]))
  }

  /** The pairs of met pods outside `name` are the same in both states. */
  ghost predicate OthersAlike(s: State, s': State, name: string) {
    && s'.grabs == s.grabs
    && s'.pods.Keys - {name} == s.pods.Keys - {name}
    && (forall p | p in s.pods && p != name :: p in s'.pods && s'.pods[p] == s.pods[p])
  }

  function MetPairs(s: State, name: string): set<Attachment> {
    if name in s.pods && L2SM in s.pods[name].finalizers then s.pods[name].Pairs() else {}
  }

  lemma AttachedSplit(s: State, s': State, name: string, a: Attachment)
    requires OthersAlike(s, s', name)
    ensures Attached(s', a) <==>
            || a in MetPairs(s', name)
            || exists p :: p in s.pods && p != name && L2SM in s.pods[p].finalizers && a in s.pods[p].Pairs()
  {
    hide Pod.Pairs;
    if Attached(s', a) {
      var p :| p in s'.pods && L2SM in s'.pods[p].finalizers && a in s'.pods[p].Pairs();
      assert p != name ==> p in s'.pods.Keys - {name};
    }
    if p :| p in s.pods && p != name && L2SM in s.pods[p].finalizers && a in s.pods[p].Pairs() {
      assert p in s.pods.Keys - {name};
      assert s'.pods[p] == s.pods[p];
    }
  }

  /** A step on one pod that changes the controller just as it changes the pod's met pairs. */
  lemma OneChanges(s: State, s': State, name: string)
    requires Agreed(s) && OthersAlike(s, s', name)
    requires forall a | a in MetPairs(s, name) && a !in MetPairs(s', name) ::
               && !Bridged(s, a)
               && forall p | p in s.pods && p != name && L2SM in s.pods[p].finalizers :: a !in s.pods[p].Pairs()
    requires s'.sdn == s.sdn - MetPairs(s, name) + MetPairs(s', name)
    requires name in s'.pods ==> (L2SM in s'.pods[name].finalizers ==> SameLength(s'.pods[name]))
    ensures Agreed(s')
  {
    hide MetPairs, Pod.Pairs;
    forall a
      ensures a in s'.sdn <==> Attached(s', a) || Bridged(s', a)
    {
      AttachedSplit(s, s', name, a);
      AttachedSplit(s, s, name, a);
      assert Bridged(s', a) == Bridged(s, a);
    }
    forall p | p in s'.pods && p != name
      ensures L2SM in s'.pods[p].finalizers ==> SameLength(s'.pods[p])
    {
      assert p in s'.pods.Keys - {name};
      assert s'.pods[p] == s.pods[p];
    }
  }

  /** A step on one pod that leaves its met pairs, and the controller, alone. */
  lemma NoneChanges(s: State, s': State, name: string)
    requires Agreed(s) && OthersAlike(s, s', name) && s'.sdn == s.sdn
    requires MetPairs(s', name) == MetPairs(s, name)
    requires name in s'.pods ==> (L2SM in s'.pods[name].finalizers ==> SameLength(s'.pods[name]))
    ensures Agreed(s')
  {
    hide Pod.Pairs;
    MetInSdn(s, name);
    OneChanges(s, s', name);
  }

  lemma MetInSdn(s: State, name: string)
    requires Agreed(s)
    ensures MetPairs(s, name) <= s.sdn
  {
    hide Pod.Pairs;
    forall a | a in MetPairs(s, name)
      ensures a in s.sdn
    {
      assert Attached(s, a);
    }
  }

  /** A pair at a port of one owner belongs to no other met pod and to no bridge. */
  lemma PairIsOwned(s: State, name: string, i: nat, a: Attachment)
    requires Inv(s) && name in s.pods && s.pods[name].Owns() && i < s.pods[name].Slots()
    requires a.port == PortOf(s.pods[name].HoldAt(i))
    ensures !Bridged(s, a)
    ensures forall p | p in s.pods && p != name && L2SM in s.pods[p].finalizers :: a !in s.pods[p].Pairs()
    ensures forall j: nat | j < s.pods[name].Slots() && s.pods[name].PairAt(j).port == a.port :: j == i
  {
    hide Inv;
    if g :| g in s.grabs && g.purpose.Bridge? && a == GrabPair(g) {
      PortHasOwner(s, name, i, Taker(g), g.at);
    }
    forall p | p in s.pods && p != name && L2SM in s.pods[p].finalizers
      ensures a !in s.pods[p].Pairs()
    {
      if a in s.pods[p].Pairs() {
        var j :| 0 <= j < s.pods[p].Slots() && a == s.pods[p].PairAt(j);
        PortHasOwner(s, name, i, Slot(p, j), s.pods[p].HoldAt(j));
      }
    }
    forall j: nat | j < s.pods[name].Slots() && s.pods[name].PairAt(j).port == a.port
      ensures j == i
    {
      PortHasOwner(s, name, i, Slot(name, j), s.pods[name].HoldAt(j));
    }
  }

  lemma MetPairsOwned(s: State, name: string)
    requires Inv(s)
    ensures forall a | a in MetPairs(s, name) ::
              && !Bridged(s, a)
              && forall p | p in s.pods && p != name && L2SM in s.pods[p].finalizers :: a !in s.pods[p].Pairs()
  {
    forall a | a in MetPairs(s, name)
      ensures !Bridged(s, a)
      ensures forall p | p in s.pods && p != name && L2SM in s.pods[p].finalizers :: a !in s.pods[p].Pairs()
    {
      var i :| 0 <= i < s.pods[name].Slots() && a == s.pods[name].PairAt(i);
      PairIsOwned(s, name, i, a);
    }
  }

  // ---------- the steps ----------

  lemma HandleAgrees(v6: V6, s: State, name: string, picked: string, order: seq<string>, linkLocals: seq<string>,
                     lostWrites: set<nat>)
    requires Inv(s) && Agreed(s) && name in s.pods && Returns(v6, s, name, picked, order, linkLocals)
    ensures Agreed(Handle(v6, s, name, picked, order, linkLocals, lostWrites))
  {
    HandleRest(v6, s, name, picked, order, linkLocals, lostWrites);
    HandleTouches(v6, s, name, picked, order, linkLocals, lostWrites);
    hide Handle, FreeNads, Returns, Inv, Pod.Pairs;
    var s' := Handle(v6, s, name, picked, order, linkLocals, lostWrites);
    if Admissible(s.pods[name]) {
      NoneChanges(s, s', name);
    }
  }

  /** An admission concerns one pod, and not its finalizers. */
  lemma HandleTouches(v6: V6, s: State, name: string, picked: string, order: seq<string>, linkLocals: seq<string>,
                      lostWrites: set<nat>)
    requires name in s.pods && Returns(v6, s, name, picked, order, linkLocals)
    ensures var s' := Handle(v6, s, name, picked, order, linkLocals, lostWrites);
            && OthersAlike(s, s', name) && name in s'.pods && s'.pods[name].finalizers == s.pods[name].finalizers
            && (!Admissible(s.pods[name]) ==> s' == s)
  {
    hide FreeNads, Served, Relabel, Taken, Multus;
  }

  /** A first meeting in which every network exists and every call succeeds attaches all of the pod's pairs. */
  lemma AttachAgrees(s: State, name: string)
    requires Inv(s) && Agreed(s) && name in s.pods && BothLists(s.pods[name])
    requires !s.pods[name].deleting && L2SM !in s.pods[name].finalizers
             && NetworksExist(s.networks, s.pods[name].l2sm.value)
    ensures Agreed(Attach(s, name, {}))
  {
    hide Inv, Pod.Pairs, PairsBelow, Reach, NetworksExist;
    var pod := s.pods[name];
    var s' := Attach(s, name, {});
    AttachesAll(s, name);
    SameListsPairs(pod, s'.pods[name]);
    assert MetPairs(s, name) == {} && MetPairs(s', name) == pod.Pairs();
    hide Attach, MetPairs, Agreed;
    OneChanges(s, s', name);
  }

  lemma AttachesAll(s: State, name: string)
    requires Inv(s) && name in s.pods && BothLists(s.pods[name]) && !s.pods[name].deleting
    requires NetworksExist(s.networks, s.pods[name].l2sm.value)
    ensures SameLength(s.pods[name]) && Attach(s, name, {}).sdn == s.sdn + s.pods[name].Pairs()
  {
    var pod := s.pods[name];
    forall i: nat | i < pod.Slots()
      ensures PortNumber(pod.multus.value[i].name).Ok?
    {
      assert Has(s, Slot(name, i), pod.HoldAt(i));
    }
    assert SameLength(pod);
    PairsBelowAll(pod);
    assert Reach(pod.multus.value, {}) == pod.Slots();
    hide Inv, Pod.PairAt, PairsBelow;
    assert pod.Slots() == 0 ==> pod.Pairs() == {};
  }

  lemma DetachAgrees(s: State, name: string)
    requires Inv(s) && Agreed(s) && Detaches(s, name)
    ensures Agreed(Reconcile(s, name, {}, AllSucceed))
  {
    hide Inv, PairsBelow, NamesBelow, Relabel, Pod.Pairs, Finished, Tried, Detach, Reconcile, Completes;
    var s', pod := Reconcile(s, name, {}, AllSucceed), s.pods[name];
    DetachFinishes(s, name);
    DetachResult(s, name);
    PairsBelowAll(pod);
    MetPairsOwned(s, name);
    DetachLeaves(s, name);
    OneChanges(s, s', name);
  }

  lemma DetachLeaves(s: State, name: string)
    requires Detaches(s, name) && Completes(s.pods[name], AllSucceed)
    ensures var s' := Detach(s, name, {}, AllSucceed);
            OthersAlike(s, s', name) && (name in s'.pods ==> L2SM !in s'.pods[name].finalizers)
  {
    hide PairsBelow, NamesBelow, Relabel, Pod.Pairs, Finished, Tried;
  }

  lemma DeleteAgrees(s: State, name: string)
    requires Agreed(s) && name in s.pods
    ensures Agreed(DeletePod(s, name))
  {
    var s', pod := DeletePod(s, name), s.pods[name];
    SameListsPairs(pod, pod.(deleting := true));
    hide Pod.Pairs;
    NoneChanges(s, s', name);
  }

  lemma DropAgrees(s: State, name: string, finalizer: string)
    requires Agreed(s) && name in s.pods && finalizer != L2SM
    ensures Agreed(DropFinalizer(s, name, finalizer))
  {
    var s', pod := DropFinalizer(s, name, finalizer), s.pods[name];
    SameListsPairs(pod, pod.(finalizers := Without(pod.finalizers, finalizer)));
    hide Pod.Pairs;
    NoneChanges(s, s', name);
  }

  lemma CreateAgrees(s: State, name: string, pod: Pod)
    requires Agreed(s) && name !in s.pods && Fresh(pod)
    ensures Agreed(CreatePod(s, name, pod))
  {
    hide Pod.Pairs;
    NoneChanges(s, CreatePod(s, name, pod), name);
  }

  lemma CreateNetworkAgrees(s: State, name: string, network: Network)
    requires Agreed(s)
    ensures Agreed(CreateNetwork(s, name, network))
  {
    hide Pod.Pairs;
    var s' := CreateNetwork(s, name, network);
    assert forall a :: Attached(s', a) == Attached(s, a) && Bridged(s', a) == Bridged(s, a);
  }

  /** Removing a network keeps the agreement exactly if no met pod is on it. */
  lemma RemoveNetworkAgreesExactly(s: State, name: string)
    requires Agreed(s)
    ensures Agreed(RemoveNetwork(s, name)) <==> forall a | Attached(s, a) :: a.network != name
  {
    hide Pod.Pairs, GrabbedFor, Bridged;
    var s' := RemoveNetwork(s, name);
    forall a
      ensures Attached(s', a) == Attached(s, a)
      ensures Bridged(s', a) <==> Bridged(s, a) && a.network != name
    {
      RemovedPairs(s, name, a);
    }
    if a :| Attached(s, a) && a.network == name {
      assert a !in s'.sdn;
    }
  }

  lemma AbandonAgrees(v6: V6, s: State, name: string, picked: string, order: seq<string>, linkLocals: seq<string>,
                      lostWrites: set<nat>, n: nat)
    requires Agreed(s) && Grants(s, name, picked, order) && ServesTo(v6, s, name, linkLocals, n)
    ensures Agreed(Abandon(v6, s, name, picked, order, linkLocals, lostWrites, n))
  {
    hide Pod.Pairs, FreeNads, Served, Relabel, Taken;
    var s' := Abandon(v6, s, name, picked, order, linkLocals, lostWrites, n);
    assert forall a :: Attached(s', a) == Attached(s, a) && Bridged(s', a) == Bridged(s, a);
  }

  lemma MirrorAgrees(s: State, network: string, node: string, order: seq<string>, callOk: bool, writeOk: bool)
    requires Agreed(s)
    ensures Agreed(MirrorIds(s, network, node, order, callOk, writeOk))
  {
    hide Pod.Pairs, FreeNads, Relabel;
    var s' := MirrorIds(s, network, node, order, callOk, writeOk);
    assert s'.pods == s.pods && s'.sdn == s.sdn;
    assert forall g: Grab | g.purpose.Bridge? :: g in s'.grabs <==> g in s.grabs;
    assert forall a :: Attached(s', a) == Attached(s, a) && Bridged(s', a) == Bridged(s, a);
  }

  lemma NedAgrees(s: State, network: string, node: string, order: seq<string>, callOk: bool, writeOk: bool)
    requires Agreed(s)
    ensures Agreed(ConnectNed(s, network, node, order, callOk, writeOk))
  {
    hide Pod.Pairs, FreeNads, Relabel;
    var free := FreeNads(order, s.nads, node);
    var s' := ConnectNed(s, network, node, order, callOk, writeOk);
    if free != [] && callOk {
      var g := Grab(Bridge, network, Hold(node, free[0]));
      assert s'.pods == s.pods && s'.sdn == s.sdn + {GrabPair(g)} && s'.grabs == s.grabs + {g};
      BridgeAdded(s, s', g);
    }
  }

  lemma BridgeAdded(s: State, s': State, g: Grab)
    requires Agreed(s) && g.purpose.Bridge?
    requires s'.pods == s.pods && s'.sdn == s.sdn + {GrabPair(g)} && s'.grabs == s.grabs + {g}
    ensures Agreed(s')
  {
    hide Pod.Pairs, GrabPair;
    forall a
      ensures Attached(s', a) == Attached(s, a)
      ensures Bridged(s', a) <==> Bridged(s, a) || a == GrabPair(g)
    {
      assert g in s'.grabs;
      if Bridged(s, a) {
        var g0 :| g0 in s.grabs && g0.purpose.Bridge? && a == GrabPair(g0);
        assert g0 in s'.grabs;
      }
    }
  }

  /** A move of a met pod keeps the agreement unless it is cut short between its detach call and its pod write. */
  lemma MoveAgrees(v6: V6, s: State, source: string, target: string, name: string, calls: Calls)
    requires Inv(s) && Agreed(s) && Movable(s, source, target) && name in s.pods
    requires L2SM in s.pods[name].finalizers || !Concerned(s.pods[name], source)
    requires !calls.AttachFails? && !calls.PodWriteFails?
    ensures Agreed(Move(v6, s, source, target, name, calls))
  {
    var pod := s.pods[name];
    var s' := Move(v6, s, source, target, name, calls);
    if Concerned(pod, source) && Readable(pod, source) && !calls.DetachFails? {
      var i := MovedAt(pod, source);
      MetPairsOwned(s, name);
      MetInSdn(s, name);
      PairIsOwned(s, name, i, pod.PairAt(i));
      RenamedSwap(pod, i, target);
      MoveSwaps(v6, s, source, target, name, calls);
      assert pod.PairAt(i) in pod.Pairs();
      hide Inv, Move, Renamed, Pod.Pairs, Pod.PairAt, NetworkIndex, Bridged;
      var moved := Attachment(target, pod.PairAt(i).port);
      SwapInside(s.sdn, pod.Pairs(), pod.PairAt(i), moved);
      assert MetPairs(s, name) == pod.Pairs() && MetPairs(s', name) == pod.Pairs() - {pod.PairAt(i)} + {moved};
      hide MetPairs, Agreed;
      OneChanges(s, s', name);
    }
  }

  lemma SwapInside(sdn: set<Attachment>, pairs: set<Attachment>, x: Attachment, y: Attachment)
    requires pairs <= sdn && x in pairs
    ensures sdn - {x} + {y} == sdn - pairs + (pairs - {x} + {y})
  {
  }

  /**
    A move of a met pod that reaches its calls keeps the agreement exactly if neither its attach call nor its pod
    write fails: a failed attach leaves a listed pair unattached, a failed write an attached pair unlisted.
   */
  lemma MoveAgreesExactly(v6: V6, s: State, source: string, target: string, name: string, calls: Calls)
    requires Inv(s) && Agreed(s) && Movable(s, source, target) && name in s.pods
    requires L2SM in s.pods[name].finalizers && Concerned(s.pods[name], source) && Readable(s.pods[name], source)
    ensures Agreed(Move(v6, s, source, target, name, calls)) <==> !calls.AttachFails? && !calls.PodWriteFails?
  {
    if calls.AttachFails? || calls.PodWriteFails? {
      var pod := s.pods[name];
      var i := MovedAt(pod, source);
      var own, moved := pod.PairAt(i), Attachment(target, pod.PairAt(i).port);
      MoveStopsShort(v6, s, source, target, name, calls);
      ForeignPair(s, name, i, moved);
      assert own in pod.Pairs();
      hide Inv, Move, Pod.PairAt, Pod.Pairs;
      var s' := Move(v6, s, source, target, name, calls);
      assert Attached(s', own);
      assert Attached(s', moved) ==> Listed(s, moved);
      assert Bridged(s', moved) == Bridged(s, moved);
    } else {
      MoveAgrees(v6, s, source, target, name, calls);
    }
  }

  lemma RenamedSwap(pod: Pod, i: nat, target: string)
    requires i < pod.Slots()
    requires forall j: nat | j < pod.Slots() && pod.PairAt(j).port == pod.PairAt(i).port :: j == i
    ensures Renamed(pod, i, target).Pairs() == pod.Pairs() - {pod.PairAt(i)} + {Attachment(target, pod.PairAt(i).port)}
    ensures Renamed(pod, i, target).finalizers == pod.finalizers
            && SameLength(Renamed(pod, i, target)) == SameLength(pod)
  {
    RenamedPairs(pod, i, target);
    var pod' := Renamed(pod, i, target);
    hide Renamed, Pod.PairAt;
    forall a
      ensures a in pod'.Pairs() <==> a in pod.Pairs() - {pod.PairAt(i)} + {Attachment(target, pod.PairAt(i).port)}
    {
      if a in pod.Pairs() && a != pod.PairAt(i) {
        var j :| 0 <= j < pod.Slots() && a == pod.PairAt(j);
        assert a == pod'.PairAt(j);
      }
      if a in pod'.Pairs() {
        var j :| 0 <= j < pod'.Slots() && a == pod'.PairAt(j);
        assert j != i ==> a == pod.PairAt(j);
      }
      assert pod'.PairAt(i) in pod'.Pairs();
    }
  }

  /** The selected pods are met, as far as a pass would move them. */
  predicate Met(s: State, names: seq<string>, source: string) {
    forall x | x in names :: x in s.pods && (ToMove(s.pods[x], source) ==> L2SM in s.pods[x].finalizers)
  }

  lemma MoveKeepsMet(v6: V6, s: State, source: string, target: string, name: string, calls: Calls, names: seq<string>)
    requires Movable(s, source, target) && name in s.pods && !s.pods[name].deleting
    requires Met(s, names, source) && name in names
    ensures Met(Move(v6, s, source, target, name, calls), names, source)
  {
    hide UpdateStatuses, NetworkIndex, Readable;
  }

  /** A quarantine pass over met pods keeps the agreement unless an attach call or a pod write fails. */
  lemma {:induction false} PassAgrees(v6: V6, s: State, source: string, target: string, names: seq<string>,
                                      calls: seq<Calls>, n: nat)
    requires Inv(s) && Agreed(s) && Movable(s, source, target) && n <= |names| <= |calls| && Met(s, names, source)
    requires forall c | c in calls :: !c.AttachFails? && !c.PodWriteFails?
    ensures var s' := SweepTo(v6, s, source, target, names, calls, n).state;
            Agreed(s') && Met(s', names, source)
  {
    hide Inv, Agreed, Move, Judge, SweepTo, Concerned;
    if n == 0 {
      SweepNone(v6, s, source, target, names, calls);
    } else {
      PassAgrees(v6, s, source, target, names, calls, n - 1);
      SweepKeeps(v6, s, source, target, names, calls, n - 1);
      SweepNext(v6, s, source, target, names, calls, n - 1);
      var w := SweepTo(v6, s, source, target, names, calls, n - 1);
      assert names[n - 1] in names && calls[n - 1] in calls;
      if !w.state.pods[names[n - 1]].deleting {
        MoveAgrees(v6, w.state, source, target, names[n - 1], calls[n - 1]);
        MoveKeepsMet(v6, w.state, source, target, names[n - 1], calls[n - 1], names);
      }
    }
  }
}

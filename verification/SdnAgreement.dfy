/**
  Agreement with the SDN controller: which (network, port) pairs it holds, compared with the pods' two lists.
*/
module SdnAgreement {
  import opened Finalizers
  import opened NadNames
  import opened IpTexts
  import opened Admission
  import opened Cluster
  import opened PortInvariant
  import opened HandlerEffects
  import opened Quarantine

  function GrabPair(g: Grab): Attachment {
    Attachment(g.network, PortOf(g.at))
  }

  ghost predicate Bridged(s: State, a: Attachment) {
    exists g :: g in s.grabs && g.purpose.Bridge? && a == GrabPair(g)
  }

  /** The pair stands at one position of the two lists of a pod that still owns its ports. */
  ghost predicate Listed(s: State, a: Attachment) {
    exists p :: p in s.pods && s.pods[p].Owns() && a in s.pods[p].Pairs()
  }

  /** Every pair at the controller is listed, a bridge, or left over from a failed detach or an unmet pod. */
  ghost predicate Contained(s: State) {
    forall a | a in s.sdn :: a in s.stale || Listed(s, a) || Bridged(s, a)
  }

  // ---------- containment, step by step ----------

  /** A step that adds no pairs and takes none away from any pod's lists. */
  lemma ListsGrow(s: State, s': State)
    requires Contained(s) && s'.sdn <= s.sdn && s.stale <= s'.stale && s.grabs <= s'.grabs
    requires forall p | p in s.pods && s.pods[p].Owns() ::
               p in s'.pods && s'.pods[p].Owns() && s.pods[p].Pairs() <= s'.pods[p].Pairs()
    ensures Contained(s')
  {
    hide Pod.Pairs;
    forall a | a in s'.sdn
      ensures a in s'.stale || Listed(s', a) || Bridged(s', a)
    {
      if Listed(s, a) {
        var p :| p in s.pods && s.pods[p].Owns() && a in s.pods[p].Pairs();
        assert a in s'.pods[p].Pairs();
      } else if Bridged(s, a) {
        var g :| g in s.grabs && g.purpose.Bridge? && a == GrabPair(g);
        assert g in s'.grabs;
      }
    }
  }

  lemma HandleContains(v6: V6, s: State, name: string, picked: string, order: seq<string>, linkLocals: seq<string>,
                       lostWrites: set<nat>)
    requires Inv(s) && Contained(s) && name in s.pods && Returns(v6, s, name, picked, order, linkLocals)
    ensures Contained(Handle(v6, s, name, picked, order, linkLocals, lostWrites))
  {
    var s' := Handle(v6, s, name, picked, order, linkLocals, lostWrites);
    HandleRest(v6, s, name, picked, order, linkLocals, lostWrites);
    if Grants(s, name, picked, order) {
      HandlePod(v6, s, name, picked, order, linkLocals, lostWrites);
      hide Handle, FreeNads, Inv;
      ListsGrow(s, s');
    } else {
      hide FreeNads, Inv;
      ListsGrow(s, s');
    }
  }

  lemma AttachContains(s: State, name: string, sdnFails: set<nat>)
    requires Contained(s) && name in s.pods && BothLists(s.pods[name]) && !s.pods[name].deleting
    ensures Contained(Attach(s, name, sdnFails))
  {
    var s' := Attach(s, name, sdnFails);
    var pod := s.pods[name];
    SameListsPairs(pod, s'.pods[name]);
    var calm := s'.(sdn := s.sdn);
    hide Pod.Pairs;
    ListsGrow(s, calm);
    forall a | a in s'.sdn
      ensures a in s'.stale || Listed(s', a) || Bridged(s', a)
    {
      if a in s.sdn {
        assert a in calm.stale || Listed(calm, a) || Bridged(calm, a);
      } else {
        PairsBelowListed(pod, Reach(pod.multus.value, sdnFails), {});
        assert a in s'.pods[name].Pairs();
      }
    }
  }

  lemma PairsBelowListed(pod: Pod, n: nat, except: set<nat>)
    requires n <= pod.Slots()
    ensures PairsBelow(pod, n, except) <= pod.Pairs()
  {
  }

  lemma SameListsPairs(a: Pod, b: Pod)
    requires a.node == b.node && a.l2sm == b.l2sm && a.multus == b.multus
    ensures a.Slots() == b.Slots() && a.Pairs() == b.Pairs() && a.Holds() == b.Holds()
  {
    assert forall i: nat | i < a.Slots() :: a.PairAt(i) == b.PairAt(i) && a.HoldAt(i) == b.HoldAt(i);
    assert forall x :: x in a.Pairs() <==> x in b.Pairs();
    assert forall x :: x in a.Holds() <==> x in b.Holds();
  }

  /** A pod stops owning its ports, and the pairs it leaves at the controller are written off as stale. */
  lemma StopContains(s: State, s': State, name: string)
    requires Contained(s) && PodStops(s, s', name) && s'.sdn <= s.sdn
    requires s'.stale >= s.stale + s.pods[name].Pairs() * s'.sdn
    ensures Contained(s')
  {
    hide Pod.Pairs;
    forall a | a in s'.sdn
      ensures a in s'.stale || Listed(s', a) || Bridged(s', a)
    {
      if Listed(s, a) {
        var p :| p in s.pods && s.pods[p].Owns() && a in s.pods[p].Pairs();
        assert p != name ==> p in s'.pods && s'.pods[p] == s.pods[p];
        assert p == name ==> a in s.pods[name].Pairs() * s'.sdn;
      } else if Bridged(s, a) {
        var g :| g in s.grabs && g.purpose.Bridge? && a == GrabPair(g);
        assert g in s'.grabs;
      }
    }
  }

  lemma DetachContains(s: State, name: string, sdnFails: set<nat>, api: ApiCalls)
    requires Contained(s) && Detaches(s, name)
    ensures Contained(Detach(s, name, sdnFails, api))
  {
    hide Pod.Pairs, PairsBelow, NamesBelow, Relabel;
    var s' := Detach(s, name, sdnFails, api);
    if Completes(s.pods[name], api) {
      DetachStops(s, name, sdnFails, api);
      StopContains(s, s', name);
    } else {
      ListsGrow(s, s');
    }
  }

  lemma DeleteContains(s: State, name: string)
    requires Contained(s) && name in s.pods
    ensures Contained(DeletePod(s, name))
  {
    var s' := DeletePod(s, name);
    var pod := s.pods[name];
    SameListsPairs(pod, pod.(deleting := true));
    if pod.deleting || L2SM in pod.finalizers {
      assert name in s'.pods && s'.pods == s.pods[name := pod.(deleting := true)];
      hide Pod.Pairs, DeletePod;
      ListsGrow(s, s');
    } else {
      DeleteStops(s, name);
      assert s'.sdn == s.sdn && s'.stale == s.stale + pod.Pairs() * s.sdn;
      hide Pod.Pairs, DeletePod, Contained, PodStops;
      StopContains(s, s', name);
    }
  }

  lemma DropContains(s: State, name: string, finalizer: string)
    requires Contained(s) && name in s.pods && finalizer != L2SM
    ensures Contained(DropFinalizer(s, name, finalizer))
  {
    var pod := s.pods[name];
    SameListsPairs(pod, pod.(finalizers := Without(pod.finalizers, finalizer)));
    hide Pod.Pairs;
    ListsGrow(s, DropFinalizer(s, name, finalizer));
  }

  lemma CreateContains(s: State, name: string, pod: Pod)
    requires Contained(s) && name !in s.pods
    ensures Contained(CreatePod(s, name, pod))
  {
    hide Pod.Pairs;
    ListsGrow(s, CreatePod(s, name, pod));
  }

  lemma NetworkUpContains(s: State, name: string, network: Network)
    requires Contained(s)
    ensures Contained(CreateNetwork(s, name, network))
  {
    hide Pod.Pairs;
    ListsGrow(s, CreateNetwork(s, name, network));
  }

  /** A network takes its pairs along, those of its bridge included. */
  lemma NetworkDownContains(s: State, name: string)
    requires Contained(s)
    ensures Contained(RemoveNetwork(s, name))
  {
    hide Pod.Pairs;
    var s' := RemoveNetwork(s, name);
    forall a | a in s'.sdn
      ensures a in s'.stale || Listed(s', a) || Bridged(s', a)
    {
      RemovedPairs(s, name, a);
    }
  }

  lemma RemovedPairs(s: State, name: string, a: Attachment)
    ensures Listed(RemoveNetwork(s, name), a) == Listed(s, a)
    ensures Bridged(RemoveNetwork(s, name), a) <==> Bridged(s, a) && a.network != name
  {
    hide Pod.Pairs;
    if Bridged(s, a) && a.network != name {
      var g :| g in s.grabs && g.purpose.Bridge? && a == GrabPair(g);
      assert g in RemoveNetwork(s, name).grabs;
    }
  }

  lemma AbandonContains(v6: V6, s: State, name: string, picked: string, order: seq<string>, linkLocals: seq<string>,
                        lostWrites: set<nat>, n: nat)
    requires Contained(s) && Grants(s, name, picked, order) && ServesTo(v6, s, name, linkLocals, n)
    ensures Contained(Abandon(v6, s, name, picked, order, linkLocals, lostWrites, n))
  {
    hide Pod.Pairs, FreeNads, ServesTo, Relabel, Taken;
    ListsGrow(s, Abandon(v6, s, name, picked, order, linkLocals, lostWrites, n));
  }

  lemma GrabsContain(s: State, network: string, node: string, order: seq<string>, callOk: bool, writeOk: bool)
    requires Contained(s)
    ensures Contained(ConnectNed(s, network, node, order, callOk, writeOk))
    ensures Contained(MirrorIds(s, network, node, order, callOk, writeOk))
  {
    hide Pod.Pairs, FreeNads;
    ListsGrow(s, MirrorIds(s, network, node, order, callOk, writeOk));
    var s' := ConnectNed(s, network, node, order, callOk, writeOk);
    var free := FreeNads(order, s.nads, node);
    if free == [] || !callOk {
    } else {
      var g := Grab(Bridge, network, Hold(node, free[0]));
      var calm := s'.(sdn := s.sdn);
      ListsGrow(s, calm);
      assert GrabPair(g) == Attachment(network, PortOf(g.at));
      forall a | a in s'.sdn
        ensures a in s'.stale || Listed(s', a) || Bridged(s', a)
      {
        if a in s.sdn {
          assert a in calm.stale || Listed(calm, a) || Bridged(calm, a);
        }
      }
    }
  }

  /** The position a move acts on. */
  function MovedAt(pod: Pod, source: string): (i: nat)
    requires Concerned(pod, source) && Readable(pod, source)
    ensures i < pod.Slots() && pod.l2sm.value[i].name == source
  {
    NetworkIndex(pod.l2sm.value, source)
  }

  /** Renaming one entry keeps every port, every other pair, and the length of both lists. */
  lemma RenamedPairs(pod: Pod, i: nat, target: string)
    requires i < pod.Slots()
    ensures var pod' := Renamed(pod, i, target);
            && pod'.multus == pod.multus && |pod'.l2sm.value| == |pod.l2sm.value|
            && pod'.Slots() == pod.Slots()
            && pod'.PairAt(i) == Attachment(target, pod.PairAt(i).port)
            && (forall j: nat | j < pod.Slots() && j != i :: pod'.PairAt(j) == pod.PairAt(j))
            && (forall j: nat | j < pod.Slots() :: pod'.HoldAt(j) == pod.HoldAt(j))
  {
  }

  lemma MoveContains(v6: V6, s: State, source: string, target: string, name: string, calls: Calls)
    requires Contained(s) && Movable(s, source, target) && name in s.pods && !s.pods[name].deleting
    requires !calls.PodWriteFails?
    ensures Contained(Move(v6, s, source, target, name, calls))
  {
    var pod := s.pods[name];
    var s' := Move(v6, s, source, target, name, calls);
    if Concerned(pod, source) && Readable(pod, source) && !calls.DetachFails? && !calls.AttachFails? {
      var i := MovedAt(pod, source);
      RenamedPairs(pod, i, target);
      MoveSwaps(v6, s, source, target, name, calls);
      hide Move, Renamed, Pod.PairAt;
      var pod' := s'.pods[name];
      forall a | a in s'.sdn
        ensures a in s'.stale || Listed(s', a) || Bridged(s', a)
      {
        if a == pod'.PairAt(i) {
          assert a in pod'.Pairs();
        } else if a in s.stale {
        } else if Listed(s, a) {
          var p :| p in s.pods && s.pods[p].Owns() && a in s.pods[p].Pairs();
          if p == name {
            var j :| 0 <= j < pod.Slots() && a == pod.PairAt(j);
            assert a == pod'.PairAt(j);
            assert a in pod'.Pairs();
          } else {
            assert s'.pods[p] == s.pods[p];
          }
        }
      }
    } else {
      hide Pod.Pairs;
      ListsGrow(s, s');
    }
  }

  /**
    A move that reaches its calls keeps every pair accounted for exactly if its pod write goes through: otherwise
    the controller is left with a pair that no list names.
   */
  lemma MoveContainsExactly(v6: V6, s: State, source: string, target: string, name: string, calls: Calls)
    requires Inv(s) && Contained(s) && Movable(s, source, target) && name in s.pods && !s.pods[name].deleting
    requires Concerned(s.pods[name], source) && Readable(s.pods[name], source)
    requires Attachment(target, s.pods[name].PairAt(MovedAt(s.pods[name], source)).port) !in s.stale
    ensures Contained(Move(v6, s, source, target, name, calls)) <==> !calls.PodWriteFails?
  {
    if calls.PodWriteFails? {
      var pod := s.pods[name];
      var i := MovedAt(pod, source);
      var a := Attachment(target, pod.PairAt(i).port);
      MoveStopsShort(v6, s, source, target, name, calls);
      ForeignPair(s, name, i, a);
      hide Inv, Move, Pod.PairAt;
      assert !Listed(Move(v6, s, source, target, name, calls), a);
      assert !Bridged(Move(v6, s, source, target, name, calls), a);
    } else {
      MoveContains(v6, s, source, target, name, calls);
    }
  }

  /** A move whose attach call or pod write fails: the controller has changed, the pod has not. */
  lemma MoveStopsShort(v6: V6, s: State, source: string, target: string, name: string, calls: Calls)
    requires Movable(s, source, target) && name in s.pods && (calls.AttachFails? || calls.PodWriteFails?)
    requires Concerned(s.pods[name], source) && Readable(s.pods[name], source)
    ensures var pod := s.pods[name];
            var i := MovedAt(pod, source);
            var detached := s.sdn - {pod.PairAt(i)};
            Move(v6, s, source, target, name, calls)
            == s.(sdn := if calls.AttachFails? then detached else detached + {Attachment(target, pod.PairAt(i).port)})
  {
    hide UpdateStatuses, NetworkIndex;
  }

  /** A move whose calls up to the pod write succeed. */
  lemma MoveSwaps(v6: V6, s: State, source: string, target: string, name: string, calls: Calls)
    requires Movable(s, source, target) && name in s.pods
    requires !calls.DetachFails? && !calls.AttachFails? && !calls.PodWriteFails?
    requires Concerned(s.pods[name], source) && Readable(s.pods[name], source)
    ensures var s', pod := Move(v6, s, source, target, name, calls), s.pods[name];
            var i := MovedAt(pod, source);
            && s'.sdn == s.sdn - {pod.PairAt(i)} + {Attachment(target, pod.PairAt(i).port)}
            && s'.pods == s.pods[name := Renamed(pod, i, target)] && s'.grabs == s.grabs && s'.stale == s.stale
  {
    hide UpdateStatuses, NetworkIndex, Renamed;
  }

  /** A pair on one of an owner's ports that is not the owner's own is no pair of any owner, and no bridge. */
  lemma ForeignPair(s: State, name: string, i: nat, a: Attachment)
    requires Inv(s) && name in s.pods && s.pods[name].Owns() && i < s.pods[name].Slots()
    requires a.port == PortOf(s.pods[name].HoldAt(i)) && a != s.pods[name].PairAt(i)
    ensures !Listed(s, a) && !Bridged(s, a)
  {
    hide Inv;
    if Listed(s, a) {
      var p :| p in s.pods && s.pods[p].Owns() && a in s.pods[p].Pairs();
      var j :| 0 <= j < s.pods[p].Slots() && a == s.pods[p].PairAt(j);
      PortHasOwner(s, name, i, Slot(p, j), s.pods[p].HoldAt(j));
    }
    if Bridged(s, a) {
      var g :| g in s.grabs && g.purpose.Bridge? && a == GrabPair(g);
      PortHasOwner(s, name, i, Taker(g), g.at);
    }
  }

  lemma PortHasOwner(s: State, name: string, i: nat, o: Owner, h: Hold)
    requires Inv(s) && name in s.pods && s.pods[name].Owns() && i < s.pods[name].Slots()
    requires Has(s, o, h) && PortOf(h) == PortOf(s.pods[name].HoldAt(i))
    ensures o == Slot(name, i)
  {
    hide Inv, Pod.HoldAt, PortOf;
    PortIsOwned(s, Slot(name, i), s.pods[name].HoldAt(i), o, h);
  }

  lemma {:induction false} SweepContains(v6: V6, s: State, source: string, target: string, names: seq<string>,
                                         calls: seq<Calls>, n: nat)
    requires Contained(s) && Movable(s, source, target) && n <= |names| <= |calls|
    requires forall x | x in names :: x in s.pods
    requires forall c | c in calls :: !c.PodWriteFails?
    ensures Contained(SweepTo(v6, s, source, target, names, calls, n).state)
  {
    hide Contained, Move, Judge;
    if n > 0 {
      SweepContains(v6, s, source, target, names, calls, n - 1);
      var w := SweepTo(v6, s, source, target, names, calls, n - 1);
      assert names[n - 1] in names && calls[n - 1] in calls;
      if !w.state.pods[names[n - 1]].deleting {
        MoveContains(v6, w.state, source, target, names[n - 1], calls[n - 1]);
      }
    }
  }

  // ---------- deletion leaves nothing behind ----------

  /** In a good state, a port belongs to one owner. */
  lemma PortIsOwned(s: State, o1: Owner, h1: Hold, o2: Owner, h2: Hold)
    requires Inv(s) && Has(s, o1, h1) && Has(s, o2, h2) && PortOf(h1) == PortOf(h2)
    ensures h1 == h2 && o1 == o2
  {
    assert Used(s, h1) && Used(s, h2);
    assert PortNumber(h1.nad).Ok? && PortNumber(h2.nad).Ok?;
  }

  /**
    When the detach calls and the API calls of a deletion succeed and no left-over pair names the pod's ports,
    the controller ends up with exactly the pairs it had minus the pod's, none of them on one of its ports; and
    exactly the pod's own interfaces become free, with every other label of every node as before. The pod loses this
    operator's finalizer and no other, and leaves the API exactly if it has none left.
   */
  lemma DeletionReleases(s: State, name: string)
    requires Inv(s) && Contained(s) && Detaches(s, name)
    requires forall a, i: nat | a in s.stale && i < s.pods[name].Slots() :: a.port != PortOf(s.pods[name].HoldAt(i))
    ensures var s' := Reconcile(s, name, {}, AllSucceed);
            var pod := s.pods[name];
            && s'.sdn == s.sdn - pod.Pairs()
            && (forall a, i: nat | a in s'.sdn && i < pod.Slots() :: a.port != PortOf(pod.HoldAt(i)))
            && (forall h :: Used(s', h) <==> Used(s, h) && h !in pod.Holds())
            && (forall x, key | x in s.nads && (x !in NamesBelow(pod, pod.Slots()) || key != LabelKey(pod.node)) ::
                  key in s'.nads[x] <==> key in s.nads[x])
            && (forall x, key | x in s.nads && key in s.nads[x]
                                && (x !in NamesBelow(pod, pod.Slots()) || key != LabelKey(pod.node)) ::
                  s'.nads[x][key] == s.nads[x][key])
            && s'.stale == s.stale && s'.lost == s.lost
            && LosesFinalizer(s, s', name, L2SM) && OnlyPod(s, s', name)
  {
    var s' := Reconcile(s, name, {}, AllSucceed);
    var pod := s.pods[name];
    DeletionCompletes(s, name);
    hide LosesFinalizer, OnlyPod;
    DetachFinishes(s, name);
    DetachReleases(s, name, {}, AllSucceed);
    NamesAreHolds(pod);
    PairsBelowAll(pod);
    DetachResult(s, name);
    hide Inv, Contained, Detach, Reconcile, PairsBelow, NamesBelow;
    forall a, i: nat | a in s.sdn && i < pod.Slots() && a.port == PortOf(pod.HoldAt(i))
      ensures a in pod.Pairs()
    {
      PortOfPod(s, name, a, i);
    }
    assert pod.Pairs() * s'.sdn == {};
  }

  lemma DeletionCompletes(s: State, name: string)
    requires Inv(s) && Detaches(s, name)
    ensures var s' := Reconcile(s, name, {}, AllSucceed); LosesFinalizer(s, s', name, L2SM) && OnlyPod(s, s', name)
  {
    DeletionFinalizers(s, name, {}, AllSucceed);
    FinishedExactly(s.pods[name], AllSucceed);
    DetachFinishes(s, name);
    hide Inv, Reconcile, LosesFinalizer, OnlyPod, Completes, Finished, Tried;
  }

  lemma PairsBelowAll(pod: Pod)
    ensures PairsBelow(pod, pod.Slots(), {}) == pod.Pairs()
  {
    assert forall a :: a in pod.Pairs() <==> a in PairsBelow(pod, pod.Slots(), {});
  }

  lemma DetachFinishes(s: State, name: string)
    requires Inv(s) && Detaches(s, name)
    ensures var pod := s.pods[name];
            && Finished(pod, AllSucceed) == pod.Slots() && Tried(pod, AllSucceed) == pod.Slots()
            && Completes(pod, AllSucceed)
  {
    var pod := s.pods[name];
    forall i: nat | i < pod.Slots()
      ensures PortNumber(pod.multus.value[i].name).Ok?
    {
      assert Has(s, Slot(name, i), pod.HoldAt(i));
    }
  }

  lemma DetachResult(s: State, name: string)
    requires Detaches(s, name)
    requires var pod := s.pods[name];
             Finished(pod, AllSucceed) == pod.Slots() && Tried(pod, AllSucceed) == pod.Slots()
    ensures var s', pod := Reconcile(s, name, {}, AllSucceed), s.pods[name];
            && s' == Detach(s, name, {}, AllSucceed)
            && s'.sdn == s.sdn - PairsBelow(pod, pod.Slots(), {})
            && s'.nads == Relabel(s.nads, NamesBelow(pod, pod.Slots()), pod.node, "false")
            && s'.lost == s.lost && s'.stale == s.stale + pod.Pairs() * s'.sdn
  {
    hide Finished, Tried, PairsBelow, Relabel, NamesBelow, Pod.Pairs;
  }

  /** A pair at the controller on one of an owner's ports is that owner's own, unless it is a left-over. */
  lemma PortOfPod(s: State, name: string, a: Attachment, i: nat)
    requires Inv(s) && Contained(s) && name in s.pods && s.pods[name].Owns() && i < s.pods[name].Slots()
    requires a in s.sdn && a !in s.stale && a.port == PortOf(s.pods[name].HoldAt(i))
    ensures a == s.pods[name].PairAt(i) && a in s.pods[name].Pairs()
  {
    hide Inv;
    if a != s.pods[name].PairAt(i) {
      ForeignPair(s, name, i, a);
    }
  }
}

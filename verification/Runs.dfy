/** Runs of the whole system: any interleaving of handler runs, users' requests and API housekeeping. */
module Runs {
  import opened Finalizers
  import opened NadNames
  import opened IpTexts
  import opened Admission
  import opened PodAdmission
  import opened Cluster
  import opened PortInvariant
  import opened HandlerEffects
  import opened Quarantine
  import opened QuarantineLaws
  import opened SdnAgreement
  import opened SdnEquality
  import opened MetPods
  import opened Conservation

  datatype Event =
    | Create(name: string, pod: Pod)
    | Admit(name: string, picked: string, order: seq<string>, linkLocals: seq<string>, lostWrites: set<nat>)
    | Abandoned(name: string, picked: string, order: seq<string>, linkLocals: seq<string>, lostWrites: set<nat>,
                served: nat)
    | Meet(name: string, sdnFails: set<nat>, api: ApiCalls)
    | Delete(name: string)
    | Drop(name: string, finalizer: string)
    | Isolate(matching: seq<string>, target: string, targetInSdn: bool, names: seq<string>, calls: seq<Calls>)
    | Ned(network: string, node: string, order: seq<string>, callOk: bool, writeOk: bool)
    | Ids(network: string, node: string, order: seq<string>, callOk: bool, writeOk: bool)
    | NetworkUp(network: string, fields: Network)
    | NetworkDown(network: string)

  /** When an event can happen, and its handler returns. */
  ghost predicate Enabled(v6: V6, s: State, e: Event) {
    match e
    case Create(name, pod) => name !in s.pods && Fresh(pod)
    case Admit(name, picked, order, linkLocals, _) =>
      name in s.pods && Lists(order, s.nads) && Returns(v6, s, name, picked, order, linkLocals)
    case Abandoned(name, picked, order, linkLocals, _, served) =>
      Lists(order, s.nads) && Grants(s, name, picked, order) && ServesTo(v6, s, name, linkLocals, served)
    case Meet(name, _, _) => name in s.pods
    case Delete(name) => name in s.pods
    case Drop(name, f) => name in s.pods && f != L2SM
    case Isolate(matching, target, _, names, calls) =>
      |matching| == 1 && |names| <= |calls| && Distinct(names)
      && (forall x | x in names :: x in s.pods) && (forall x | x in matching :: x in s.networks)
    case Ned(network, _, order, _, _) => network in s.networks && Lists(order, s.nads)
    case Ids(network, _, order, _, _) => network in s.networks && Lists(order, s.nads)
    case NetworkUp(_, _) => true
    case NetworkDown(_) => true
  }

  ghost function Apply(v6: V6, s: State, e: Event): State
    requires Enabled(v6, s, e)
  {
    match e
    case Create(name, pod) => CreatePod(s, name, pod)
    case Admit(name, picked, order, linkLocals, lostWrites) =>
      Handle(v6, s, name, picked, order, linkLocals, lostWrites)
    case Abandoned(name, picked, order, linkLocals, lostWrites, served) =>
      Abandon(v6, s, name, picked, order, linkLocals, lostWrites, served)
    case Meet(name, sdnFails, api) => Reconcile(s, name, sdnFails, api)
    case Delete(name) => DeletePod(s, name)
    case Drop(name, f) => DropFinalizer(s, name, f)
    case Isolate(matching, target, targetInSdn, names, calls) =>
      Reconciliation(v6, s, matching, target, targetInSdn, names, calls).1
    case Ned(network, node, order, callOk, writeOk) => ConnectNed(s, network, node, order, callOk, writeOk)
    case Ids(network, node, order, callOk, writeOk) => MirrorIds(s, network, node, order, callOk, writeOk)
    case NetworkUp(network, fields) => CreateNetwork(s, network, fields)
    case NetworkDown(network) => RemoveNetwork(s, network)
  }

  ghost predicate IsRun(v6: V6, trace: seq<State>, es: seq<Event>) {
    && |trace| == |es| + 1
    && forall i | 0 <= i < |es| :: Enabled(v6, trace[i], es[i]) && trace[i + 1] == Apply(v6, trace[i], es[i])
  }

  /**
    The API writes of interface labels and finalizers succeed, except in an admission that comes to nothing; the SDN
    controller may fail at any call.
   */
  ghost predicate Reliable(e: Event) {
    match e
    case Admit(_, _, _, _, lostWrites) => lostWrites == {}
    case Meet(_, _, api) => api.AllSucceed?
    case Ned(_, _, _, _, writeOk) => writeOk
    case Ids(_, _, _, _, writeOk) => writeOk
    case _ => true
  }

  // ---------- ports ----------

  lemma ReconcileKeeps(s: State, name: string, sdnFails: set<nat>)
    requires Inv(s) && name in s.pods
    ensures Inv(Reconcile(s, name, sdnFails, AllSucceed))
  {
    var pod := s.pods[name];
    if BothLists(pod) {
      if Detaches(s, name) {
        DetachFinishes(s, name);
        DetachKeepsExactly(s, name, sdnFails, AllSucceed);
      } else if !pod.deleting {
        AttachKeeps(s, name, sdnFails);
      }
    }
  }

  lemma IsolateKeeps(v6: V6, s: State, e: Event)
    requires Inv(s) && e.Isolate? && Enabled(v6, s, e)
    ensures Inv(Apply(v6, s, e))
  {
    hide Inv, SweepTo;
    assert e.matching[0] in e.matching;
    if e.target in s.networks && e.matching[0] != e.target {
      SweepKeeps(v6, s, e.matching[0], e.target, e.names, e.calls, |e.names|);
    }
  }

  lemma StepKeeps(v6: V6, s: State, e: Event)
    requires Inv(s) && Enabled(v6, s, e) && Reliable(e)
    ensures Inv(Apply(v6, s, e))
  {
    hide Inv, Handle, Abandon, Reconcile, CreatePod, DeletePod, DropFinalizer, ConnectNed, MirrorIds, CreateNetwork,
         RemoveNetwork, Reconciliation, FreeNads, Returns;
    match e
    case Create(name, pod) => CreateKeeps(s, name, pod);
    case Admit(name, picked, order, linkLocals, lostWrites) =>
      if Grants(s, name, picked, order) {
        HandleKeepsExactly(v6, s, name, picked, order, linkLocals, lostWrites);
      } else {
        HandleIdle(v6, s, name, picked, order, linkLocals, lostWrites);
      }
    case Abandoned(name, picked, order, linkLocals, lostWrites, served) =>
      AbandonKeeps(v6, s, name, picked, order, linkLocals, lostWrites, served);
    case Meet(name, sdnFails, api) => ReconcileKeeps(s, name, sdnFails);
    case Delete(name) => DeleteKeeps(s, name);
    case Drop(name, f) => DropKeeps(s, name, f);
    case Isolate(_, _, _, _, _) => IsolateKeeps(v6, s, e);
    case Ned(network, node, order, callOk, writeOk) => NedKeepsExactly(s, network, node, order, callOk, writeOk);
    case Ids(network, node, order, callOk, writeOk) => IdsKeepsExactly(s, network, node, order, callOk, writeOk);
    case NetworkUp(network, fields) => NetworkUpKeeps(s, network, fields);
    case NetworkDown(network) => NetworkDownKeeps(s, network);
  }

  lemma HandleIdle(v6: V6, s: State, name: string, picked: string, order: seq<string>, linkLocals: seq<string>,
                   lostWrites: set<nat>)
    requires Inv(s) && name in s.pods && !Grants(s, name, picked, order)
    ensures Inv(Handle(v6, s, name, picked, order, linkLocals, lostWrites))
  {
    hide Ports, Pool, Matched, Handle;
    HandleRest(v6, s, name, picked, order, linkLocals, lostWrites);
  }

  lemma {:induction false} RunKeeps(v6: V6, trace: seq<State>, es: seq<Event>, i: nat)
    requires IsRun(v6, trace, es) && Inv(trace[0]) && i <= |es|
    requires forall e | e in es :: Reliable(e)
    ensures Inv(trace[i])
  {
    hide Inv, Enabled, Apply, Reliable;
    if i > 0 {
      RunKeeps(v6, trace, es, i - 1);
      StepKeeps(v6, trace[i - 1], es[i - 1]);
    }
  }

  lemma {:induction false} PoolIsFixed(v6: V6, trace: seq<State>, es: seq<Event>, i: nat)
    requires IsRun(v6, trace, es) && i <= |es|
    ensures trace[i].nads.Keys == trace[0].nads.Keys
  {
    hide Enabled, Apply;
    if i > 0 {
      PoolIsFixed(v6, trace, es, i - 1);
      StepPool(v6, trace[i - 1], es[i - 1]);
    }
  }

  lemma StepPool(v6: V6, s: State, e: Event)
    requires Enabled(v6, s, e)
    ensures Apply(v6, s, e).nads.Keys == s.nads.Keys
  {
    hide FreeNads, Served, SweepTo, PairsBelow, NamesBelow, Taken;
    if e.Isolate? && e.target in s.networks && e.matching[0] != e.target {
      assert e.matching[0] in e.matching;
      SweepFrame(v6, s, e.matching[0], e.target, e.names, e.calls, |e.names|);
    }
  }

  lemma {:induction false} SweepFrame(v6: V6, s: State, source: string, target: string, names: seq<string>,
                                      calls: seq<Calls>, n: nat)
    requires Movable(s, source, target) && n <= |names| <= |calls|
    requires forall x | x in names :: x in s.pods
    ensures var s' := SweepTo(v6, s, source, target, names, calls, n).state;
            && s'.nads == s.nads && s'.grabs == s.grabs && s'.lost == s.lost && s'.stale == s.stale
            && (forall p | p in s.pods :: s'.pods[p].multus == s.pods[p].multus && s'.pods[p].node == s.pods[p].node)
  {
    hide Move, SweepTo;
    if n == 0 {
      SweepNone(v6, s, source, target, names, calls);
    } else {
      SweepFrame(v6, s, source, target, names, calls, n - 1);
      assert names[n - 1] in names;
      SweepStepState(v6, s, source, target, names, calls, n);
      MoveFrame(v6, SweepTo(v6, s, source, target, names, calls, n - 1).state, source, target, names[n - 1],
                calls[n - 1]);
    }
  }

  lemma SweepStepState(v6: V6, s: State, source: string, target: string, names: seq<string>, calls: seq<Calls>, n: nat)
    requires Movable(s, source, target) && 0 < n <= |names| <= |calls|
    requires forall x | x in names :: x in s.pods
    ensures var w := SweepTo(v6, s, source, target, names, calls, n - 1);
            && names[n - 1] in w.state.pods
            && (SweepTo(v6, s, source, target, names, calls, n).state == w.state
                || SweepTo(v6, s, source, target, names, calls, n).state
                   == Move(v6, w.state, source, target, names[n - 1], calls[n - 1]))
  {
    hide Move, Judge;
    assert names[n - 1] in names;
  }

  lemma MoveFrame(v6: V6, s: State, source: string, target: string, name: string, calls: Calls)
    requires Movable(s, source, target) && name in s.pods
    ensures var s' := Move(v6, s, source, target, name, calls);
            && s'.nads == s.nads && s'.grabs == s.grabs && s'.lost == s.lost && s'.stale == s.stale
            && (forall p | p in s.pods :: s'.pods[p].multus == s.pods[p].multus && s'.pods[p].node == s.pods[p].node)
  {
    hide UpdateStatuses, NetworkIndex;
  }

  /**
    Port exclusivity. From a fresh overlay, under any interleaving of reliable events, no two owners hold the same
    interface of a node, every held interface carries the node's used label and so is not offered to anyone, and
    free interfaces, owners and lost ports of each node add up to the overlay's interface number.
   */
  lemma PortExclusivity(v6: V6, trace: seq<State>, es: seq<Event>, overlay: string, size: nat, i: nat)
    requires IsRun(v6, trace, es) && Initial(trace[0], overlay, size) && i <= |es|
    requires forall e | e in es :: Reliable(e)
    ensures forall o1, o2, h :: Has(trace[i], o1, h) && Has(trace[i], o2, h) ==> o1 == o2
    ensures forall o, h, order: seq<string> :: Has(trace[i], o, h) ==>
              Used(trace[i], h) && h.nad !in FreeNads(order, trace[i].nads, h.node)
    ensures forall node :: |FreeOn(trace[i], node)| + |OwnersOn(trace[i], node)| + |LostOn(trace[i], node)| == size
  {
    InitialInv(trace[0], overlay, size);
    RunKeeps(v6, trace, es, i);
    InitialSize(trace[0], overlay, size);
    PoolIsFixed(v6, trace, es, i);
    hide IsRun, Has;
    assert |trace[i].nads| == |trace[i].nads.Keys| == |trace[0].nads.Keys| == |trace[0].nads|;
    forall node
      ensures |FreeOn(trace[i], node)| + |OwnersOn(trace[i], node)| + |LostOn(trace[i], node)| == size
    {
      Conserved(trace[i], node);
    }
  }

  // ---------- what is lost ----------

  /**
    The event loses no interface: a deletion request meets a pod that is being deleted, carries the finalizer or has
    no ports; a network that leaves had taken no interface; an admission that comes to nothing had labelled none.
   */
  ghost predicate Orderly(s: State, e: Event) {
    match e
    case Delete(name) =>
      name in s.pods && (s.pods[name].deleting || L2SM in s.pods[name].finalizers || s.pods[name].Slots() == 0)
    case NetworkDown(network) => forall g | g in s.grabs :: g.network != network
    case Abandoned(_, _, _, _, lostWrites, served) => forall i: nat | i < served :: i in lostWrites
    case _ => true
  }

  /** What is lost stays lost, and an event adds to it exactly if it is not orderly. */
  lemma StepLosesExactly(v6: V6, s: State, e: Event)
    requires Inv(s) && Enabled(v6, s, e)
    ensures s.lost <= Apply(v6, s, e).lost
    ensures Apply(v6, s, e).lost == s.lost <==> Orderly(s, e)
  {
    hide Inv, Handle, Abandon, Reconcile, DeletePod, RemoveNetwork, FreeNads, Returns, ServesTo, SweepTo, Relabel;
    match e
    case Admit(name, picked, order, linkLocals, lostWrites) =>
      HandleLeaves(v6, s, name, picked, order, linkLocals, lostWrites);
    case Abandoned(name, picked, order, linkLocals, lostWrites, served) =>
      AbandonLosesExactly(v6, s, name, picked, order, linkLocals, lostWrites, served);
    case Meet(name, sdnFails, api) => ReconcileLosesNothing(s, name, sdnFails, api);
    case Isolate(matching, target, _, names, calls) =>
      assert matching[0] in matching;
      if target in s.networks && matching[0] != target {
        SweepFrame(v6, s, matching[0], target, names, calls, |names|);
      }
    case Delete(name) => DeleteLosesExactly(s, name);
    case NetworkDown(network) => RemovalLosesExactly(s, network);
    case _ =>
  }

  lemma ReconcileLosesNothing(s: State, name: string, sdnFails: set<nat>, api: ApiCalls)
    requires name in s.pods
    ensures Reconcile(s, name, sdnFails, api).lost == s.lost
  {
    hide PairsBelow, NamesBelow, Relabel, Pod.Pairs, Finished, Tried, Completes, Reach, NetworksExist;
  }

  lemma DeleteLosesExactly(s: State, name: string)
    requires Inv(s) && name in s.pods
    ensures s.lost <= DeletePod(s, name).lost
    ensures DeletePod(s, name).lost == s.lost <==> Orderly(s, Delete(name))
  {
    var pod := s.pods[name];
    DeleteRest(s, name);
    if !pod.deleting && L2SM !in pod.finalizers && pod.Slots() > 0 {
      assert Has(s, Slot(name, 0), pod.HoldAt(0));
      assert pod.HoldAt(0) in pod.Holds();
      hide DeletePod, Pod.HoldAt;
    } else if pod.Slots() == 0 {
      assert pod.Holds() == {};
    }
  }

  lemma RemovalLosesExactly(s: State, network: string)
    requires Inv(s)
    ensures s.lost <= RemoveNetwork(s, network).lost
    ensures RemoveNetwork(s, network).lost == s.lost <==> Orderly(s, NetworkDown(network))
  {
    if g :| g in s.grabs && g.network == network {
      assert Has(s, Taker(g), g.at);
      assert g.at in GrabbedFor(s, network);
    }
  }

  lemma AbandonLosesExactly(v6: V6, s: State, name: string, picked: string, order: seq<string>, linkLocals: seq<string>,
                            lostWrites: set<nat>, served: nat)
    requires Inv(s) && Grants(s, name, picked, order) && ServesTo(v6, s, name, linkLocals, served)
    ensures var s' := Abandon(v6, s, name, picked, order, linkLocals, lostWrites, served);
            && s.lost <= s'.lost
            && (s'.lost == s.lost <==> Orderly(s, Abandoned(name, picked, order, linkLocals, lostWrites, served)))
  {
    var node := NodeFor(s.pods[name], picked);
    var free := FreeNads(order, s.nads, node);
    TakenAreFree(s, order, node, served, lostWrites);
    hide FreeNads, Served, Relabel;
    if i: nat :| i < served && i !in lostWrites {
      assert free[i] in Taken(free, served, lostWrites);
      assert Hold(node, free[i]) in HoldsOn(node, Taken(free, served, lostWrites));
    }
  }

  lemma {:induction false} RunLosesExactly(v6: V6, trace: seq<State>, es: seq<Event>, i: nat)
    requires IsRun(v6, trace, es) && Inv(trace[0]) && i <= |es|
    requires forall e | e in es :: Reliable(e)
    ensures trace[0].lost <= trace[i].lost
    ensures trace[i].lost == trace[0].lost <==> forall j | 0 <= j < i :: Orderly(trace[j], es[j])
  {
    hide Inv, Enabled, Apply, Orderly, Reliable;
    if i > 0 {
      RunLosesExactly(v6, trace, es, i - 1);
      RunKeeps(v6, trace, es, i - 1);
      StepLosesExactly(v6, trace[i - 1], es[i - 1]);
    }
  }

  /**
    Interface conservation. The free interfaces and the owners of every node add up to the interface number exactly
    as long as every event was orderly: once an interface is lost, it is lost for good. SDN calls may fail.
   */
  lemma InterfacesConservedExactly(v6: V6, trace: seq<State>, es: seq<Event>, overlay: string, size: nat, i: nat)
    requires IsRun(v6, trace, es) && Initial(trace[0], overlay, size) && i <= |es|
    requires forall e | e in es :: Reliable(e)
    ensures (forall node :: |FreeOn(trace[i], node)| + |OwnersOn(trace[i], node)| == size) <==>
            (forall j | 0 <= j < i :: Orderly(trace[j], es[j]))
  {
    InitialInv(trace[0], overlay, size);
    RunLosesExactly(v6, trace, es, i);
    RunKeeps(v6, trace, es, i);
    PortExclusivity(v6, trace, es, overlay, size, i);
    var s := trace[i];
    LostSomewhere(s);
    hide Inv, Enabled, Apply, Reliable, Orderly, FreeOn, OwnersOn, LostOn, FreeNads, Has, Used;
    if forall j | 0 <= j < i :: Orderly(trace[j], es[j]) {
      assert forall node :: |LostOn(s, node)| == 0;
    } else {
      var node :| LostOn(s, node) != {};
      assert |LostOn(s, node)| > 0;
      assert |FreeOn(s, node)| + |OwnersOn(s, node)| < size;
    }
  }

  lemma LostSomewhere(s: State)
    requires Inv(s)
    ensures s.lost == {} <==> forall node :: LostOn(s, node) == {}
  {
    hide Has;
    if h :| h in s.lost {
      assert Used(s, h);
      assert h.nad in LostOn(s, h.node);
    }
  }

  /** Every owner is there: a pod of the API, or a network that still exists. */
  lemma {:induction false} OwnersExist(v6: V6, trace: seq<State>, es: seq<Event>, overlay: string, size: nat, i: nat)
    requires IsRun(v6, trace, es) && Initial(trace[0], overlay, size) && i <= |es|
    ensures forall g | g in trace[i].grabs :: g.network in trace[i].networks
    ensures forall o, h | Has(trace[i], o, h) ::
              match o case Slot(p, _) => p in trace[i].pods case Taker(g) => g.network in trace[i].networks
  {
    hide Enabled, Apply;
    if i > 0 {
      OwnersExist(v6, trace, es, overlay, size, i - 1);
      StepTakers(v6, trace[i - 1], es[i - 1]);
    }
  }

  lemma StepTakers(v6: V6, s: State, e: Event)
    requires Enabled(v6, s, e) && forall g | g in s.grabs :: g.network in s.networks
    ensures var s' := Apply(v6, s, e); forall g | g in s'.grabs :: g.network in s'.networks
  {
    hide FreeNads, Served, SweepTo, PairsBelow, NamesBelow, Taken, Relabel, Reach, Finished, Tried, Completes,
         Pod.Pairs, Pod.Holds, Multus;
    match e
    case Admit(name, picked, order, linkLocals, lostWrites) =>
      if Grants(s, name, picked, order) {
        var wanted := s.pods[name].l2sm.value;
        ServedShape(v6, s.networks, wanted, name, linkLocals, |wanted|);
      }
    case Abandoned(name, picked, order, linkLocals, lostWrites, served) =>
      ServedShape(v6, s.networks, s.pods[name].l2sm.value, name, linkLocals, served);
    case Isolate(matching, target, _, names, calls) =>
      assert matching[0] in matching;
      if target in s.networks && matching[0] != target {
        SweepFrame(v6, s, matching[0], target, names, calls, |names|);
      }
    case _ =>
  }

  // ---------- the SDN controller ----------

  /** The API writes of interface labels, finalizers and quarantined pods succeed. */
  ghost predicate Written(e: Event) {
    Reliable(e) && (e.Isolate? ==> forall c | c in e.calls :: !c.PodWriteFails?)
  }

  /** The detach calls of a deletion succeed. */
  ghost predicate Detaching(s: State, e: Event) {
    e.Meet? && e.name in s.pods && s.pods[e.name].deleting ==> e.sdnFails == {}
  }

  /** Quarantine moves only pods that carry the finalizer. */
  ghost predicate IsolatesMet(s: State, e: Event) {
    e.Isolate? && |e.matching| == 1 ==> Met(s, e.names, e.matching[0])
  }

  lemma StepContains(v6: V6, s: State, e: Event)
    requires Inv(s) && Contained(s) && Enabled(v6, s, e) && Written(e)
    ensures Contained(Apply(v6, s, e))
  {
    hide Inv, Contained, Handle, Attach, Detach, CreatePod, DeletePod, DropFinalizer, ConnectNed, MirrorIds,
         CreateNetwork, RemoveNetwork, FreeNads, Returns, SweepTo;
    match e
    case Create(name, pod) => CreateContains(s, name, pod);
    case Admit(name, picked, order, linkLocals, lostWrites) =>
      HandleContains(v6, s, name, picked, order, linkLocals, lostWrites);
    case Abandoned(name, picked, order, linkLocals, lostWrites, served) =>
      AbandonContains(v6, s, name, picked, order, linkLocals, lostWrites, served);
    case Meet(name, sdnFails, api) =>
      if Detaches(s, name) {
        DetachContains(s, name, sdnFails, api);
      } else if BothLists(s.pods[name]) && !s.pods[name].deleting {
        AttachContains(s, name, sdnFails);
      }
    case Delete(name) => DeleteContains(s, name);
    case Drop(name, f) => DropContains(s, name, f);
    case Isolate(matching, target, _, names, calls) =>
      assert matching[0] in matching;
      if target in s.networks && matching[0] != target {
        SweepContains(v6, s, matching[0], target, names, calls, |names|);
      }
    case Ned(network, node, order, callOk, writeOk) => GrabsContain(s, network, node, order, callOk, writeOk);
    case Ids(network, node, order, callOk, writeOk) => GrabsContain(s, network, node, order, callOk, writeOk);
    case NetworkUp(network, fields) => NetworkUpContains(s, network, fields);
    case NetworkDown(network) => NetworkDownContains(s, network);
  }

  /**
    In every run whose API writes succeed, whatever SDN calls fail, each pair at the controller stands at one
    position of the two lists of a pod that owns its ports, or is a bridge, or was left by a failed detach or by the
    deletion of a pod the reconciler had not met.
   */
  lemma {:induction false} RunContains(v6: V6, trace: seq<State>, es: seq<Event>, i: nat)
    requires IsRun(v6, trace, es) && Inv(trace[0]) && Contained(trace[0]) && i <= |es|
    requires forall e | e in es :: Written(e)
    ensures Contained(trace[i])
  {
    hide Inv, Contained, Enabled, Apply, Reliable;
    if i > 0 {
      RunContains(v6, trace, es, i - 1);
      RunKeeps(v6, trace, es, i - 1);
      StepContains(v6, trace[i - 1], es[i - 1]);
    }
  }

  lemma StepMet(v6: V6, s: State, e: Event)
    requires Inv(s) && MetContained(s) && Enabled(v6, s, e) && Written(e) && Detaching(s, e) && IsolatesMet(s, e)
    ensures MetContained(Apply(v6, s, e))
  {
    hide Inv, MetContained, Handle, Attach, Detach, DeletePod, DropFinalizer, ConnectNed, FreeNads, Returns, SweepTo,
         Met;
    match e
    case Create(name, pod) => CreateMet(s, name, pod);
    case Admit(name, picked, order, linkLocals, lostWrites) =>
      HandleMet(v6, s, name, picked, order, linkLocals, lostWrites);
    case Abandoned(_, _, _, _, _, _) => OthersMet(s, Apply(v6, s, e));
    case Meet(name, sdnFails, api) =>
      if Detaches(s, name) {
        DetachMetExactly(s, name, sdnFails);
      } else if BothLists(s.pods[name]) && !s.pods[name].deleting {
        AttachMet(s, name, sdnFails);
      }
    case Delete(name) => DeleteMet(s, name);
    case Drop(name, f) => DropMet(s, name, f);
    case Isolate(matching, target, _, names, calls) =>
      assert matching[0] in matching;
      if target in s.networks && matching[0] != target {
        SweepMet(v6, s, matching[0], target, names, calls, |names|);
      }
    case Ned(network, node, order, callOk, writeOk) => NedMet(s, network, node, order, callOk, writeOk);
    case Ids(network, node, order, callOk, writeOk) => OthersMet(s, Apply(v6, s, e));
    case NetworkUp(network, fields) => OthersMet(s, Apply(v6, s, e));
    case NetworkDown(network) => NetworkDownMet(s, network);
  }

  /**
    SDN containment. When the API writes and the detach calls succeed and quarantine moves only pods that carry the
    finalizer, every pair the controller holds stands at one position of the two annotation lists of a pod that
    carries the finalizer, or is a bridge. Attach calls and all other quarantine calls may fail anywhere, and pods may
    be deleted at any time.
   */
  lemma {:induction false} SdnContainment(v6: V6, trace: seq<State>, es: seq<Event>, overlay: string, size: nat, i: nat)
    requires IsRun(v6, trace, es) && Initial(trace[0], overlay, size) && i <= |es|
    requires forall j | 0 <= j < |es| :: Written(es[j]) && Detaching(trace[j], es[j]) && IsolatesMet(trace[j], es[j])
    ensures forall a | a in trace[i].sdn :: Attached(trace[i], a) || Bridged(trace[i], a)
  {
    hide Enabled, Apply, Attached, Bridged, Inv, Reliable, Detaching, IsolatesMet;
    if i > 0 {
      SdnContainment(v6, trace, es, overlay, size, i - 1);
      InitialInv(trace[0], overlay, size);
      RunKeeps(v6, trace, es, i - 1);
      StepMet(v6, trace[i - 1], es[i - 1]);
    }
  }

  // ---------- what deletions leave behind ----------

  /** Every pair written off is on the port of a lost interface. */
  ghost predicate StaleIsLost(s: State) {
    forall a | a in s.stale :: exists h :: h in s.lost && a.port == PortOf(h)
  }

  lemma StepStale(v6: V6, s: State, e: Event)
    requires Inv(s) && StaleIsLost(s) && Enabled(v6, s, e) && Reliable(e) && Detaching(s, e)
    ensures StaleIsLost(Apply(v6, s, e))
  {
    hide Inv, Handle, Reconcile, DeletePod, FreeNads, Returns, SweepTo, Relabel, PortOf;
    match e
    case Admit(name, picked, order, linkLocals, lostWrites) =>
      HandleLeaves(v6, s, name, picked, order, linkLocals, lostWrites);
    case Meet(name, sdnFails, api) => ReconcileLeaves(s, name, sdnFails);
    case Isolate(matching, target, _, names, calls) =>
      assert matching[0] in matching;
      if target in s.networks && matching[0] != target {
        SweepFrame(v6, s, matching[0], target, names, calls, |names|);
      }
    case Delete(name) => DeleteLeaves(s, name);
    case _ =>
  }

  lemma HandleLeaves(v6: V6, s: State, name: string, picked: string, order: seq<string>, linkLocals: seq<string>,
                     lostWrites: set<nat>)
    requires name in s.pods && Returns(v6, s, name, picked, order, linkLocals)
    ensures var s' := Handle(v6, s, name, picked, order, linkLocals, lostWrites);
            s'.lost == s.lost && s'.stale == s.stale
  {
    hide Served, FreeNads, Taken, Relabel, Multus;
  }

  lemma ReconcileLeaves(s: State, name: string, sdnFails: set<nat>)
    requires Inv(s) && name in s.pods && (s.pods[name].deleting ==> sdnFails == {})
    ensures var s' := Reconcile(s, name, sdnFails, AllSucceed); s'.lost == s.lost && s'.stale == s.stale
  {
    hide Inv, Detach, Reach, NetworksExist, PairsBelow, Pod.Pairs;
    if Detaches(s, name) {
      DetachFinishes(s, name);
      DetachResult(s, name);
      PairsBelowAll(s.pods[name]);
      assert s.pods[name].Pairs() * (s.sdn - s.pods[name].Pairs()) == {};
    }
  }

  lemma DeleteLeaves(s: State, name: string)
    requires StaleIsLost(s) && name in s.pods
    ensures StaleIsLost(DeletePod(s, name))
  {
    hide PortOf;
    var pod, s' := s.pods[name], DeletePod(s, name);
    forall a | a in s'.stale
      ensures exists h :: h in s'.lost && a.port == PortOf(h)
    {
      if a in s.stale {
        var h :| h in s.lost && a.port == PortOf(h);
        assert h in s'.lost;
      } else {
        var i :| 0 <= i < pod.Slots() && a == pod.PairAt(i);
        assert pod.HoldAt(i) in s'.lost && a.port == PortOf(pod.HoldAt(i));
      }
    }
  }

  lemma {:induction false} RunStale(v6: V6, trace: seq<State>, es: seq<Event>, i: nat)
    requires IsRun(v6, trace, es) && Inv(trace[0]) && StaleIsLost(trace[0]) && i <= |es|
    requires forall j | 0 <= j < |es| :: Reliable(es[j]) && Detaching(trace[j], es[j])
    ensures StaleIsLost(trace[i])
  {
    hide Inv, StaleIsLost, Enabled, Apply, Reliable, Detaching;
    if i > 0 {
      RunStale(v6, trace, es, i - 1);
      RunKeeps(v6, trace, es, i - 1);
      StepStale(v6, trace[i - 1], es[i - 1]);
    }
  }

  /** A lost interface has no owner, so no pair written off is on an owner's port. */
  lemma StaleOffPorts(s: State, name: string, a: Attachment, i: nat)
    requires Inv(s) && StaleIsLost(s) && a in s.stale
    requires name in s.pods && s.pods[name].Owns() && i < s.pods[name].Slots()
    ensures a.port != PortOf(s.pods[name].HoldAt(i))
  {
    var h :| h in s.lost && a.port == PortOf(h);
    var at := s.pods[name].HoldAt(i);
    assert Has(s, Slot(name, i), at);
    assert Used(s, h) && Used(s, at);
    hide Pod.HoldAt;
    assert PortNumber(h.nad).Ok? && PortNumber(at.nad).Ok?;
  }

  /** The reconciler meets the pod for the first time, and its lists are there. */
  ghost predicate MeetsFirst(s: State, name: string) {
    name in s.pods && BothLists(s.pods[name]) && !s.pods[name].deleting && L2SM !in s.pods[name].finalizers
  }

  /**
    The event leaves the controller and the met pods in agreement: all attach and detach calls of a first meeting or
    a deletion succeed and its networks exist; quarantine moves only met pods, and neither an attach call nor a pod
    write of it fails; a network that leaves has no met pod on it.
   */
  ghost predicate Clean(s: State, e: Event) {
    && Written(e)
    && match e
       case Meet(name, sdnFails, _) =>
         && (Detaches(s, name) ==> sdnFails == {})
         && (MeetsFirst(s, name) ==> sdnFails == {} && NetworksExist(s.networks, s.pods[name].l2sm.value))
       case Isolate(_, _, _, _, calls) => IsolatesMet(s, e) && forall c | c in calls :: !c.AttachFails?
       case NetworkDown(network) => forall a | Attached(s, a) :: a.network != network
       case _ => true
  }

  lemma StepAgrees(v6: V6, s: State, e: Event)
    requires Inv(s) && Agreed(s) && Enabled(v6, s, e) && Clean(s, e)
    ensures Agreed(Apply(v6, s, e))
  {
    hide Inv, Agreed, Handle, Attach, Detach, CreatePod, DeletePod, DropFinalizer, ConnectNed, MirrorIds,
         CreateNetwork, RemoveNetwork, FreeNads, Returns, SweepTo;
    match e
    case Create(name, pod) => CreateAgrees(s, name, pod);
    case Admit(name, picked, order, linkLocals, lostWrites) =>
      HandleAgrees(v6, s, name, picked, order, linkLocals, lostWrites);
    case Abandoned(name, picked, order, linkLocals, lostWrites, served) =>
      AbandonAgrees(v6, s, name, picked, order, linkLocals, lostWrites, served);
    case Meet(name, sdnFails, api) =>
      if Detaches(s, name) {
        DetachAgrees(s, name);
      } else if BothLists(s.pods[name]) && !s.pods[name].deleting && L2SM !in s.pods[name].finalizers {
        AttachAgrees(s, name);
      }
    case Delete(name) => DeleteAgrees(s, name);
    case Drop(name, f) => DropAgrees(s, name, f);
    case Isolate(matching, target, _, names, calls) =>
      assert matching[0] in matching;
      if target in s.networks && matching[0] != target {
        PassAgrees(v6, s, matching[0], target, names, calls, |names|);
      }
    case Ned(network, node, order, callOk, writeOk) => NedAgrees(s, network, node, order, callOk, writeOk);
    case Ids(network, node, order, callOk, writeOk) => MirrorAgrees(s, network, node, order, callOk, writeOk);
    case NetworkUp(network, fields) => CreateNetworkAgrees(s, network, fields);
    case NetworkDown(network) => RemoveNetworkAgreesExactly(s, network);
  }

  /**
    SDN agreement. In a clean run, the controller holds exactly the pairs of the pods that carry the finalizer,
    and the bridges.
   */
  lemma {:induction false} SdnAgreementHolds(v6: V6, trace: seq<State>, es: seq<Event>, overlay: string, size: nat,
                                             i: nat)
    requires IsRun(v6, trace, es) && Initial(trace[0], overlay, size) && i <= |es|
    requires forall j | 0 <= j < |es| :: Clean(trace[j], es[j])
    ensures Agreed(trace[i])
    ensures forall a :: a in trace[i].sdn <==> Attached(trace[i], a) || Bridged(trace[i], a)
  {
    if i > 0 {
      hide Enabled, Apply, Agreed, Inv;
      SdnAgreementHolds(v6, trace, es, overlay, size, i - 1);
      InitialInv(trace[0], overlay, size);
      RunKeeps(v6, trace, es, i - 1);
      StepAgrees(v6, trace[i - 1], es[i - 1]);
      AgreedSays(trace[i]);
    }
  }

  lemma AgreedSays(s: State)
    requires Agreed(s)
    ensures forall a :: a in s.sdn <==> Attached(s, a) || Bridged(s, a)
  {
  }

  // ---------- a pod's ports from Handle to deletion ----------

  lemma StepFixesPorts(v6: V6, s: State, e: Event, name: string)
    requires Enabled(v6, s, e) && name in s.pods && s.pods[name].multus.Some?
    ensures var s' := Apply(v6, s, e);
            name in s'.pods ==> s'.pods[name].multus == s.pods[name].multus && s'.pods[name].node == s.pods[name].node
  {
    hide FreeNads, Served, SweepTo, PairsBelow, NamesBelow, Taken, Relabel, Reach;
    if e.Isolate? && e.target in s.networks && e.matching[0] != e.target {
      assert e.matching[0] in e.matching;
      SweepFrame(v6, s, e.matching[0], e.target, e.names, e.calls, |e.names|);
    }
  }

  /** From the admission at step j on, for as long as the pod exists, its ports are the ones Handle gave it. */
  lemma {:induction false} PortsStay(v6: V6, trace: seq<State>, es: seq<Event>, name: string, j: nat, i: nat)
    requires IsRun(v6, trace, es) && j <= i <= |es|
    requires forall k | j <= k <= i :: name in trace[k].pods
    requires trace[j].pods[name].multus.Some?
    ensures trace[i].pods[name].multus == trace[j].pods[name].multus
            && trace[i].pods[name].node == trace[j].pods[name].node
  {
    hide Enabled, Apply;
    if j < i {
      PortsStay(v6, trace, es, name, j, i - 1);
      StepFixesPorts(v6, trace[i - 1], es[i - 1], name);
    }
  }

  /**
    Quarantine, then delete. When the API writes and the detach calls succeed, however often a pod was moved between
    networks since Handle gave it its ports at step j, its deletion at step i takes exactly its current pairs from the
    controller, leaves none there on any of its ports, frees exactly the interfaces Handle had given it, and touches
    no other label. The pod goes, unless finalizers of others hold it: those stay, in order.
   */
  lemma DeletionUndoesHandle(v6: V6, trace: seq<State>, es: seq<Event>, overlay: string, size: nat, name: string,
                             j: nat, i: nat)
    requires IsRun(v6, trace, es) && Initial(trace[0], overlay, size) && j <= i < |es|
    requires forall k | 0 <= k < |es| :: Written(es[k]) && Detaching(trace[k], es[k])
    requires forall k | j <= k <= i :: name in trace[k].pods
    requires trace[j].pods[name].multus.Some? && Detaches(trace[i], name)
    requires es[i] == Meet(name, {}, AllSucceed)
    ensures var s, s', given := trace[i], trace[i + 1], trace[j].pods[name];
            && s'.sdn == s.sdn - s.pods[name].Pairs()
            && (forall a, k: nat | a in s'.sdn && k < |given.multus.value| ::
                  a.port != PortOf(Hold(given.node, given.multus.value[k].name)))
            && (forall h :: Used(s', h) <==>
                  Used(s, h)
                  && !(h.node == given.node
                       && exists k :: 0 <= k < |given.multus.value| && h.nad == given.multus.value[k].name))
            && LosesFinalizer(s, s', name, L2SM) && OnlyPod(s, s', name)
  {
    var s, given := trace[i], trace[j].pods[name];
    var pod := s.pods[name];
    InitialInv(trace[0], overlay, size);
    assert Contained(trace[0]) && StaleIsLost(trace[0]);
    hide Inv, Initial, Enabled, Apply, Reliable, Detaching, Contained, StaleIsLost;
    RunKeeps(v6, trace, es, i);
    RunContains(v6, trace, es, i);
    RunStale(v6, trace, es, i);
    forall a, k: nat | a in s.stale && k < pod.Slots()
      ensures a.port != PortOf(pod.HoldAt(k))
    {
      StaleOffPorts(s, name, a, k);
    }
    PortsStay(v6, trace, es, name, j, i);
    MeetIsReconcile(v6, s, name);
    DeletionReleases(s, name);
    assert SameLength(pod) && pod.Slots() == |given.multus.value|;
    assert forall k: nat | k < pod.Slots() :: pod.HoldAt(k) == Hold(given.node, given.multus.value[k].name);
    forall h
      ensures h in pod.Holds() <==>
              h.node == given.node && exists k :: 0 <= k < |given.multus.value| && h.nad == given.multus.value[k].name
    {
      if h.node == given.node && exists k :: 0 <= k < |given.multus.value| && h.nad == given.multus.value[k].name {
        var k :| 0 <= k < |given.multus.value| && h.nad == given.multus.value[k].name;
        assert h == pod.HoldAt(k);
      }
    }
    hide Pod.Pairs, Pod.Holds, Used, Detaches, IsRun, LosesFinalizer, OnlyPod;
  }

  lemma MeetIsReconcile(v6: V6, s: State, name: string)
    requires Enabled(v6, s, Meet(name, {}, AllSucceed))
    ensures Apply(v6, s, Meet(name, {}, AllSucceed)) == Reconcile(s, name, {}, AllSucceed)
  {
  }
}

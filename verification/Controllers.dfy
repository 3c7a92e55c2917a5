/**
  The handlers as they run: each reads and writes the API server's objects and the SDN controller's ports step by
  step, and is shown to have the effect that module Cluster describes as a whole.
*/
module Controllers {
  import opened Wrappers
  import opened Ipv4
  import opened IpTexts
  import opened AddressSearch
  import opened Finalizers
  import opened NadNames
  import opened Admission
  import opened PodAdmission
  import opened Cluster
  import opened Quarantine
  import opened QuarantineLaws

  /** The address part of one iteration of Handle (internal/controller/pod_webhook.go, lines 120-186). */
  method AssignAddresses(v6: V6, n: Network, r: Request) returns (t: Attempt)
    requires !Assign(v6, n, r).Hangs?
    ensures t == Assign(v6, n, r)
  {
    hide Next, ReadCidr, IpText, PrefixText, AddressKey;
    var network := n;
    var assignIPAddr: seq<string> := [];
    if r.ips != [] {
      assignIPAddr := r.ips;
    } else if network.cidr != "" {
      var c := ReadCidr(v6, network.cidr);
      if c.None? {
        return Crashes;
      }
      var found := GetNextAvailableIP(v6, network.Range(), network.last, network.Assigned());
      var nextIP := "";
      if found.Ok? {
        nextIP := found.value.0;
      }
      network := network.(last := nextIP);
      assignIPAddr := [nextIP + PrefixText(c.value.prefix)];
    }
    var multusIPs := assignIPAddr;
    if assignIPAddr != [] {
      network := network.Record(RecordKey(v6, assignIPAddr[0]), r.pod);
    } else {
      multusIPs := [r.linkLocal];
    }
    network := network.(connected := network.connected + 1);
    return Granted(network, multusIPs);
  }

  /** The loop ends all its iterations exactly if it serves to the end. */
  lemma EndedWhole(v6: V6, api: map<string, Network>, wanted: seq<Annotation>, pod: string, linkLocals: seq<string>)
    requires |wanted| <= |linkLocals|
    ensures Ended(v6, api, wanted, pod, linkLocals, |wanted|) == |wanted| <==>
            Served(v6, api, wanted, pod, linkLocals, |wanted|).Serving?
  {
    hide Served;
  }

  lemma TakenStep(free: seq<string>, i: nat, except: set<nat>)
    requires i < |free|
    ensures Taken(free, i + 1, except)
         == if i in except then Taken(free, i, except) else Taken(free, i, except) + {free[i]}
  {
  }

  /** Labelling one more interface, if it exists. */
  lemma RelabelStep(nads: map<string, Labels>, names: set<string>, name: string, node: string, value: string)
    ensures var r := Relabel(nads, names, node, value);
            Relabel(nads, names + {name}, node, value)
            == if name in nads then r[name := r[name][LabelKey(node) := value]] else r
  {
    hide LabelKey;
    var r, r' := Relabel(nads, names, node, value), Relabel(nads, names + {name}, node, value);
    forall x | x in nads
      ensures r'[x] == if x == name then r[x][LabelKey(node) := value] else r[x]
    {
    }
  }

  lemma RelabelNone(nads: map<string, Labels>, node: string, value: string)
    ensures Relabel(nads, {}, node, value) == nads
  {
  }

  lemma RelabelOne(nads: map<string, Labels>, name: string, node: string, value: string)
    requires name in nads
    ensures Relabel(nads, {name}, node, value) == nads[name := nads[name][LabelKey(node) := value]]
  {
    hide Relabel, LabelKey;
    RelabelStep(nads, {}, name, node, value);
    RelabelNone(nads, node, value);
    assert {} + {name} == {name};
  }

  lemma ServedNone(v6: V6, api: map<string, Network>, wanted: seq<Annotation>, pod: string, linkLocals: seq<string>)
    requires |wanted| <= |linkLocals|
    ensures Served(v6, api, wanted, pod, linkLocals, 0) == Serving(api, Known(api, wanted), {}, [])
  {
  }

  lemma ServedStep(v6: V6, api: map<string, Network>, wanted: seq<Annotation>, pod: string, linkLocals: seq<string>,
                   i: nat)
    requires i < |wanted| <= |linkLocals|
    ensures Served(v6, api, wanted, pod, linkLocals, i + 1)
         == Serve(v6, Served(v6, api, wanted, pod, linkLocals, i), wanted[i], pod, linkLocals[i])
  {
  }

  lemma MultusNone(free: seq<string>)
    ensures Multus(free, []) == []
  {
  }

  lemma MultusStep(free: seq<string>, given: seq<seq<string>>, ips: seq<string>)
    requires |given| < |free|
    ensures Multus(free, given + [ips]) == Multus(free, given) + [Annotation(free[|given|], ips)]
  {
  }

  /** One iteration of Handle on the labels. */
  lemma MarkStep(nads: map<string, Labels>, free: seq<string>, i: nat, except: set<nat>, node: string)
    requires i < |free| && free[i] in nads
    ensures var r := Relabel(nads, Taken(free, i, except), node, "true");
            Relabel(nads, Taken(free, i + 1, except), node, "true")
            == if i in except then r else r[free[i] := r[free[i]][LabelKey(node) := "true"]]
  {
    hide Relabel, Taken, LabelKey;
    TakenStep(free, i, except);
    RelabelStep(nads, Taken(free, i, except), free[i], node, "true");
  }

  class ControlPlane {
    const v6: V6
    var nads: map<string, Labels>
    var pods: map<string, Pod>
    var networks: map<string, Network>
    var sdn: set<Attachment>
    var grabs: set<Grab>
    ghost var lost: set<Hold>
    ghost var stale: set<Attachment>

    ghost function Now(): State
      reads this
    {
      State(nads, pods, networks, sdn, grabs, lost, stale)
    }

    constructor (v6: V6, nads: map<string, Labels>, networks: map<string, Network>)
      ensures Now() == State(nads, map[], networks, {}, {}, {}, {}) && this.v6 == v6
    {
      this.v6, this.nads, this.networks := v6, nads, networks;
      pods, sdn, grabs, lost, stale := map[], {}, {}, {}, {};
    }

    // ---------- lookups ----------

    /** GetL2Networks: the named networks in order, or an error at the first one that does not exist. */
    method GetL2Networks(wanted: seq<Annotation>) returns (r: Result<seq<string>>)
      ensures r.Ok? <==> NetworksExist(networks, wanted)
      ensures r.Ok? ==> |r.value| == |wanted| && forall i | 0 <= i < |wanted| :: r.value[i] == wanted[i].name
    {
      var result: seq<string> := [];
      for i := 0 to |wanted|
        invariant |result| == i
        invariant forall j | 0 <= j < i :: wanted[j].name in networks && result[j] == wanted[j].name
      {
        if wanted[i].name !in networks {
          assert wanted[i] in wanted;
          return Err("network doesn't exist");
        }
        result := result + [wanted[i].name];
      }
      return Ok(result);
    }

    /** GetL2NetworksMap: copies of the named networks, up to the first one that does not exist. */
    method GetL2NetworksMap(wanted: seq<Annotation>) returns (result: map<string, Network>)
      ensures result == Known(networks, wanted)
      ensures forall x :: x in result <==>
                exists i: nat :: i < |wanted| && wanted[i].name == x && LooksUp(networks, wanted, i)
    {
      forall x
        ensures x in Known(networks, wanted) <==>
                exists i: nat :: i < |wanted| && wanted[i].name == x && LooksUp(networks, wanted, i)
      {
        KnownExactly(networks, wanted, x);
      }
      result := map[];
      for i := 0 to |wanted|
        invariant forall x | x in result :: x in networks && result[x] == networks[x]
        invariant Known(networks, wanted).Keys == result.Keys + Known(networks, wanted[i..]).Keys
      {
        var name := wanted[i].name;
        assert wanted[i..][1..] == wanted[i + 1..];
        if name !in networks {
          return;
        }
        result := result[name := networks[name]];
      }
    }

    // ---------- PodAnnotator.Handle ----------

    method Handle(name: string, picked: string, order: seq<string>, linkLocals: seq<string>, lostWrites: set<nat>)
      requires name in pods && Ends(v6, Now(), name, picked, order, linkLocals)
      modifies this
      ensures Now() == Admitted(v6, old(Now()), name, picked, order, linkLocals, lostWrites)
    {
      var pod := pods[name];
      if pod.deleting || pod.failed || pod.l2sm.None? || pod.multus.Some? {
        return;
      }
      var node := if pod.node == "" then picked else pod.node;
      var wanted := pod.l2sm.value;
      var free := FreeNads(order, nads, node);
      if |free| < |wanted| {
        pods := pods[name := pod.(node := node, failed := true)];
        return;
      }
      hide FreeNads, Served, Relabel, Taken, Multus, Ended;
      EndedWhole(v6, networks, wanted, name, linkLocals);
      var served, multus := AssignPorts(name, wanted, node, free, linkLocals, lostWrites);
      if served < |wanted| {
        lost := lost + HoldsOn(node, Taken(free, served, lostWrites));  // the panic leaves the pod as it was
        return;
      }
      pods := pods[name := pod.(node := node, multus := Some(multus))];
    }

    /** The loop over the listed networks: an interface, a label and addresses for each, until one panics. */
    method AssignPorts(name: string, wanted: seq<Annotation>, node: string, free: seq<string>, linkLocals: seq<string>,
                       lostWrites: set<nat>)
      returns (served: nat, multus: seq<Annotation>)
      requires |wanted| <= |free| && |wanted| <= |linkLocals| && forall x | x in free :: x in nads
      requires !Served(v6, networks, wanted, name, linkLocals, |wanted|).Stuck?
      modifies `nads, `networks
      ensures served == Ended(v6, old(networks), wanted, name, linkLocals, |wanted|)
      ensures var p := Served(v6, old(networks), wanted, name, linkLocals, served);
              networks == p.api && |p.given| <= |free| && multus == Multus(free, p.given)
      ensures nads == Relabel(old(nads), Taken(free, served, lostWrites), node, "true")
    {
      hide Known, Assign, Relabel, Taken, Serve, Served, LabelKey, Multus, Ended;
      var copies := GetL2NetworksMap(wanted);
      var written: set<string> := {};
      multus := [];
      ghost var given: seq<seq<string>> := [];
      ghost var api0, nads0 := networks, nads;
      TakenNone(free, lostWrites);
      RelabelNone(nads, node, "true");
      ServedNone(v6, networks, wanted, name, linkLocals);
      MultusNone(free);
      for i := 0 to |wanted|
        invariant Served(v6, api0, wanted, name, linkLocals, i) == Serving(networks, copies, written, given)
        invariant |given| == i && multus == Multus(free, given)
        invariant nads == Relabel(nads0, Taken(free, i, lostWrites), node, "true")
      {
        ServedStep(v6, api0, wanted, name, linkLocals, i);
        if !Served(v6, api0, wanted, name, linkLocals, i + 1).Serving? {
          EndedAt(v6, api0, wanted, name, linkLocals, i, |wanted|);
        }
        var panicked, ips;
        panicked, copies, written, ips := ServeNetwork(wanted[i], name, linkLocals[i], copies, written, given);
        if panicked {
          return i, multus;
        }
        MultusStep(free, given, ips);
        given := given + [ips];
        multus := multus + [Annotation(free[i], ips)];
        assert free[i] in free;
        MarkStep(nads0, free, i, lostWrites, node);
        if i !in lostWrites {
          nads := nads[free[i] := nads[free[i]][LabelKey(node) := "true"]];
        }
      }
      EndedWhole(v6, api0, wanted, name, linkLocals);
      return |wanted|, multus;
    }

    /** Addresses for one entry of the list, and the status write that follows; a second write is refused. */
    method ServeNetwork(w: Annotation, name: string, linkLocal: string, copies: map<string, Network>,
                        written: set<string>, ghost given: seq<seq<string>>)
      returns (panicked: bool, copies': map<string, Network>, written': set<string>, ips: seq<string>)
      requires !Serve(v6, Serving(networks, copies, written, given), w, name, linkLocal).Stuck?
      modifies `networks
      ensures Serve(v6, Serving(old(networks), copies, written, given), w, name, linkLocal)
           == if panicked then Panicked else Serving(networks, copies', written', given + [ips])
      ensures panicked ==> networks == old(networks)
    {
      hide Assign;
      panicked, copies', written', ips := false, copies, written, [];
      if w.name !in copies {
        ips := if w.ips != [] then w.ips else [linkLocal];
        return;
      }
      var t := AssignAddresses(v6, copies[w.name], Request(name, w.ips, linkLocal));
      if t.Crashes? {
        panicked := true;
        return;
      }
      ips := t.ips;
      if copies[w.name].addresses.Some? {
        copies' := copies[w.name := copies[w.name].(addresses := t.network.addresses)];
      }
      if w.name !in written {
        networks := networks[w.name := t.network];
      }
      written' := written + {w.name};
    }

    // ---------- PodReconciler.Reconcile ----------

    method Reconcile(name: string, sdnFails: set<nat>, api: ApiCalls)
      requires name in pods
      modifies this
      ensures Now() == Cluster.Reconcile(old(Now()), name, sdnFails, api)
    {
      var pod := pods[name];
      if pod.l2sm.None? || pod.multus.None? {
        return;
      }
      if pod.deleting {
        if L2SM in pod.finalizers {
          Release(name, sdnFails, api);
        }
        return;
      }
      if L2SM !in pod.finalizers {
        Connect(name, sdnFails);
      }
    }

    method Connect(name: string, sdnFails: set<nat>)
      requires name in pods && BothLists(pods[name])
      modifies this
      ensures Now() == Attach(old(Now()), name, sdnFails)
    {
      hide PortNumber, PairsBelow;
      var pod := pods[name];
      PairsNone(pod, {});
      pods := pods[name := pod.(finalizers := pod.finalizers + [L2SM])];
      var known := GetL2Networks(pod.l2sm.value);
      if known.Err? || |pod.multus.value| != |pod.l2sm.value| {
        return;
      }
      ghost var met := Now();
      ghost var reach := Reach(pod.multus.value, sdnFails);
      for i := 0 to |known.value|
        invariant i <= reach
        invariant Now() == met.(sdn := met.sdn + PairsBelow(pod, i, {}))
      {
        var port := PortNumber(pod.multus.value[i].name);
        if port.Err? || i in sdnFails {
          assert i == reach;
          return;
        }
        PairsStep(pod, i, {});
        sdn := sdn + {Attachment(known.value[i], Port(pod.node, port.value))};
      }
    }

    method Release(name: string, sdnFails: set<nat>, api: ApiCalls)
      requires name in pods && BothLists(pods[name])
      modifies this
      ensures Now() == if SameLength(old(pods)[name]) then Detach(old(Now()), name, sdnFails, api) else old(Now())
    {
      var pod := pods[name];
      if |pod.multus.value| != |pod.l2sm.value| {
        return;
      }
      hide PortNumber, Relabel, PairsBelow, NamesBelow, Tried, Finished;
      ghost var before := Now();
      var completed := ReleasePorts(pod, sdnFails, api);
      if !completed {
        return;
      }
      stale := stale + pod.Pairs() * sdn;
      var finalizers := RemoveString(pod.finalizers, L2SM);
      pods := if pod.deleting && finalizers == [] then pods - {name} else pods[name := pod.(finalizers := finalizers)];
    }

    /** The detach loop, which returns early when a port number cannot be read or an API call fails. */
    method ReleasePorts(pod: Pod, sdnFails: set<nat>, api: ApiCalls) returns (completed: bool)
      requires SameLength(pod)
      modifies `sdn, `nads
      ensures sdn == old(sdn) - PairsBelow(pod, Tried(pod, api), sdnFails)
      ensures nads == Relabel(old(nads), NamesBelow(pod, Finished(pod, api)), pod.node, "false")
      ensures completed == Completes(pod, api)
    {
      hide PortNumber, Relabel, PairsBelow, NamesBelow, Finished, Tried, Completes, Reach;
      ghost var sdn0, nads0 := sdn, nads;
      PairsNone(pod, sdnFails);
      RelabelNone(nads, pod.node, "false");
      for i := 0 to |pod.l2sm.value|
        invariant i <= Reach(pod.multus.value, {}) && (api.FailsAt? ==> i <= api.at)
        invariant sdn == sdn0 - PairsBelow(pod, i, sdnFails)
        invariant nads == Relabel(nads0, NamesBelow(pod, i), pod.node, "false")
      {
        StopsAt(pod, api, i);
        if PortNumber(pod.multus.value[i].name).Err? {
          return false;
        }
        DetachStep(sdn0, pod, i, sdnFails);
        UnmarkStep(nads0, pod, i);
        var released := ReleasePort(pod, i, i in sdnFails, api == FailsAt(i));
        if !released {
          return false;
        }
      }
      StopsAt(pod, api, pod.Slots());
      return api.AllSucceed?;
    }

    /** One entry: detach, whether or not the call succeeds, then reset the label of an interface that still exists. */
    method ReleasePort(pod: Pod, i: nat, sdnFails: bool, apiFails: bool) returns (released: bool)
      requires i < pod.Slots() && PortNumber(pod.multus.value[i].name).Ok?
      modifies `sdn, `nads
      ensures sdn == if sdnFails then old(sdn)
                     else old(sdn) - {Attachment(pod.l2sm.value[i].name,
                                                 Port(pod.node, PortNumber(pod.multus.value[i].name).value))}
      ensures nads == if apiFails || pod.multus.value[i].name !in old(nads) then old(nads)
                      else old(nads)[pod.multus.value[i].name :=
                                       old(nads)[pod.multus.value[i].name][LabelKey(pod.node) := "false"]]
      ensures released == !apiFails
    {
      hide PortNumber, LabelKey;
      var name := pod.multus.value[i].name;
      var port := PortNumber(name);
      if !sdnFails {
        sdn := sdn - {Attachment(pod.l2sm.value[i].name, Port(pod.node, port.value))};
      }
      if apiFails {
        return false;
      }
      if name in nads {
        nads := nads[name := nads[name][LabelKey(pod.node) := "false"]];
      }
      return true;
    }

    // ---------- interfaces taken by networks ----------

    method ConnectInternalSwitchToNED(network: string, node: string, order: seq<string>, attachOk: bool, writeOk: bool)
      returns (r: Result<string>)
      modifies this
      ensures Now() == ConnectNed(old(Now()), network, node, order, attachOk, writeOk)
      ensures r.Ok? <==> FreeNads(order, old(nads), node) != [] && attachOk && writeOk
      ensures r.Ok? ==> r.value == FreeNads(order, old(nads), node)[0] && Used(r.value, node)
    {
      var free := FreeNads(order, nads, node);
      hide FreeNads, Relabel, LabelKey, PortOf;
      if free == [] {
        return Err("no interfaces available");
      }
      var nad := free[0];
      assert nad in free;
      if !attachOk {
        return Err("could not make a connection between the internal switch and the NED");
      }
      sdn := sdn + {Attachment(network, PortOf(Hold(node, nad)))};
      grabs := grabs + {Grab(Bridge, network, Hold(node, nad))};
      if !writeOk {
        return Err("could not update network attachment definition");
      }
      RelabelOne(nads, nad, node, "true");
      nads := nads[nad := nads[nad][LabelKey(node) := "true"]];
      return Ok(nad);
    }

    predicate Used(nad: string, node: string)
      reads this
    {
      nad in nads && MarkedUsed(nads[nad], node)
    }

    method TakeMirrorPort(network: string, node: string, order: seq<string>, mirrorOk: bool, writeOk: bool)
      returns (r: Result<string>)
      modifies this
      ensures Now() == MirrorIds(old(Now()), network, node, order, mirrorOk, writeOk)
      ensures var free := FreeNads(order, old(nads), node);
              && (r.Ok? <==> free != [] && PortNumber(free[0]).Ok? && mirrorOk && writeOk)
              && (r.Ok? ==> r.value == free[0] && Used(r.value, node))
    {
      var free := FreeNads(order, nads, node);
      hide FreeNads, Relabel, LabelKey;
      if free == [] {
        return Err("no interfaces available");
      }
      var nad := free[0];
      assert nad in free;
      if PortNumber(nad).Err? || !mirrorOk {
        return Err("could not set up mirror port");
      }
      grabs := grabs + {Grab(Mirror, network, Hold(node, nad))};
      if !writeOk {
        return Err("could not update network attachment definition");
      }
      RelabelOne(nads, nad, node, "true");
      nads := nads[nad := nads[nad][LabelKey(node) := "true"]];
      return Ok(nad);
    }

    // ---------- QuarantinePodRequestReconciler ----------

    method MovePodToTargetNetwork(source: string, target: string, name: string, calls: Calls) returns (verdict: Verdict)
      requires Movable(Now(), source, target) && name in pods
      modifies this
      ensures Now() == Move(v6, old(Now()), source, target, name, calls)
      ensures verdict == Judge(old(pods)[name], source, calls)
    {
      hide PortNumber, AddressKey, MoveAddresses;
      var pod := pods[name];
      if pod.l2sm.None? || pod.multus.None? {
        return Skipped;
      }
      var index := NetworkAnnotationIndex(pod.l2sm.value, source);
      if index == -1 {
        return Skipped;
      }
      if |pod.multus.value| != |pod.l2sm.value| {
        return Failed;
      }
      var port := PortNumber(pod.multus.value[index].name);
      if port.Err? || calls.DetachFails? {
        return Failed;
      }
      sdn := sdn - {Attachment(source, Port(pod.node, port.value))};
      if calls.AttachFails? {
        return Failed;
      }
      sdn := sdn + {Attachment(target, Port(pod.node, port.value))};
      if calls.PodWriteFails? {
        return Failed;
      }
      pods := pods[name := pod.(l2sm := Some(pod.l2sm.value[index := pod.l2sm.value[index].(name := target)]))];
      var src, tgt := UpdateNetworkStatuses(v6, networks[source], networks[target], pod.multus.value[index].ips, name);
      if calls.SourceWriteFails? {
        return Failed;
      }
      networks := networks[source := src];
      if calls.TargetWriteFails? {
        return Failed;
      }
      networks := networks[target := tgt];
      return Moved;
    }

    method ReconcileQuarantine(matching: seq<string>, target: string, targetInSdn: bool, names: seq<string>,
                               calls: seq<Calls>)
      returns (answer: Answer)
      requires |names| <= |calls| && (forall x | x in names :: x in pods) && (forall x | x in matching :: x in networks)
      modifies this
      ensures (answer, Now()) == Reconciliation(v6, old(Now()), matching, target, targetInSdn, names, calls)
    {
      if |matching| != 1 {
        return Panics;
      }
      var source := matching[0];
      assert source in matching;
      if target !in networks {
        return TargetNotFound;
      }
      if source == target {
        return SameNetwork;
      }
      if !targetInSdn {
        return TargetUnavailable;
      }
      hide SweepTo;
      var moved, failed := MovePods(source, target, names, calls);
      return if failed then MoveFailed(moved) else PodsMoved(moved);
    }

    /** The loop over the selected pods; it stops at the first failure. */
    method MovePods(source: string, target: string, names: seq<string>, calls: seq<Calls>)
      returns (moved: nat, failed: bool)
      requires Movable(Now(), source, target) && |names| <= |calls| && forall x | x in names :: x in pods
      modifies this
      ensures SweepTo(v6, old(Now()), source, target, names, calls, |names|) == Sweep(Now(), moved, failed)
    {
      hide Move, Judge, SweepTo;
      ghost var before := Now();
      moved := 0;
      SweepNone(v6, before, source, target, names, calls);
      for i := 0 to |names|
        invariant SweepTo(v6, before, source, target, names, calls, i) == Sweep(Now(), moved, false)
      {
        SweepNext(v6, before, source, target, names, calls, i);
        if !pods[names[i]].deleting {
          var verdict := MovePodToTargetNetwork(source, target, names[i], calls[i]);
          if verdict.Failed? {
            StaysFailed(v6, before, source, target, names, calls, i + 1, |names|);
            return moved, true;
          }
          if verdict.Moved? {
            moved := moved + 1;
          }
        }
      }
      return moved, false;
    }
  }

  lemma TakenNone(free: seq<string>, except: set<nat>)
    ensures Taken(free, 0, except) == {}
  {
  }

  /** Where a deletion run stops, seen from an entry it reaches. */
  lemma StopsAt(pod: Pod, api: ApiCalls, i: nat)
    requires SameLength(pod) && i <= Reach(pod.multus.value, {}) && (api.FailsAt? ==> i <= api.at)
    ensures i < pod.Slots() && PortNumber(pod.multus.value[i].name).Err? ==>
              Finished(pod, api) == Tried(pod, api) == i && !Completes(pod, api)
    ensures i < pod.Slots() && PortNumber(pod.multus.value[i].name).Ok? && api == FailsAt(i) ==>
              Finished(pod, api) == i && Tried(pod, api) == i + 1 && !Completes(pod, api)
    ensures i < pod.Slots() && PortNumber(pod.multus.value[i].name).Ok? ==> i + 1 <= Reach(pod.multus.value, {})
    ensures i == pod.Slots() ==>
              Finished(pod, api) == Tried(pod, api) == i && (Completes(pod, api) <==> api.AllSucceed?)
  {
    hide PortNumber;
  }

  /** One iteration of the detach loop on the controller's ports. */
  lemma DetachStep(sdn: set<Attachment>, pod: Pod, i: nat, except: set<nat>)
    requires i < pod.Slots() && PortNumber(pod.multus.value[i].name).Ok?
    ensures var r := sdn - PairsBelow(pod, i, except);
            sdn - PairsBelow(pod, i + 1, except)
            == if i in except then r
               else r - {Attachment(pod.l2sm.value[i].name, Port(pod.node, PortNumber(pod.multus.value[i].name).value))}
  {
    hide PairsBelow, PortNumber;
    PairsStep(pod, i, except);
  }

  /** One iteration of the detach loop on the labels. */
  lemma UnmarkStep(nads: map<string, Labels>, pod: Pod, i: nat)
    requires i < pod.Slots()
    ensures var r, x := Relabel(nads, NamesBelow(pod, i), pod.node, "false"), pod.multus.value[i].name;
            Relabel(nads, NamesBelow(pod, i + 1), pod.node, "false")
            == if x in nads then r[x := r[x][LabelKey(pod.node) := "false"]] else r
  {
    hide Relabel, NamesBelow, LabelKey;
    NamesStep(pod, i);
    RelabelStep(nads, NamesBelow(pod, i), pod.multus.value[i].name, pod.node, "false");
  }

  lemma PairsNone(pod: Pod, except: set<nat>)
    ensures PairsBelow(pod, 0, except) == {} && NamesBelow(pod, 0) == {}
  {
  }

  lemma PairsStep(pod: Pod, i: nat, except: set<nat>)
    requires i < pod.Slots()
    ensures PairsBelow(pod, i + 1, except)
         == if i in except then PairsBelow(pod, i, except) else PairsBelow(pod, i, except) + {pod.PairAt(i)}
  {
  }

  lemma NamesStep(pod: Pod, i: nat)
    requires i < pod.Slots()
    ensures NamesBelow(pod, i + 1) == NamesBelow(pod, i) + {pod.multus.value[i].name}
  {
  }

  method NetworkAnnotationIndex(networks: seq<Annotation>, networkName: string) returns (index: int)
    ensures index == NetworkIndex(networks, networkName)
  {
    for i := 0 to |networks|
      invariant forall j | 0 <= j < i :: networks[j].name != networkName
    {
      if networks[i].name == networkName {
        return i;
      }
    }
    return -1;
  }

  method UpdateNetworkStatuses(v6: V6, sourceNetwork: Network, targetNetwork: Network, ipAddresses: seq<string>,
                               podName: string)
    returns (source: Network, target: Network)
    ensures (source, target) == UpdateStatuses(v6, sourceNetwork, targetNetwork, ipAddresses, podName)
  {
    hide AddressKey;
    source, target := sourceNetwork, targetNetwork;
    if source.connected > 0 {
      source := source.(connected := source.connected - 1);
    }
    target := target.(connected := target.connected + 1);
    ghost var src, tgt := source, target;
    for i := 0 to |ipAddresses|
      invariant (source, target) == MoveAddresses(v6, src, tgt, ipAddresses[..i], podName)
    {
      assert ipAddresses[..i + 1][..i] == ipAddresses[..i];
      var key := AddressKey(v6, ipAddresses[i]);
      if key.Some? {
        source, target := Forget(source, key.value), target.Record(key.value, podName);
      }
    }
    assert ipAddresses[..|ipAddresses|] == ipAddresses;
  }
}

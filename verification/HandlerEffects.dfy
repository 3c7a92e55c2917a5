/**
  What each handler leaves behind, object by object: the whole new state, read off the annotations, labels and
  finalizers themselves.
*/
module HandlerEffects {
  import opened Finalizers
  import opened NadNames
  import opened IpTexts
  import opened AddressSearch
  import opened Admission
  import opened PodAdmission
  import opened Cluster

  /** The labels differ on the named interfaces only, and there only in the node's own entry. */
  ghost predicate LabelledAs(nads: map<string, Labels>, nads': map<string, Labels>, names: set<string>, node: string,
                             value: string)
  {
    && nads'.Keys == nads.Keys
    && forall x | x in nads :: nads'[x] == if x in names then nads[x]["used-" + node := value] else nads[x]
  }

  /** No pod but the named one has changed. */
  ghost predicate OnlyPod(s: State, s': State, name: string) {
    forall p | p != name :: (p in s'.pods <==> p in s.pods) && (p in s.pods ==> s'.pods[p] == s.pods[p])
  }

  // ---------- the listing ----------

  /** The listing keeps its order, and selects by the application label and the node's own label. */
  lemma {:induction false} FreeInOrder(a: seq<string>, b: seq<string>, nads: map<string, Labels>, node: string)
    ensures FreeNads(a + b, nads, node) == FreeNads(a, nads, node) + FreeNads(b, nads, node)
  {
    hide FreeNads;
    if a == [] {
      assert a + b == b;
      FreeNone(nads, node);
    } else {
      assert (a + b)[1..] == a[1..] + b;
      FreeInOrder(a[1..], b, nads, node);
      FreeStep(a, nads, node);
      FreeStep(a + b, nads, node);
    }
  }

  lemma FreeNone(nads: map<string, Labels>, node: string)
    ensures FreeNads([], nads, node) == []
  {
  }

  lemma FreeStep(order: seq<string>, nads: map<string, Labels>, node: string)
    requires order != []
    ensures FreeNads(order, nads, node)
         == (if order[0] in nads && IsFree(nads[order[0]], node) then [order[0]] else [])
             + FreeNads(order[1..], nads, node)
  {
    hide IsFree;
  }

  lemma FreeSingle(x: string, nads: map<string, Labels>, node: string)
    ensures FreeNads([x], nads, node) ==
            if x in nads && "app" in nads[x] && nads[x]["app"] == "l2sm"
               && !("used-" + node in nads[x] && nads[x]["used-" + node] == "true")
            then [x] else []
  {
    assert [x][1..] == [];
    assert FreeNads([], nads, node) == [];
  }

  // ---------- admissions ----------

  /** A pod that is being deleted, was refused before, lists no networks or has its interfaces is admitted as it is. */
  lemma AdmissionPasses(v6: V6, s: State, name: string, picked: string, order: seq<string>, linkLocals: seq<string>,
                        lostWrites: set<nat>)
    requires name in s.pods && Returns(v6, s, name, picked, order, linkLocals)
    requires var pod := s.pods[name]; pod.deleting || pod.failed || pod.l2sm.None? || pod.multus.Some?
    ensures Handle(v6, s, name, picked, order, linkLocals, lostWrites) == s
  {
  }

  /**
    With too few free interfaces on its own node, or on the picked one, the pod is refused and nothing else changes.
   */
  lemma AdmissionRefuses(v6: V6, s: State, name: string, picked: string, order: seq<string>, linkLocals: seq<string>,
                         lostWrites: set<nat>)
    requires name in s.pods && Returns(v6, s, name, picked, order, linkLocals)
    requires var pod := s.pods[name]; !pod.deleting && !pod.failed && pod.l2sm.Some? && pod.multus.None?
    requires var pod := s.pods[name];
             |FreeNads(order, s.nads, if pod.node == "" then picked else pod.node)| < |pod.l2sm.value|
    ensures var s', pod := Handle(v6, s, name, picked, order, linkLocals, lostWrites), s.pods[name];
            s' == s.(pods := s.pods[name := pod.(node := if pod.node == "" then picked else pod.node, failed := true)])
  {
    hide FreeNads, Served;
  }

  /**
    An admission that takes interfaces keeps the node of a scheduled pod and gives the others the picked one, writes
    the list of Multus interfaces, labels for that node the taken interfaces whose write goes through, and changes no
    other object but networks.
   */
  lemma AdmissionTakes(v6: V6, s: State, name: string, picked: string, order: seq<string>, linkLocals: seq<string>,
                       lostWrites: set<nat>)
    requires Grants(s, name, picked, order) && Returns(v6, s, name, picked, order, linkLocals)
    ensures var s', pod := Handle(v6, s, name, picked, order, linkLocals, lostWrites), s.pods[name];
            var node := if pod.node == "" then picked else pod.node;
            var free := FreeNads(order, s.nads, node);
            && name in s'.pods && OnlyPod(s, s', name)
            && s'.pods[name] == pod.(node := node, multus := s'.pods[name].multus)
            && LabelledAs(s.nads, s'.nads, set i: nat | i < |pod.l2sm.value| <= |free| && i !in lostWrites :: free[i],
                          node, "true")
            && s' == s.(pods := s'.pods, nads := s'.nads, networks := s'.networks)
            && s'.networks.Keys == s.networks.Keys
  {
    hide FreeNads, Served;
    var wanted := s.pods[name].l2sm.value;
    ServedShape(v6, s.networks, wanted, name, linkLocals, |wanted|);
  }

  /**
    The Multus list has an entry for each listed network, in order: on a free interface of its own, with the addresses
    of that network's own attempt if it is found, and otherwise its static addresses or its link-local one. A network
    is found exactly if it and those listed before its first mention exist; its status is then that of this attempt,
    and stays so when the pod names it again.
   */
  lemma AdmissionServes(v6: V6, s: State, name: string, picked: string, order: seq<string>, linkLocals: seq<string>,
                        lostWrites: set<nat>, i: nat)
    requires Grants(s, name, picked, order) && Returns(v6, s, name, picked, order, linkLocals)
    requires i < |s.pods[name].l2sm.value|
    requires forall j | 0 <= j < i :: s.pods[name].l2sm.value[j].name != s.pods[name].l2sm.value[i].name
    ensures var s', pod := Handle(v6, s, name, picked, order, linkLocals, lostWrites), s.pods[name];
            var wanted, free := pod.l2sm.value, FreeNads(order, s.nads, if pod.node == "" then picked else pod.node);
            && name in s'.pods && s'.pods[name].multus.Some? && |s'.pods[name].multus.value| == |wanted| <= |free|
            && |wanted| <= |linkLocals|
            && var slot := s'.pods[name].multus.value[i];
               slot.name == free[i]
               && if forall j | 0 <= j <= i :: wanted[j].name in s.networks then
                    var t := Assign(v6, s.networks[wanted[i].name], Request(name, wanted[i].ips, linkLocals[i]));
                    && t.Granted? && slot.ips == t.ips
                    && wanted[i].name in s'.networks && s'.networks[wanted[i].name] == t.network
                  else
                    && slot.ips == (if wanted[i].ips != [] then wanted[i].ips else [linkLocals[i]])
                    && (wanted[i].name in s.networks ==>
                          wanted[i].name in s'.networks && s'.networks[wanted[i].name] == s.networks[wanted[i].name])
  {
    var wanted := s.pods[name].l2sm.value;
    KnownByPlace(s.networks, wanted, i);
    ServedShape(v6, s.networks, wanted, name, linkLocals, |wanted|);
    hide FreeNads, Served, Assign, Known, Relabel, Taken;
    if wanted[i].name in Known(s.networks, wanted) {
      OnceEach(v6, s.networks, wanted, name, linkLocals, |wanted|, i);
    } else {
      UnknownGiven(v6, s.networks, wanted, name, linkLocals, |wanted|, i);
    }
  }

  /** A network the pod does not list is left as it was. */
  lemma AdmissionSpares(v6: V6, s: State, name: string, picked: string, order: seq<string>, linkLocals: seq<string>,
                        lostWrites: set<nat>, network: string)
    requires Grants(s, name, picked, order) && Returns(v6, s, name, picked, order, linkLocals)
    requires network in s.networks && forall a | a in s.pods[name].l2sm.value :: a.name != network
    ensures var s' := Handle(v6, s, name, picked, order, linkLocals, lostWrites);
            network in s'.networks && s'.networks[network] == s.networks[network]
  {
    var wanted := s.pods[name].l2sm.value;
    ServedShape(v6, s.networks, wanted, name, linkLocals, |wanted|);
    KnownExactly(s.networks, wanted, network);
    hide FreeNads, Served, Known, Relabel, Taken;
  }

  /** An admission that comes to nothing changes labels and network statuses only, and loses what it labelled. */
  lemma AbandonExactly(v6: V6, s: State, name: string, picked: string, order: seq<string>, linkLocals: seq<string>,
                       lostWrites: set<nat>, n: nat)
    requires Grants(s, name, picked, order) && ServesTo(v6, s, name, linkLocals, n)
    ensures var s', pod := Abandon(v6, s, name, picked, order, linkLocals, lostWrites, n), s.pods[name];
            var node := if pod.node == "" then picked else pod.node;
            var free := FreeNads(order, s.nads, node);
            && n <= |free|
            && LabelledAs(s.nads, s'.nads, set i: nat | i < n && i !in lostWrites :: free[i], node, "true")
            && (forall h :: h in s'.lost <==>
                  h in s.lost || exists i: nat :: i < n && i !in lostWrites && h == Hold(node, free[i]))
            && s' == s.(nads := s'.nads, networks := s'.networks, lost := s'.lost)
  {
    hide FreeNads, Served;
  }

  /** Serving an entry panics: it asks for an automatic address on a network found, whose CIDR does not parse. */
  ghost predicate Crashing(v6: V6, networks: map<string, Network>, wanted: seq<Annotation>, i: nat)
    requires i < |wanted|
  {
    wanted[i].ips == [] && wanted[i].name in Known(networks, wanted)
    && networks[wanted[i].name].cidr != "" && ReadCidr(v6, networks[wanted[i].name].cidr).None?
  }

  /**
    An admission whose searches end and that does not serve the pod panics at the first such entry: it comes to
    nothing after the entries before it.
   */
  lemma AdmissionPanics(v6: V6, s: State, name: string, picked: string, order: seq<string>, linkLocals: seq<string>,
                        lostWrites: set<nat>) returns (k: nat)
    requires name in s.pods && Ends(v6, s, name, picked, order, linkLocals)
    requires !Returns(v6, s, name, picked, order, linkLocals)
    ensures Grants(s, name, picked, order)
    ensures var wanted := s.pods[name].l2sm.value;
            && k < |wanted| && Crashing(v6, s.networks, wanted, k)
            && (forall j: nat | j < k :: !Crashing(v6, s.networks, wanted, j))
            && ServesTo(v6, s, name, linkLocals, k)
            && Admitted(v6, s, name, picked, order, linkLocals, lostWrites)
               == Abandon(v6, s, name, picked, order, linkLocals, lostWrites, k)
  {
    var wanted := s.pods[name].l2sm.value;
    k := Ended(v6, s.networks, wanted, name, linkLocals, |wanted|);
    EndedStops(v6, s.networks, wanted, name, linkLocals, |wanted|);
    StuckStays(v6, s.networks, wanted, name, linkLocals, k + 1, |wanted|);
    PanicsAt(v6, s.networks, wanted, name, linkLocals, k);
    forall j: nat | j < k
      ensures !Crashing(v6, s.networks, wanted, j)
    {
      ServedBefore(v6, s.networks, wanted, name, linkLocals, j + 1, k);
      ServedBefore(v6, s.networks, wanted, name, linkLocals, j, k);
      PanicsAt(v6, s.networks, wanted, name, linkLocals, j);
    }
  }

  lemma {:induction false} EndedStops(v6: V6, api: map<string, Network>, wanted: seq<Annotation>, pod: string,
                                      linkLocals: seq<string>, n: nat)
    requires n <= |wanted| <= |linkLocals| && !Served(v6, api, wanted, pod, linkLocals, n).Serving?
    ensures var k := Ended(v6, api, wanted, pod, linkLocals, n);
            k < n && !Served(v6, api, wanted, pod, linkLocals, k + 1).Serving?
  {
    hide Serve, Known;
    if !Served(v6, api, wanted, pod, linkLocals, n - 1).Serving? {
      EndedStops(v6, api, wanted, pod, linkLocals, n - 1);
    }
  }

  lemma {:induction false} StuckStays(v6: V6, api: map<string, Network>, wanted: seq<Annotation>, pod: string,
                                      linkLocals: seq<string>, k: nat, n: nat)
    requires k <= n <= |wanted| <= |linkLocals| && !Served(v6, api, wanted, pod, linkLocals, k).Serving?
    ensures Served(v6, api, wanted, pod, linkLocals, n) == Served(v6, api, wanted, pod, linkLocals, k)
  {
    hide Assign, Known;
    if k < n {
      StuckStays(v6, api, wanted, pod, linkLocals, k, n - 1);
    }
  }

  lemma ServedBefore(v6: V6, api: map<string, Network>, wanted: seq<Annotation>, pod: string, linkLocals: seq<string>,
                     j: nat, k: nat)
    requires j <= k <= |wanted| <= |linkLocals| && Served(v6, api, wanted, pod, linkLocals, k).Serving?
    ensures Served(v6, api, wanted, pod, linkLocals, j).Serving?
  {
    hide Served;
    if !Served(v6, api, wanted, pod, linkLocals, j).Serving? {
      StuckStays(v6, api, wanted, pod, linkLocals, j, k);
    }
  }

  lemma PanicsAt(v6: V6, api: map<string, Network>, wanted: seq<Annotation>, pod: string, linkLocals: seq<string>,
                 i: nat)
    requires i < |wanted| <= |linkLocals| && Served(v6, api, wanted, pod, linkLocals, i).Serving?
    ensures Served(v6, api, wanted, pod, linkLocals, i + 1).Panicked? <==> Crashing(v6, api, wanted, i)
  {
    ServedShape(v6, api, wanted, pod, linkLocals, i);
    hide Known, Next, ReadCidr, Mentioned;
  }

  // ---------- meetings and deletions ----------

  /** The i-th pair of the pod's lists, when the interface has a port number. */
  ghost predicate IsPair(pod: Pod, i: nat, a: Attachment)
    requires BothLists(pod) && i < |pod.l2sm.value| && i < |pod.multus.value|
  {
    && PortNumber(pod.multus.value[i].name).Ok?
    && a == Attachment(pod.l2sm.value[i].name, Port(pod.node, PortNumber(pod.multus.value[i].name).value))
  }

  /** The first i + 1 interfaces have port numbers. */
  ghost predicate PortsReadable(pod: Pod, i: nat)
    requires pod.multus.Some? && i < |pod.multus.value|
  {
    forall j | 0 <= j <= i :: PortNumber(pod.multus.value[j].name).Ok?
  }

  /**
    A first meeting puts the finalizer after the pod's others, in every case. It attaches pairs only if the two lists
    are equally long and all named networks exist, and then those of the entries before the first unreadable port
    and the first failing call.
   */
  lemma MeetingExactly(s: State, name: string, sdnFails: set<nat>, api: ApiCalls)
    requires name in s.pods && BothLists(s.pods[name]) && !s.pods[name].deleting
    requires L2SM !in s.pods[name].finalizers
    ensures var s', pod := Cluster.Reconcile(s, name, sdnFails, api), s.pods[name];
            && s' == s.(pods := s.pods[name := pod.(finalizers := pod.finalizers + [L2SM])], sdn := s'.sdn)
            && (forall a :: a in s'.sdn <==>
                  a in s.sdn
                  || (|pod.l2sm.value| == |pod.multus.value| && (forall w | w in pod.l2sm.value :: w.name in s.networks)
                      && exists i: nat :: i < |pod.multus.value| && IsPair(pod, i, a) && PortsReadable(pod, i)
                                          && forall j | 0 <= j <= i :: j !in sdnFails))
  {
    var s', pod := Cluster.Reconcile(s, name, sdnFails, api), s.pods[name];
    hide PortNumber;
    if |pod.l2sm.value| == |pod.multus.value| && NetworksExist(s.networks, pod.l2sm.value) {
      var n := Reach(pod.multus.value, sdnFails);
      forall a
        ensures a in PairsBelow(pod, n, {}) <==>
                exists i: nat :: i < |pod.multus.value| && IsPair(pod, i, a) && PortsReadable(pod, i)
                                 && forall j | 0 <= j <= i :: j !in sdnFails
      {
        ReachedPair(pod, sdnFails, a);
      }
      hide PairsBelow, Reach;
    }
  }

  lemma ReachedPair(pod: Pod, sdnFails: set<nat>, a: Attachment)
    requires SameLength(pod)
    ensures a in PairsBelow(pod, Reach(pod.multus.value, sdnFails), {}) <==>
            exists i: nat :: i < |pod.multus.value| && IsPair(pod, i, a) && PortsReadable(pod, i)
                             && forall j | 0 <= j <= i :: j !in sdnFails
  {
    hide PortNumber;
    var n := Reach(pod.multus.value, sdnFails);
    if i: nat :| i < |pod.multus.value| && IsPair(pod, i, a) && PortsReadable(pod, i)
                 && forall j | 0 <= j <= i :: j !in sdnFails {
      assert i < n;
      assert a == pod.PairAt(i);
    }
    if a in PairsBelow(pod, n, {}) {
      var i: nat :| i < n && a == pod.PairAt(i);
      assert IsPair(pod, i, a) && PortsReadable(pod, i);
    }
  }

  /**
    The reconciler leaves alone a pod without both lists, one it has met already that is not being deleted, one being
    deleted without the finalizer, and one being deleted whose lists differ in length.
   */
  lemma ReconcileIdles(s: State, name: string, sdnFails: set<nat>, api: ApiCalls)
    requires name in s.pods
    requires var pod := s.pods[name];
             || pod.l2sm.None? || pod.multus.None?
             || (!pod.deleting && L2SM in pod.finalizers)
             || (pod.deleting && L2SM !in pod.finalizers)
             || (pod.deleting && |pod.l2sm.value| != |pod.multus.value|)
    ensures Cluster.Reconcile(s, name, sdnFails, api) == s
  {
  }

  /** Entry i is processed to the end: it and those before it are readable, and no API call up to it fails. */
  ghost predicate Done(pod: Pod, api: ApiCalls, i: nat)
    requires pod.multus.Some? && i < |pod.multus.value|
  {
    PortsReadable(pod, i) && (api.FailsAt? ==> i < api.at)
  }

  /** The SDN controller is asked to detach entry i: it is readable, and the entries before it are done. */
  ghost predicate Asked(pod: Pod, api: ApiCalls, i: nat)
    requires pod.multus.Some? && i < |pod.multus.value|
  {
    PortsReadable(pod, i) && (api.FailsAt? ==> i <= api.at)
  }

  /**
    A deletion detaches the pairs it asks for, as far as those calls succeed, and marks as unused, on the pod's node,
    the interfaces of the entries it is done with.
   */
  lemma {:induction false} DeletionExactly(s: State, name: string, sdnFails: set<nat>, api: ApiCalls)
    requires name in s.pods && SameLength(s.pods[name]) && s.pods[name].deleting && L2SM in s.pods[name].finalizers
    ensures var s', pod := Cluster.Reconcile(s, name, sdnFails, api), s.pods[name];
            && (forall a :: a in s'.sdn <==>
                  a in s.sdn && !exists i: nat :: i < |pod.multus.value| && i !in sdnFails && Asked(pod, api, i)
                                                  && IsPair(pod, i, a))
            && LabelledAs(s.nads, s'.nads,
                          set i: nat | i < |pod.multus.value| && Done(pod, api, i) :: pod.multus.value[i].name,
                          pod.node, "false")
            && s'.networks == s.networks && s'.grabs == s.grabs && s'.lost == s.lost
  {
    var pod := s.pods[name];
    DeletionState(s, name, sdnFails, api);
    FinishedExactly(pod, api);
    hide PortNumber, Finished, Tried, Completes, Relabel, Cluster.Reconcile;
    RelabelIs(s.nads, NamesBelow(pod, Finished(pod, api)), pod.node, "false");
    forall a
      ensures a in PairsBelow(pod, Tried(pod, api), sdnFails) <==>
              exists i: nat :: i < |pod.multus.value| && i !in sdnFails && Asked(pod, api, i) && IsPair(pod, i, a)
    {
      AskedPair(pod, sdnFails, api, a);
    }
    forall x
      ensures x in NamesBelow(pod, Finished(pod, api)) <==>
              x in set i: nat | i < |pod.multus.value| && Done(pod, api, i) :: pod.multus.value[i].name
    {
      if x in NamesBelow(pod, Finished(pod, api)) {
        var i :| 0 <= i < Finished(pod, api) && x == pod.multus.value[i].name;
        assert Done(pod, api, i);
      }
    }
    hide PairsBelow, NamesBelow, Asked, Done, IsPair;
  }

  lemma DeletionState(s: State, name: string, sdnFails: set<nat>, api: ApiCalls)
    requires name in s.pods && SameLength(s.pods[name]) && s.pods[name].deleting && L2SM in s.pods[name].finalizers
    ensures var s', pod := Cluster.Reconcile(s, name, sdnFails, api), s.pods[name];
            && s'.sdn == s.sdn - PairsBelow(pod, Tried(pod, api), sdnFails)
            && s'.nads == Relabel(s.nads, NamesBelow(pod, Finished(pod, api)), pod.node, "false")
            && s'.networks == s.networks && s'.grabs == s.grabs && s'.lost == s.lost
            && if Completes(pod, api)
               then s'.pods == Settled(s, name, pod.(finalizers := Without(pod.finalizers, L2SM))).pods
               else s'.pods == s.pods
  {
    hide Finished, Tried, Completes, PairsBelow, NamesBelow, Relabel, Pod.Pairs, Without;
  }

  lemma RelabelIs(nads: map<string, Labels>, names: set<string>, node: string, value: string)
    ensures LabelledAs(nads, Relabel(nads, names, node, value), names, node, value)
  {
  }

  lemma AskedPair(pod: Pod, sdnFails: set<nat>, api: ApiCalls, a: Attachment)
    requires SameLength(pod)
    ensures a in PairsBelow(pod, Tried(pod, api), sdnFails) <==>
            exists i: nat :: i < |pod.multus.value| && i !in sdnFails && Asked(pod, api, i) && IsPair(pod, i, a)
  {
    FinishedExactly(pod, api);
    hide PortNumber, Tried, Finished;
    if a in PairsBelow(pod, Tried(pod, api), sdnFails) {
      var i: nat :| i < Tried(pod, api) && i !in sdnFails && a == pod.PairAt(i);
      assert Asked(pod, api, i) && IsPair(pod, i, a);
    }
    if i: nat :| i < |pod.multus.value| && i !in sdnFails && Asked(pod, api, i) && IsPair(pod, i, a) {
      assert a == pod.PairAt(i);
    }
  }

  /** How far a deletion gets. */
  lemma FinishedExactly(pod: Pod, api: ApiCalls)
    requires SameLength(pod)
    ensures forall i: nat | i < |pod.multus.value| :: i < Finished(pod, api) <==> Done(pod, api, i)
    ensures forall i: nat | i < |pod.multus.value| :: i < Tried(pod, api) <==> Asked(pod, api, i)
    ensures Completes(pod, api) <==>
            api.AllSucceed? && forall i | 0 <= i < |pod.multus.value| :: PortNumber(pod.multus.value[i].name).Ok?
  {
    hide PortNumber;
    var n := Reach(pod.multus.value, {});
    forall i: nat | i < |pod.multus.value|
      ensures i < n <==> PortsReadable(pod, i)
    {
      if n <= i {
        assert PortNumber(pod.multus.value[n].name).Err?;
      }
    }
    hide Reach;
    var f := Finished(pod, api);
    if f < |pod.multus.value| && PortNumber(pod.multus.value[f].name).Ok? {
      forall j | 0 <= j <= f
        ensures PortNumber(pod.multus.value[j].name).Ok?
      {
        if j < f {
          assert PortsReadable(pod, j);
        }
      }
    }
  }

  /**
    A deletion completes exactly if every port is readable and no API call fails. The pod is then in the API exactly
    if another finalizer holds it, carries exactly the others, and is otherwise as it was; one that does not complete
    changes no pod. No other pod ever changes.
   */
  lemma DeletionFinalizers(s: State, name: string, sdnFails: set<nat>, api: ApiCalls)
    requires name in s.pods && SameLength(s.pods[name]) && s.pods[name].deleting && L2SM in s.pods[name].finalizers
    ensures var s', pod := Cluster.Reconcile(s, name, sdnFails, api), s.pods[name];
            && OnlyPod(s, s', name)
            && if api.AllSucceed? && forall i | 0 <= i < |pod.multus.value| :: PortNumber(pod.multus.value[i].name).Ok?
               then LosesFinalizer(s, s', name, L2SM)
               else s'.pods == s.pods
  {
    FinishedExactly(s.pods[name], api);
    DeletionState(s, name, sdnFails, api);
    Settles(s, Cluster.Reconcile(s, name, sdnFails, api), name, L2SM);
    hide PortNumber, Finished, Tried, Completes, Cluster.Reconcile, LosesFinalizer, Settled, Without;
  }

  lemma Settles(s: State, s': State, name: string, finalizer: string)
    requires name in s.pods && s.pods[name].deleting
    ensures var pod := s.pods[name];
            s'.pods == Settled(s, name, pod.(finalizers := Without(pod.finalizers, finalizer))).pods ==>
              OnlyPod(s, s', name) && LosesFinalizer(s, s', name, finalizer)
  {
    var pod := s.pods[name];
    var rest := Without(pod.finalizers, finalizer);
    OthersRemain(pod.finalizers, finalizer);
    hide Without;
    assert Settled(s, name, pod.(finalizers := rest)).pods
        == if rest == [] then s.pods - {name} else s.pods[name := pod.(finalizers := rest)];
    hide Settled;
  }

  lemma OthersRemain(fs: seq<string>, finalizer: string)
    ensures Without(fs, finalizer) != [] <==> exists f | f in fs :: f != finalizer
  {
    var rest := Without(fs, finalizer);
    if rest != [] {
      assert rest[0] in rest;
    }
    hide Without;
  }

  /**
    A deleting pod loses one finalizer: it stays in the API exactly if it has another one, and then carries all the
    others (WithoutKeeps, WithoutOrder: each as often as before, and in order), and is otherwise as it was.
   */
  ghost predicate LosesFinalizer(s: State, s': State, name: string, finalizer: string)
    requires name in s.pods
  {
    var pod := s.pods[name];
    && (name in s'.pods <==> exists f | f in pod.finalizers :: f != finalizer)
    && (name in s'.pods ==> s'.pods[name] == pod.(finalizers := Without(pod.finalizers, finalizer)))
  }

  // ---------- the users' and the API server's own steps ----------

  /**
    A deletion request marks the pod and changes no other; the pod leaves at once exactly if it has no finalizer. A
    second request changes nothing.
   */
  lemma RequestExactly(s: State, name: string)
    requires name in s.pods
    ensures var s', pod := DeletePod(s, name), s.pods[name];
            && OnlyPod(s, s', name)
            && (pod.deleting ==> s' == s)
            && (!pod.deleting ==>
                  && (name in s'.pods <==> pod.finalizers != [])
                  && (name in s'.pods ==> s'.pods[name] == pod.(deleting := true)))
            && s'.nads == s.nads && s'.networks == s.networks && s'.sdn == s.sdn && s'.grabs == s.grabs
  {
    hide Pod.Pairs, Pod.Holds;
  }

  /** Another controller's finalizer goes in the same way, and leaves a live pod where it is. */
  lemma DropExactly(s: State, name: string, finalizer: string)
    requires name in s.pods && finalizer != L2SM
    ensures var s', pod := DropFinalizer(s, name, finalizer), s.pods[name];
            && OnlyPod(s, s', name) && s' == s.(pods := s'.pods)
            && (pod.deleting ==> LosesFinalizer(s, s', name, finalizer))
            && (!pod.deleting ==>
                  name in s'.pods && s'.pods[name] == pod.(finalizers := Without(pod.finalizers, finalizer)))
  {
    if s.pods[name].deleting {
      Settles(s, DropFinalizer(s, name, finalizer), name, finalizer);
      hide LosesFinalizer, Without;
    }
  }

  // ---------- interfaces taken by networks ----------

  /**
    A bridge: nothing happens without a free interface or when the attach call fails. Otherwise the first free one is
    attached to the network and taken for it, and labelled if that write goes through.
   */
  lemma BridgeExactly(s: State, network: string, node: string, order: seq<string>, attachOk: bool, writeOk: bool)
    ensures var s', free := ConnectNed(s, network, node, order, attachOk, writeOk), FreeNads(order, s.nads, node);
            if free == [] || !attachOk then s' == s
            else
              && LabelledAs(s.nads, s'.nads, if writeOk then {free[0]} else {}, node, "true")
              && s' == s.(nads := s'.nads, grabs := s.grabs + {Grab(Bridge, network, Hold(node, free[0]))},
                          sdn := s.sdn + {Attachment(network, PortOf(Hold(node, free[0])))})
  {
    hide FreeNads, PortOf;
  }

  /** A mirror port: the same with the mirror call, which needs a readable port, and without an attachment. */
  lemma MirrorExactly(s: State, network: string, node: string, order: seq<string>, mirrorOk: bool, writeOk: bool)
    ensures var s', free := MirrorIds(s, network, node, order, mirrorOk, writeOk), FreeNads(order, s.nads, node);
            if free == [] || PortNumber(free[0]).Err? || !mirrorOk then s' == s
            else
              && LabelledAs(s.nads, s'.nads, if writeOk then {free[0]} else {}, node, "true")
              && s' == s.(nads := s'.nads, grabs := s.grabs + {Grab(Mirror, network, Hold(node, free[0]))})
  {
    hide FreeNads, PortNumber;
  }
}

/**
  Short runs of the whole system that reach the states in which it fails: an interface lost with its network, one
  interface owned by two pods, and a freed port left on a quarantine network.
*/
module Scenarios {
  import opened Wrappers
  import opened Finalizers
  import opened NadNames
  import opened IpTexts
  import opened Admission
  import opened PodAdmission
  import opened Cluster
  import opened PortInvariant
  import opened Quarantine
  import opened QuarantineLaws
  import opened SdnAgreement
  import opened MetPods
  import opened Conservation
  import opened Runs

  // ---------- runs, event by event ----------

  /** Some run from a fresh overlay with these events ends in t. */
  ghost predicate Reachable(v6: V6, overlay: string, size: nat, es: seq<Event>, t: State) {
    exists trace: seq<State> :: IsRun(v6, trace, es) && Initial(trace[0], overlay, size) && trace[|es|] == t
  }

  lemma ReachStart(v6: V6, overlay: string, size: nat, s: State)
    requires Initial(s, overlay, size)
    ensures Reachable(v6, overlay, size, [], s)
  {
    hide Initial;
    assert IsRun(v6, [s], []);
  }

  lemma ReachOn(v6: V6, overlay: string, size: nat, es: seq<Event>, s: State, e: Event)
    requires Reachable(v6, overlay, size, es, s) && Enabled(v6, s, e)
    ensures Reachable(v6, overlay, size, es + [e], Apply(v6, s, e))
  {
    hide Enabled, Apply, Initial;
    var trace: seq<State> :| IsRun(v6, trace, es) && Initial(trace[0], overlay, size) && trace[|es|] == s;
    assert IsRun(v6, trace + [Apply(v6, s, e)], es + [e]);
  }

  // ---------- an overlay of one interface ----------

  function Fresh1(overlay: string): State {
    State(map[NadName(overlay, 1) := map["app" := "l2sm", "overlay" := overlay]], map[], map[], {}, {}, {}, {})
  }

  lemma Fresh1IsInitial(overlay: string)
    ensures Initial(Fresh1(overlay), overlay, 1)
  {
    hide NadName;
    var s := Fresh1(overlay);
    forall x
      ensures x in s.nads <==> exists i: nat :: 1 <= i <= 1 && x == NadName(overlay, i)
    {
      if x in s.nads {
        assert 1 <= 1 <= 1 && x == NadName(overlay, 1);
      }
    }
  }

  /** A network of layer 2, without addresses. */
  const PLAIN: Network := Network("", "", "", None, 0)

  function PodOn(network: string): Pod {
    Pod("", Some([Annotation(network, [])]), None, false, [], false)
  }

  /** The only interface of the pool, as long as it is free. */
  lemma OnlyFree(s: State, nad: string, node: string)
    requires Pool(s.nads) && s.nads.Keys == {nad} && !Used(s, Hold(node, nad))
    ensures Lists([nad], s.nads) && FreeNads([nad], s.nads, node) == [nad]
  {
    assert [nad][1..] == [];
    assert FreeNads([], s.nads, node) == [];
  }

  // ---------- an interface lost with its network ----------

  /**
    A network is created, connected to its network edge device and removed again, every call succeeding: the only
    interface of the node is neither free nor owned any more.
   */
  lemma RemovedNetworkLeaks(v6: V6, overlay: string, node: string, network: string)
    ensures var nad := NadName(overlay, 1);
            var es := [NetworkUp(network, PLAIN), Ned(network, node, [nad], true, true), NetworkDown(network)];
            exists t :: Reachable(v6, overlay, 1, es, t) && t.pods == map[] && t.networks == map[]
                        && FreeOn(t, node) == {} && OwnersOn(t, node) == {} && LostOn(t, node) == {nad}
  {
    var nad := NadName(overlay, 1);
    var e0, e1, e2 := NetworkUp(network, PLAIN), Ned(network, node, [nad], true, true), NetworkDown(network);
    var s0 := Fresh1(overlay);
    var s1 := CreateNetwork(s0, network, PLAIN);
    var s2 := ConnectNed(s1, network, node, [nad], true, true);
    var t := RemoveNetwork(s2, network);
    Bridging(overlay, node, network);
    NetworkSteps(v6, s0, network);
    NetworkSteps(v6, s2, network);
    NedStep(v6, s1, network, node, nad);
    Fresh1IsInitial(overlay);
    hide *;
    Reach3(v6, overlay, s0, s1, s2, t, e0, e1, e2);
  }

  lemma Reach3(v6: V6, overlay: string, s0: State, s1: State, s2: State, s3: State, e0: Event, e1: Event, e2: Event)
    requires Initial(s0, overlay, 1)
    requires Enabled(v6, s0, e0) && s1 == Apply(v6, s0, e0)
    requires Enabled(v6, s1, e1) && s2 == Apply(v6, s1, e1)
    requires Enabled(v6, s2, e2) && s3 == Apply(v6, s2, e2)
    ensures Reachable(v6, overlay, 1, [e0, e1, e2], s3)
  {
    hide *;
    ReachStart(v6, overlay, 1, s0);
    ReachOn(v6, overlay, 1, [], s0, e0);
    ReachOn(v6, overlay, 1, [] + [e0], s1, e1);
    ReachOn(v6, overlay, 1, [] + [e0] + [e1], s2, e2);
    assert [] + [e0] + [e1] + [e2] == [e0, e1, e2];
  }

  lemma NetworkSteps(v6: V6, s: State, network: string)
    ensures Enabled(v6, s, NetworkUp(network, PLAIN)) && Enabled(v6, s, NetworkDown(network))
    ensures Apply(v6, s, NetworkUp(network, PLAIN)) == CreateNetwork(s, network, PLAIN)
    ensures Apply(v6, s, NetworkDown(network)) == RemoveNetwork(s, network)
  {
    hide CreateNetwork, RemoveNetwork;
  }

  lemma NedStep(v6: V6, s: State, network: string, node: string, nad: string)
    requires network in s.networks && Lists([nad], s.nads)
    ensures Enabled(v6, s, Ned(network, node, [nad], true, true))
    ensures Apply(v6, s, Ned(network, node, [nad], true, true)) == ConnectNed(s, network, node, [nad], true, true)
  {
    hide ConnectNed, Lists;
  }

  lemma Bridging(overlay: string, node: string, network: string)
    ensures var nad := NadName(overlay, 1);
            var s1 := CreateNetwork(Fresh1(overlay), network, PLAIN);
            var s2 := ConnectNed(s1, network, node, [nad], true, true);
            var t := RemoveNetwork(s2, network);
            && Lists([nad], s1.nads) && network in s1.networks
            && t.pods == map[] && t.networks == map[]
            && FreeOn(t, node) == {} && OwnersOn(t, node) == {} && LostOn(t, node) == {nad}
  {
    var nad := NadName(overlay, 1);
    var s0 := Fresh1(overlay);
    Fresh1IsInitial(overlay);
    InitialInv(s0, overlay, 1);
    assert s0.nads.Keys == {nad};
    KeysDiffer(node, node);
    hide NadName, Initial, PortOf, Ports, Matched;
    var s1 := CreateNetwork(s0, network, PLAIN);
    OnlyFree(s1, nad, node);
    hide Pool, FreeNads, Lists;
    var s2 := ConnectNed(s1, network, node, [nad], true, true);
    var t := RemoveNetwork(s2, network);
    var g := Grab(Bridge, network, Hold(node, nad));
    assert s2.grabs == {g};
    assert t.grabs == {};
    assert t.networks == map[];
    assert g.at in GrabbedFor(s2, network);
  }

  // ---------- one interface, two pods ----------

  lemma PlainServes(v6: V6, networks: map<string, Network>, network: string, pod: string, linkLocal: string)
    requires network in networks ==> networks[network].cidr == ""
    ensures Served(v6, networks, [Annotation(network, [])], pod, [linkLocal], 1).Serving?
  {
    var wanted := [Annotation(network, [])];
    assert Served(v6, networks, wanted, pod, [linkLocal], 0) == Serving(networks, Known(networks, wanted), {}, []);
  }

  /** A pod that waits for one interface, in a pool of one free interface. */
  ghost predicate Waits(s: State, pod: string, network: string, node: string, nad: string) {
    && Pool(s.nads) && s.nads.Keys == {nad} && !Used(s, Hold(node, nad))
    && pod in s.pods && s.pods[pod] == PodOn(network)
    && (network in s.networks ==> s.networks[network].cidr == "")
  }

  lemma WaitingAdmits(v6: V6, s: State, pod: string, network: string, node: string, nad: string, linkLocal: string,
                      lostWrites: set<nat>)
    requires Waits(s, pod, network, node, nad)
    ensures var e := Admit(pod, node, [nad], [linkLocal], lostWrites);
            && Lists([nad], s.nads) && Grants(s, pod, node, [nad]) && Returns(v6, s, pod, node, [nad], [linkLocal])
            && FreeNads([nad], s.nads, node) == [nad]
            && Enabled(v6, s, e) && Apply(v6, s, e) == Handle(v6, s, pod, node, [nad], [linkLocal], lostWrites)
  {
    OnlyFree(s, nad, node);
    PlainServes(v6, s.networks, network, pod, linkLocal);
    hide FreeNads, Served, Lists, Handle;
  }

  /** An admission whose only label write is lost leaves the interface free for the next waiting pod. */
  lemma LostWriteLeavesFree(v6: V6, s: State, p: string, q: string, network: string, node: string, nad: string,
                            linkLocal: string)
    requires p != q && Waits(s, p, network, node, nad) && Waits(s, q, network, node, nad) && network !in s.networks
    ensures Grants(s, p, node, [nad]) && Returns(v6, s, p, node, [nad], [linkLocal])
    ensures Waits(Handle(v6, s, p, node, [nad], [linkLocal], {0}), q, network, node, nad)
  {
    WaitingAdmits(v6, s, p, network, node, nad, linkLocal, {0});
    HandlePod(v6, s, p, node, [nad], [linkLocal], {0});
    assert Taken([nad], 1, {0}) == {};
    RelabelUsed(s, {}, node, "true");
    RelabelPool(s.nads, {}, node, "true");
    ServedShape(v6, s.networks, [Annotation(network, [])], p, [linkLocal], 1);
    var s' := Handle(v6, s, p, node, [nad], [linkLocal], {0});
    HandleNetworks(v6, s, p, node, [nad], [linkLocal], {0});
    assert forall h :: Used(s', h) == Used(s.(nads := s'.nads), h);
    hide Handle, FreeNads, Served, Relabel, Pool, Used, Returns;
  }

  lemma HandleNetworks(v6: V6, s: State, name: string, picked: string, order: seq<string>, linkLocals: seq<string>,
                       lostWrites: set<nat>)
    requires Grants(s, name, picked, order) && Returns(v6, s, name, picked, order, linkLocals)
    ensures Handle(v6, s, name, picked, order, linkLocals, lostWrites).networks.Keys == s.networks.Keys
  {
    hide FreeNads, Served, Relabel, Taken, Multus;
    var wanted := s.pods[name].l2sm.value;
    ServedShape(v6, s.networks, wanted, name, linkLocals, |wanted|);
  }

  /** Two pods are created and admitted, the first with its label write lost: both own the interface. */
  lemma LostWriteRun(v6: V6, overlay: string, node: string, p: string, q: string, network: string, linkLocal: string)
    requires p != q
    ensures var nad := NadName(overlay, 1);
            var es := [Create(p, PodOn(network)), Create(q, PodOn(network)), Admit(p, node, [nad], [linkLocal], {0}),
                       Admit(q, node, [nad], [linkLocal], {})];
            exists t, h :: Reachable(v6, overlay, 1, es, t) && Has(t, Slot(p, 0), h) && Has(t, Slot(q, 0), h)
  {
    hide *;
    var nad, s0 := NadName(overlay, 1), Fresh1(overlay);
    var s1 := CreatePod(s0, p, PodOn(network));
    var s2 := CreatePod(s1, q, PodOn(network));
    TwoWait(overlay, node, p, q, network);
    CreateSteps(v6, s0, p, network);
    CreateSteps(v6, s1, q, network);
    AdmitBoth(v6, s2, p, q, network, node, nad, linkLocal);
    var e0, e1 := Create(p, PodOn(network)), Create(q, PodOn(network));
    var e2, e3 := Admit(p, node, [nad], [linkLocal], {0}), Admit(q, node, [nad], [linkLocal], {});
    var s3 := Apply(v6, s2, e2);
    Fresh1IsInitial(overlay);
    Reach3(v6, overlay, s0, s1, s2, s3, e0, e1, e2);
    ReachOn(v6, overlay, 1, [e0, e1, e2], s3, e3);
    assert [e0, e1, e2] + [e3] == [e0, e1, e2, e3];
  }

  lemma AdmitBoth(v6: V6, s: State, p: string, q: string, network: string, node: string, nad: string, linkLocal: string)
    requires p != q && Waits(s, p, network, node, nad) && Waits(s, q, network, node, nad) && network !in s.networks
    ensures var e, e' := Admit(p, node, [nad], [linkLocal], {0}), Admit(q, node, [nad], [linkLocal], {});
            && Enabled(v6, s, e) && Enabled(v6, Apply(v6, s, e), e')
            && var t := Apply(v6, Apply(v6, s, e), e');
               exists h :: Has(t, Slot(p, 0), h) && Has(t, Slot(q, 0), h)
  {
    WaitingAdmits(v6, s, p, network, node, nad, linkLocal, {0});
    LostWriteLeavesFree(v6, s, p, q, network, node, nad, linkLocal);
    var s' := Handle(v6, s, p, node, [nad], [linkLocal], {0});
    WaitingAdmits(v6, s', q, network, node, nad, linkLocal, {});
    hide Enabled, Apply, Handle, Returns, Grants, Lists, FreeNads, Has, Pool, Used;
    LostWriteShares(v6, s, p, q, node, [nad], [linkLocal], [linkLocal], {0}, {});
  }

  lemma CreateSteps(v6: V6, s: State, pod: string, network: string)
    requires pod !in s.pods
    ensures var e := Create(pod, PodOn(network));
            Enabled(v6, s, e) && Apply(v6, s, e) == CreatePod(s, pod, PodOn(network))
  {
  }

  lemma TwoWait(overlay: string, node: string, p: string, q: string, network: string)
    requires p != q
    ensures p !in Fresh1(overlay).pods && q !in CreatePod(Fresh1(overlay), p, PodOn(network)).pods
    ensures var s := CreatePod(CreatePod(Fresh1(overlay), p, PodOn(network)), q, PodOn(network));
            && Waits(s, p, network, node, NadName(overlay, 1)) && Waits(s, q, network, node, NadName(overlay, 1))
            && network !in s.networks
  {
    Fresh1IsInitial(overlay);
    InitialInv(Fresh1(overlay), overlay, 1);
    KeysDiffer(node, node);
    hide NadName, Initial, Ports, Matched, Pool;
    assert Fresh1(overlay).nads.Keys == {NadName(overlay, 1)};
  }

  // ---------- a freed port on the quarantine network ----------

  /** One pod, on the source network, in a pool of one interface; the target network is there as well. */
  ghost predicate Setting(s: State, p: string, source: string, target: string, nad: string) {
    && Inv(s) && s.nads.Keys == {nad} && Movable(s, source, target) && s.networks[source].cidr == ""
    && s.pods.Keys <= {p}
  }

  /** The pod holds the interface, was met by the reconciler and is ready to be moved. */
  ghost predicate Settled1(s: State, p: string, source: string, node: string, nad: string) {
    && p in s.pods && !s.pods[p].deleting && L2SM in s.pods[p].finalizers
    && Concerned(s.pods[p], source) && Readable(s.pods[p], source)
    && s.pods[p].HoldAt(MovedAt(s.pods[p], source)) == Hold(node, nad)
  }

  lemma SetUp(v6: V6, overlay: string, node: string, p: string, source: string, target: string)
    requires source != target
    ensures var nad := NadName(overlay, 1);
            var s1 := CreateNetwork(Fresh1(overlay), source, PLAIN);
            var s2 := CreateNetwork(s1, target, PLAIN);
            var s := CreatePod(s2, p, PodOn(source));
            && p !in s2.pods && Setting(s, p, source, target, nad) && Waits(s, p, source, node, nad)
  {
    var nad := NadName(overlay, 1);
    Fresh1IsInitial(overlay);
    InitialInv(Fresh1(overlay), overlay, 1);
    KeysDiffer(node, node);
    hide NadName, Initial, Inv;
    var s1 := CreateNetwork(Fresh1(overlay), source, PLAIN);
    var s2 := CreateNetwork(s1, target, PLAIN);
    NetworkUpKeeps(Fresh1(overlay), source, PLAIN);
    NetworkUpKeeps(s1, target, PLAIN);
    CreateKeeps(s2, p, PodOn(source));
    PoolOf(CreatePod(s2, p, PodOn(source)));
    hide Pool;
  }

  lemma PoolOf(s: State)
    requires Inv(s)
    ensures Pool(s.nads)
  {
  }

  lemma MultusOne(nad: string, given: seq<string>)
    ensures Multus([nad], [given]) == [Annotation(nad, given)]
  {
  }

  lemma AdmittedPlain(v6: V6, s: State, p: string, source: string, node: string, nad: string, linkLocal: string)
    requires Waits(s, p, source, node, nad) && source in s.networks
    requires Grants(s, p, node, [nad]) && Returns(v6, s, p, node, [nad], [linkLocal])
    requires FreeNads([nad], s.nads, node) == [nad]
    ensures var s' := Handle(v6, s, p, node, [nad], [linkLocal], {});
            && s'.pods == s.pods[p := PodOn(source).(node := node, multus := Some([Annotation(nad, [linkLocal])]))]
            && s'.networks == Served(v6, s.networks, [Annotation(source, [])], p, [linkLocal], 1).api
            && s'.nads.Keys == s.nads.Keys
  {
    var wanted := [Annotation(source, [])];
    PlainServed(v6, s.networks, source, p, linkLocal);
    MultusOne(nad, [linkLocal]);
    hide FreeNads, Served, Relabel, Taken, Pool, Used, Returns, Lists, Multus;
    assert |wanted| == 1 && s.pods[p].l2sm.value == wanted;
  }

  /** What the admission of a waiting pod leaves. */
  lemma Admitting(v6: V6, s: State, p: string, source: string, target: string, node: string, nad: string,
                  linkLocal: string)
    requires Setting(s, p, source, target, nad) && Waits(s, p, source, node, nad)
    ensures Grants(s, p, node, [nad]) && Returns(v6, s, p, node, [nad], [linkLocal])
    ensures var s' := Handle(v6, s, p, node, [nad], [linkLocal], {});
            && Setting(s', p, source, target, nad) && p in s'.pods
            && s'.pods[p] == PodOn(source).(node := node, multus := Some([Annotation(nad, [linkLocal])]))
  {
    WaitingAdmits(v6, s, p, source, node, nad, linkLocal, {});
    HandleKeepsExactly(v6, s, p, node, [nad], [linkLocal], {});
    HandleNetworks(v6, s, p, node, [nad], [linkLocal], {});
    PlainServed(v6, s.networks, source, p, linkLocal);
    AdmittedPlain(v6, s, p, source, node, nad, linkLocal);
    hide FreeNads, Served, Handle, Inv, Pool, Used, Returns, Lists, Grants;
  }

  lemma PlainServed(v6: V6, networks: map<string, Network>, network: string, pod: string, linkLocal: string)
    requires network in networks && networks[network].cidr == ""
    ensures var p := Served(v6, networks, [Annotation(network, [])], pod, [linkLocal], 1);
            && p.Serving? && p.given == [[linkLocal]]
            && network in p.api && p.api[network].cidr == ""
  {
    var wanted := [Annotation(network, [])];
    assert wanted[1..] == [] && Known(networks, []) == map[];
    assert Known(networks, wanted) == map[network := networks[network]];
    assert Served(v6, networks, wanted, pod, [linkLocal], 0) == Serving(networks, Known(networks, wanted), {}, []);
  }

  /** The pod is admitted and met. */
  lemma AdmitAndMeet(v6: V6, s: State, p: string, source: string, target: string, node: string, nad: string,
                     linkLocal: string)
    requires Setting(s, p, source, target, nad) && Waits(s, p, source, node, nad)
    ensures var e, e' := Admit(p, node, [nad], [linkLocal], {}), Meet(p, {}, AllSucceed);
            && Enabled(v6, s, e) && Enabled(v6, Apply(v6, s, e), e')
            && var t := Apply(v6, Apply(v6, s, e), e');
               Setting(t, p, source, target, nad) && Settled1(t, p, source, node, nad)
  {
    WaitingAdmits(v6, s, p, source, node, nad, linkLocal, {});
    Admitting(v6, s, p, source, target, node, nad, linkLocal);
    var s' := Handle(v6, s, p, node, [nad], [linkLocal], {});
    hide Handle, Returns, Grants, Lists, FreeNads;
    AttachKeeps(s', p, {});
    Meeting(s', p, source, target, node, nad, linkLocal);
    hide Inv, Attach;
    assert Reconcile(s', p, {}, AllSucceed) == Attach(s', p, {});
  }

  lemma Meeting(s: State, p: string, source: string, target: string, node: string, nad: string, linkLocal: string)
    requires Setting(s, p, source, target, nad) && p in s.pods
    requires s.pods[p] == PodOn(source).(node := node, multus := Some([Annotation(nad, [linkLocal])]))
    ensures var t := Attach(s, p, {});
            && t.nads == s.nads && t.networks == s.networks && t.pods.Keys == s.pods.Keys
            && Settled1(t, p, source, node, nad)
  {
    PoolOf(s);
    hide Inv, Reach, PairsBelow;
    assert nad in s.nads;
  }

  /** The move whose pod write fails, then the deletion. */
  lemma MoveAndDelete(v6: V6, s: State, p: string, source: string, target: string, node: string, nad: string)
    requires Setting(s, p, source, target, nad) && Settled1(s, p, source, node, nad)
    ensures var e5, e6, e7 := Isolate([source], target, true, [p], [PodWriteFails]), Delete(p), Meet(p, {}, AllSucceed);
            && Enabled(v6, s, e5) && Enabled(v6, Apply(v6, s, e5), e6)
            && Enabled(v6, Apply(v6, Apply(v6, s, e5), e6), e7)
            && var t := Apply(v6, Apply(v6, Apply(v6, s, e5), e6), e7);
               && Setting(t, p, source, target, nad) && !Used(t, Hold(node, nad))
               && Attachment(target, PortOf(Hold(node, nad))) in t.sdn
  {
    var s1 := Move(v6, s, source, target, p, PodWriteFails);
    InterruptedMoveLeaks(v6, s, source, target, p);
    MoveStopsShort(v6, s, source, target, p, PodWriteFails);
    IsolateStep(v6, s, p, source, target);
    hide Inv, Move, PortOf, Used, Concerned, Readable, Pod.HoldAt;
    var s2 := DeletePod(s1, p);
    var t := Reconcile(s2, p, {}, AllSucceed);
    DeleteFrame(s1, p);
    ReconcileFrame(s2, p);
  }

  lemma IsolateStep(v6: V6, s: State, p: string, source: string, target: string)
    requires Movable(s, source, target) && p in s.pods && !s.pods[p].deleting
    ensures var e := Isolate([source], target, true, [p], [PodWriteFails]);
            Enabled(v6, s, e) && Apply(v6, s, e) == Move(v6, s, source, target, p, PodWriteFails)
  {
    hide Move, Judge, SweepTo;
    SweepNone(v6, s, source, target, [p], [PodWriteFails]);
    SweepNext(v6, s, source, target, [p], [PodWriteFails], 0);
  }

  lemma DeleteFrame(s: State, p: string)
    requires p in s.pods
    ensures DeletePod(s, p).nads == s.nads && DeletePod(s, p).networks == s.networks
    ensures DeletePod(s, p).pods.Keys <= s.pods.Keys
  {
    hide Pod.Holds, Pod.Pairs;
  }

  lemma ReconcileFrame(s: State, p: string)
    requires p in s.pods
    ensures var t := Reconcile(s, p, {}, AllSucceed);
            t.nads.Keys == s.nads.Keys && t.networks == s.networks && t.pods.Keys <= s.pods.Keys
  {
    hide PairsBelow, NamesBelow, Reach, Finished, Tried, Completes, Pod.Pairs, NetworksExist;
  }

  /** The next pod is created and admitted, and inherits the attachment. */
  lemma CreateAndInherit(v6: V6, s: State, p: string, q: string, source: string, target: string, node: string,
                         nad: string, linkLocal: string)
    requires Setting(s, p, source, target, nad) && p != q && !Used(s, Hold(node, nad))
    requires Attachment(target, PortOf(Hold(node, nad))) in s.sdn
    ensures var e8, e9 := Create(q, PodOn(source)), Admit(q, node, [nad], [linkLocal], {});
            && Enabled(v6, s, e8) && Enabled(v6, Apply(v6, s, e8), e9)
            && var t := Apply(v6, Apply(v6, s, e8), e9);
               && Has(t, Slot(q, 0), Hold(node, nad))
               && Attachment(target, PortOf(Hold(node, nad))) in t.sdn
               && t.pods[q].Pairs() == {Attachment(source, PortOf(Hold(node, nad)))}
  {
    var s' := CreatePod(s, q, PodOn(source));
    CreateSteps(v6, s, q, source);
    CreateKeeps(s, q, PodOn(source));
    PoolOf(s');
    assert Used(s', Hold(node, nad)) == Used(s, Hold(node, nad));
    hide Inv, Pool, PortOf, Used;
    WaitingAdmits(v6, s', q, source, node, nad, linkLocal, {});
    hide Enabled, Apply, Handle, Returns, Lists, FreeNads;
    NextPodInherits(v6, s', q, node, [nad], [linkLocal], Hold(node, nad), target);
    HandlePod(v6, s', q, node, [nad], [linkLocal], {});
    var pod := Handle(v6, s', q, node, [nad], [linkLocal], {}).pods[q];
    assert pod.Slots() == 1 && pod.Pairs() == {pod.PairAt(0)} by {
      assert forall a :: a in pod.Pairs() <==> a == pod.PairAt(0);
    }
  }

  /**
    A pod is admitted and met, moved with its pod write failing, and deleted with every call succeeding; the next pod
    on that node lists the source network only, and has its port on the target network.
   */
  lemma InterruptedMoveRun(v6: V6, overlay: string, node: string, p: string, q: string, source: string, target: string,
                           linkLocal: string)
    requires p != q && source != target
    ensures var nad := NadName(overlay, 1);
            var es := [NetworkUp(source, PLAIN), NetworkUp(target, PLAIN), Create(p, PodOn(source)),
                       Admit(p, node, [nad], [linkLocal], {}), Meet(p, {}, AllSucceed),
                       Isolate([source], target, true, [p], [PodWriteFails]), Delete(p), Meet(p, {}, AllSucceed),
                       Create(q, PodOn(source)), Admit(q, node, [nad], [linkLocal], {})];
            exists t :: Reachable(v6, overlay, 1, es, t)
                        && Has(t, Slot(q, 0), Hold(node, nad))
                        && Attachment(target, PortOf(Hold(node, nad))) in t.sdn
                        && t.pods[q].Pairs() == {Attachment(source, PortOf(Hold(node, nad)))}
  {
    hide *;
    var nad, s0 := NadName(overlay, 1), Fresh1(overlay);
    var e0, e1, e2 := NetworkUp(source, PLAIN), NetworkUp(target, PLAIN), Create(p, PodOn(source));
    var e3, e4 := Admit(p, node, [nad], [linkLocal], {}), Meet(p, {}, AllSucceed);
    var e5, e6, e7 := Isolate([source], target, true, [p], [PodWriteFails]), Delete(p), Meet(p, {}, AllSucceed);
    var e8, e9 := Create(q, PodOn(source)), Admit(q, node, [nad], [linkLocal], {});
    var s1 := CreateNetwork(s0, source, PLAIN);
    var s2 := CreateNetwork(s1, target, PLAIN);
    var s3 := CreatePod(s2, p, PodOn(source));
    Fresh1IsInitial(overlay);
    SetUp(v6, overlay, node, p, source, target);
    NetworkSteps(v6, s0, source);
    NetworkSteps(v6, s1, target);
    CreateSteps(v6, s2, p, source);
    Reach3(v6, overlay, s0, s1, s2, s3, e0, e1, e2);
    AdmitAndMeet(v6, s3, p, source, target, node, nad, linkLocal);
    var s4 := Apply(v6, s3, e3);
    var s5 := Apply(v6, s4, e4);
    MoveAndDelete(v6, s5, p, source, target, node, nad);
    var s6 := Apply(v6, s5, e5);
    var s7 := Apply(v6, s6, e6);
    var s8 := Apply(v6, s7, e7);
    CreateAndInherit(v6, s8, p, q, source, target, node, nad, linkLocal);
    var s9 := Apply(v6, s8, e8);
    Reach2(v6, overlay, [e0, e1, e2], s3, s4, s5, e3, e4);
    Reach2(v6, overlay, [e0, e1, e2] + [e3, e4], s5, s6, s7, e5, e6);
    Reach2(v6, overlay, [e0, e1, e2] + [e3, e4] + [e5, e6], s7, s8, s9, e7, e8);
    ReachOn(v6, overlay, 1, [e0, e1, e2] + [e3, e4] + [e5, e6] + [e7, e8], s9, e9);
    assert [e0, e1, e2] + [e3, e4] + [e5, e6] + [e7, e8] + [e9] == [e0, e1, e2, e3, e4, e5, e6, e7, e8, e9];
  }

  lemma Reach2(v6: V6, overlay: string, es: seq<Event>, s: State, s': State, s'': State, e: Event, e': Event)
    requires Reachable(v6, overlay, 1, es, s)
    requires Enabled(v6, s, e) && s' == Apply(v6, s, e)
    requires Enabled(v6, s', e') && s'' == Apply(v6, s', e')
    ensures Reachable(v6, overlay, 1, es + [e, e'], s'')
  {
    hide *;
    ReachOn(v6, overlay, 1, es, s, e);
    ReachOn(v6, overlay, 1, es + [e], s', e');
    assert es + [e] + [e'] == es + [e, e'];
  }
}

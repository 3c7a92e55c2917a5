/**
  The cluster as the controllers see it, and what one run of each handler does to it. Answers of the API server
  and of the SDN controller are parameters: the order of a listing, and which calls fail.
*/
module Cluster {
  import opened Wrappers
  import opened Finalizers
  import opened NadNames
  import opened IpTexts
  import opened Admission
  import opened PodAdmission

  // ---------- switch interfaces ----------

  type Labels = map<string, string>

  function LabelKey(node: string): string {
    "used-" + node
  }

  predicate MarkedUsed(l: Labels, node: string) {
    LabelKey(node) in l && l[LabelKey(node)] == "true"
  }

  /** The label selector of GetFreeNetAttachDefs. */
  predicate IsFree(l: Labels, node: string) {
    "app" in l && l["app"] == "l2sm" && !MarkedUsed(l, node)
  }

  /** The API's listing of a pool: every interface once, in an order of its own. */
  ghost predicate Lists(order: seq<string>, nads: map<string, Labels>) {
    && (forall i, j | 0 <= i < j < |order| :: order[i] != order[j])
    && (forall x :: x in order <==> x in nads)
  }

  /** GetFreeNetAttachDefs: the free interfaces of a node, in listing order. */
  function FreeNads(order: seq<string>, nads: map<string, Labels>, node: string): (free: seq<string>)
    ensures forall x :: x in free <==> x in order && x in nads && IsFree(nads[x], node)
    ensures |free| <= |order|
    ensures (forall i, j | 0 <= i < j < |order| :: order[i] != order[j])
              ==> forall i, j | 0 <= i < j < |free| :: free[i] != free[j]
  {
    if order == [] then []
    else
      var rest := FreeNads(order[1..], nads, node);
      if order[0] in nads && IsFree(nads[order[0]], node) then [order[0]] + rest else rest
  }

  /** The pool with one node's label set to a value on some interfaces. */
  function Relabel(nads: map<string, Labels>, names: set<string>, node: string, value: string): (r: map<string, Labels>)
    ensures r.Keys == nads.Keys
  {
    map x | x in nads :: if x in names then nads[x][LabelKey(node) := value] else nads[x]
  }

  // ---------- pods and the SDN controller ----------

  /** A port of a node's switch: "of:<id of the node's switch>/<number>". */
  datatype Port = Port(node: string, number: string)

  datatype Attachment = Attachment(network: string, port: Port)

  /** One node's side of one switch interface. */
  datatype Hold = Hold(node: string, nad: string)

  function PortOf(h: Hold): Port {
    Port(h.node, match PortNumber(h.nad) case Ok(n) => n case Err(_) => "")
  }

  datatype Pod = Pod(node: string, l2sm: Option<seq<Annotation>>, multus: Option<seq<Annotation>>,
                     failed: bool, finalizers: seq<string>, deleting: bool)
  {
    /** The positions at which both annotation lists have an entry; none when their lengths differ. */
    function Slots(): nat {
      if l2sm.Some? && multus.Some? && |l2sm.value| == |multus.value| then |multus.value| else 0
    }

    function HoldAt(i: nat): Hold
      requires i < Slots()
    {
      Hold(node, multus.value[i].name)
    }

    function PairAt(i: nat): Attachment
      requires i < Slots()
    {
      Attachment(l2sm.value[i].name, PortOf(HoldAt(i)))
    }

    function Holds(): set<Hold> {
      set i | 0 <= i < Slots() :: HoldAt(i)
    }

    function Pairs(): set<Attachment> {
      set i | 0 <= i < Slots() :: PairAt(i)
    }

    /** The reconciler will still release the pod's ports: it is alive, or its finalizer holds back its deletion. */
    predicate Owns() {
      !deleting || L2SM in finalizers
    }
  }

  datatype Purpose = Bridge | Mirror

  /** An interface taken by a network: as the bridge to its network edge device, or as its IDS mirror port. */
  datatype Grab = Grab(purpose: Purpose, network: string, at: Hold)

  /**
    `lost` and `stale` are history: the ports that were still labelled, and the SDN pairs still present, when
    their owner went, or an admission was abandoned, without releasing them.
   */
  datatype State = State(nads: map<string, Labels>, pods: map<string, Pod>, networks: map<string, Network>,
                         sdn: set<Attachment>, grabs: set<Grab>, lost: set<Hold>, stale: set<Attachment>)

  function WithPod(s: State, name: string, pod: Pod): State {
    s.(pods := s.pods[name := pod])
  }

  /** A deleting object without finalizers leaves the API. */
  function Settled(s: State, name: string, pod: Pod): State {
    if pod.deleting && pod.finalizers == [] then s.(pods := s.pods - {name}) else WithPod(s, name, pod)
  }

  // ---------- PodAnnotator.Handle ----------

  predicate Admissible(pod: Pod) {
    !pod.deleting && !pod.failed && pod.l2sm.Some? && pod.multus.None?
  }

  /** The node Handle works with: the scheduled one, or the one it picks itself. */
  function NodeFor(pod: Pod, picked: string): string {
    if pod.node == "" then picked else pod.node
  }

  /** The interfaces Handle takes: the first free ones, one for each listed network. */
  function Taken(free: seq<string>, n: nat, except: set<nat>): set<string>
    requires n <= |free|
  {
    set i: nat | i < n && i !in except :: free[i]
  }

  function Multus(free: seq<string>, given: seq<seq<string>>): seq<Annotation>
    requires |given| <= |free|
  {
    seq(|given|, i requires 0 <= i < |given| => Annotation(free[i], given[i]))
  }

  /** Handle has found an interface for each of the pod's networks. */
  predicate Grants(s: State, name: string, picked: string, order: seq<string>) {
    && name in s.pods
    && Admissible(s.pods[name])
    && |s.pods[name].l2sm.value| <= |FreeNads(order, s.nads, NodeFor(s.pods[name], picked))|
  }

  /** Handle serves the first n of the pod's networks. */
  predicate ServesTo(v6: V6, s: State, name: string, linkLocals: seq<string>, n: nat)
    requires name in s.pods && s.pods[name].l2sm.Some?
  {
    var wanted := s.pods[name].l2sm.value;
    n <= |wanted| <= |linkLocals| && Served(v6, s.networks, wanted, name, linkLocals, n).Serving?
  }

  /** If Handle finds enough interfaces, it serves the pod's networks to the end. */
  predicate Returns(v6: V6, s: State, name: string, picked: string, order: seq<string>, linkLocals: seq<string>)
    requires name in s.pods
  {
    Grants(s, name, picked, order) ==> ServesTo(v6, s, name, linkLocals, |s.pods[name].l2sm.value|)
  }

  /** `lostWrites`: the positions at which the update of the interface's label fails, which Handle only logs. */
  function Handle(v6: V6, s: State, name: string, picked: string, order: seq<string>, linkLocals: seq<string>,
                  lostWrites: set<nat>): State
    requires name in s.pods && Returns(v6, s, name, picked, order, linkLocals)
  {
    var pod := s.pods[name];
    if !Admissible(pod) then s
    else
      var node, wanted := NodeFor(pod, picked), pod.l2sm.value;
      var free := FreeNads(order, s.nads, node);
      if |free| < |wanted| then WithPod(s, name, pod.(node := node, failed := true))
      else
        ServedShape(v6, s.networks, wanted, name, linkLocals, |wanted|);
        var p := Served(v6, s.networks, wanted, name, linkLocals, |wanted|);
        WithPod(s.(nads := Relabel(s.nads, Taken(free, |wanted|, lostWrites), node, "true"), networks := p.api),
                name, pod.(node := node, multus := Some(Multus(free, p.given))))
  }

  /**
    An admission that labels the first n interfaces and comes to nothing: the next search does not end, the next CIDR
    does not parse, the process dies, or the API server does not store the pod as patched. The pod is not changed;
    what was labelled is lost.
   */
  function Abandon(v6: V6, s: State, name: string, picked: string, order: seq<string>, linkLocals: seq<string>,
                   lostWrites: set<nat>, n: nat): State
    requires Grants(s, name, picked, order) && ServesTo(v6, s, name, linkLocals, n)
  {
    var node := NodeFor(s.pods[name], picked);
    var taken := Taken(FreeNads(order, s.nads, node), n, lostWrites);
    s.(nads := Relabel(s.nads, taken, node, "true"),
       networks := Served(v6, s.networks, s.pods[name].l2sm.value, name, linkLocals, n).api,
       lost := s.lost + HoldsOn(node, taken))
  }

  /** If Handle finds enough interfaces, its address searches all end. */
  predicate Ends(v6: V6, s: State, name: string, picked: string, order: seq<string>, linkLocals: seq<string>)
    requires name in s.pods
  {
    Grants(s, name, picked, order) ==>
      var wanted := s.pods[name].l2sm.value;
      |wanted| <= |linkLocals| && !Served(v6, s.networks, wanted, name, linkLocals, |wanted|).Stuck?
  }

  /** One run of Handle whose searches end: it serves the pod, or panics at a CIDR that does not parse. */
  function Admitted(v6: V6, s: State, name: string, picked: string, order: seq<string>, linkLocals: seq<string>,
                    lostWrites: set<nat>): State
    requires name in s.pods && Ends(v6, s, name, picked, order, linkLocals)
  {
    if Returns(v6, s, name, picked, order, linkLocals) then Handle(v6, s, name, picked, order, linkLocals, lostWrites)
    else
      var wanted := s.pods[name].l2sm.value;
      Abandon(v6, s, name, picked, order, linkLocals, lostWrites,
              Ended(v6, s.networks, wanted, name, linkLocals, |wanted|))
  }

  function HoldsOn(node: string, names: set<string>): set<Hold> {
    set x | x in names :: Hold(node, x)
  }

  // ---------- PodReconciler.Reconcile ----------

  /** How many leading entries have a readable port number and do not fail. */
  function Reach(nads: seq<Annotation>, fails: set<nat>): (n: nat)
    ensures n <= |nads|
    ensures forall i | 0 <= i < n :: i !in fails && PortNumber(nads[i].name).Ok?
    ensures n < |nads| ==> n in fails || PortNumber(nads[n].name).Err?
  {
    ReachFrom(nads, fails, 0)
  }

  function ReachFrom(nads: seq<Annotation>, fails: set<nat>, i: nat): (n: nat)
    requires i <= |nads|
    ensures i <= n <= |nads|
    ensures forall j | i <= j < n :: j !in fails && PortNumber(nads[j].name).Ok?
    ensures n < |nads| ==> n in fails || PortNumber(nads[n].name).Err?
    decreases |nads| - i
  {
    if i == |nads| || i in fails || PortNumber(nads[i].name).Err? then i else ReachFrom(nads, fails, i + 1)
  }

  predicate NetworksExist(networks: map<string, Network>, wanted: seq<Annotation>) {
    forall a | a in wanted :: a.name in networks
  }

  function PairsBelow(pod: Pod, n: nat, except: set<nat>): set<Attachment>
    requires n <= pod.Slots()
  {
    set i: nat | i < n && i !in except :: pod.PairAt(i)
  }

  function NamesBelow(pod: Pod, n: nat): set<string>
    requires n <= pod.Slots()
  {
    set i | 0 <= i < n :: pod.multus.value[i].name
  }

  /** A pod seen for the first time: add the finalizer, then attach port by port until a call fails. */
  function Attach(s: State, name: string, sdnFails: set<nat>): State
    requires name in s.pods
  {
    var pod := s.pods[name];
    var s1 := WithPod(s, name, pod.(finalizers := pod.finalizers + [L2SM]));
    if pod.Slots() == 0 || !NetworksExist(s.networks, pod.l2sm.value) then s1
    else s1.(sdn := s.sdn + PairsBelow(pod, Reach(pod.multus.value, sdnFails), {}))
  }

  /** The API calls for one deletion: all succeed, or the one for entry `at` (past the end: the pod's) fails. */
  datatype ApiCalls = AllSucceed | FailsAt(at: nat)

  /** How many entries a deletion run processes to the end. */
  function Finished(pod: Pod, api: ApiCalls): (n: nat)
    ensures n <= pod.Slots()
  {
    if pod.Slots() == 0 then 0
    else
      var n := Reach(pod.multus.value, {});
      if api.FailsAt? && api.at < n then api.at else n
  }

  /** How many entries it asks the SDN controller to detach: one more when the API fails in mid-entry. */
  function Tried(pod: Pod, api: ApiCalls): (n: nat)
    ensures n <= pod.Slots()
  {
    var n := Finished(pod, api);
    if n < pod.Slots() && PortNumber(pod.multus.value[n].name).Ok? then n + 1 else n
  }

  predicate Completes(pod: Pod, api: ApiCalls) {
    Finished(pod, api) == pod.Slots() && api.AllSucceed?
  }

  /** A deletion whose lists have equal lengths: detach and release entry by entry, then drop the finalizer. */
  function Detach(s: State, name: string, sdnFails: set<nat>, api: ApiCalls): State
    requires name in s.pods
  {
    var pod := s.pods[name];
    var sdn := s.sdn - PairsBelow(pod, Tried(pod, api), sdnFails);
    var s1 := s.(sdn := sdn, nads := Relabel(s.nads, NamesBelow(pod, Finished(pod, api)), pod.node, "false"));
    if Completes(pod, api)
    then Settled(s1.(stale := s.stale + pod.Pairs() * sdn), name, pod.(finalizers := Without(pod.finalizers, L2SM)))
    else s1
  }

  predicate BothLists(pod: Pod) {
    pod.l2sm.Some? && pod.multus.Some?
  }

  predicate SameLength(pod: Pod) {
    BothLists(pod) && |pod.l2sm.value| == |pod.multus.value|
  }

  function Reconcile(s: State, name: string, sdnFails: set<nat>, api: ApiCalls): State
    requires name in s.pods
  {
    var pod := s.pods[name];
    if !BothLists(pod) then s
    else if pod.deleting then
      if L2SM in pod.finalizers && SameLength(pod) then Detach(s, name, sdnFails, api) else s
    else if L2SM !in pod.finalizers then Attach(s, name, sdnFails)
    else s
  }

  // ---------- the users' and the API server's own steps ----------

  predicate Fresh(pod: Pod) {
    pod.multus.None? && !pod.deleting && !pod.failed && L2SM !in pod.finalizers
  }

  function CreatePod(s: State, name: string, pod: Pod): State {
    WithPod(s, name, pod)
  }

  /** A deletion request; a pod that the reconciler has not met yet takes its ports with it. */
  function DeletePod(s: State, name: string): State
    requires name in s.pods
  {
    var pod := s.pods[name];
    if pod.deleting then s
    else
      var s1 := Settled(s, name, pod.(deleting := true));
      if L2SM in pod.finalizers then s1
      else s1.(lost := s.lost + pod.Holds(), stale := s.stale + pod.Pairs() * s.sdn)
  }

  /** Another controller gives up its finalizer. */
  function DropFinalizer(s: State, name: string, finalizer: string): State
    requires name in s.pods
  {
    var pod := s.pods[name];
    Settled(s, name, pod.(finalizers := Without(pod.finalizers, finalizer)))
  }

  function CreateNetwork(s: State, name: string, network: Network): State {
    s.(networks := s.networks[name := network])
  }

  /**
    A network leaves after its deletion at the SDN controller, which forgets it together with its ports. Nothing
    resets the labels of the interfaces the network took for itself: they are lost.
   */
  function RemoveNetwork(s: State, name: string): State {
    s.(networks := s.networks - {name}, sdn := (set a | a in s.sdn && a.network != name),
       grabs := (set g | g in s.grabs && g.network != name), lost := s.lost + GrabbedFor(s, name))
  }

  function GrabbedFor(s: State, network: string): set<Hold> {
    set g | g in s.grabs && g.network == network :: g.at
  }

  // ---------- interfaces taken by networks ----------

  /** ConnectInternalSwitchToNED: attach the first free interface, then label it. */
  function ConnectNed(s: State, network: string, node: string, order: seq<string>, attachOk: bool,
                      writeOk: bool): State
  {
    var free := FreeNads(order, s.nads, node);
    if free == [] || !attachOk then s
    else
      var g := Grab(Bridge, network, Hold(node, free[0]));
      s.(sdn := s.sdn + {Attachment(network, PortOf(g.at))},
         grabs := s.grabs + {g},
         nads := if writeOk then Relabel(s.nads, {free[0]}, node, "true") else s.nads)
  }

  /** The mirror port of a network with intrusion detection. */
  function MirrorIds(s: State, network: string, node: string, order: seq<string>, mirrorOk: bool,
                     writeOk: bool): State
  {
    var free := FreeNads(order, s.nads, node);
    if free == [] || PortNumber(free[0]).Err? || !mirrorOk then s
    else
      s.(grabs := s.grabs + {Grab(Mirror, network, Hold(node, free[0]))},
         nads := if writeOk then Relabel(s.nads, {free[0]}, node, "true") else s.nads)
  }
}

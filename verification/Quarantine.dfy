/**
  Moving pods to a quarantine network (internal/controller/quarantinepodrequest_controller.go): what one
  reconciliation does to the cluster, and where repeated reconciliations lead.
*/
module Quarantine {
  import opened Wrappers
  import opened NadNames
  import opened IpTexts
  import opened Admission
  import opened Cluster

  /** networkAnnotationIndex: the first entry with the name, or -1. */
  function NetworkIndex(l: seq<Annotation>, name: string): (i: int)
    ensures -1 <= i < |l|
    ensures i >= 0 ==> l[i].name == name && forall j | 0 <= j < i :: l[j].name != name
    ensures i == -1 ==> forall j | 0 <= j < |l| :: l[j].name != name
  {
    if l == [] then -1
    else if l[0].name == name then 0
    else
      var i := NetworkIndex(l[1..], name);
      assert i == -1 ==> forall j | 1 <= j < |l| :: l[j] == l[1..][j - 1];
      assert i >= 0 ==> forall j | 1 <= j < i + 1 :: l[j] == l[1..][j - 1];
      if i == -1 then -1 else i + 1
  }

  /** How the calls for one pod end: all succeed, or the named one fails. */
  datatype Calls = Succeed | DetachFails | AttachFails | PodWriteFails | SourceWriteFails | TargetWriteFails

  datatype Verdict = Skipped | Moved | Failed

  /** The pod takes part: it has both lists and its first list names the source. */
  predicate Concerned(pod: Pod, source: string) {
    BothLists(pod) && NetworkIndex(pod.l2sm.value, source) != -1
  }

  /** The entry to move can be read: the lists match and its interface has a port number. */
  predicate Readable(pod: Pod, source: string)
    requires Concerned(pod, source)
  {
    SameLength(pod) && PortNumber(pod.multus.value[NetworkIndex(pod.l2sm.value, source)].name).Ok?
  }

  function Judge(pod: Pod, source: string, calls: Calls): Verdict {
    if !Concerned(pod, source) then Skipped
    else if Readable(pod, source) && calls.Succeed? then Moved
    else Failed
  }

  /** The pod with one entry of its network list renamed. */
  function Renamed(pod: Pod, i: nat, target: string): Pod
    requires pod.l2sm.Some? && i < |pod.l2sm.value|
  {
    pod.(l2sm := Some(pod.l2sm.value[i := pod.l2sm.value[i].(name := target)]))
  }

  // ---------- network statuses ----------

  /** The two networks after the addresses of one pod changed hands; texts that do not parse are passed over. */
  function MoveAddresses(v6: V6, source: Network, target: Network, ips: seq<string>, pod: string): (Network, Network) {
    if ips == [] then (source, target)
    else
      var (src, tgt) := MoveAddresses(v6, source, target, ips[..|ips| - 1], pod);
      match AddressKey(v6, ips[|ips| - 1])
      case None => (src, tgt)
      case Some(key) => (Forget(src, key), tgt.Record(key, pod))
  }

  function Forget(n: Network, key: string): Network {
    if n.addresses.Some? then n.(addresses := Some(n.addresses.value - {key})) else n
  }

  function UpdateStatuses(v6: V6, source: Network, target: Network, ips: seq<string>, pod: string): (Network, Network) {
    MoveAddresses(v6, source.(connected := if source.connected > 0 then source.connected - 1 else source.connected),
                  target.(connected := target.connected + 1), ips, pod)
  }

  // ---------- one pod ----------

  ghost predicate Movable(s: State, source: string, target: string) {
    source in s.networks && target in s.networks && source != target
  }

  /** movePodToTargetNetwork. */
  function Move(v6: V6, s: State, source: string, target: string, name: string, calls: Calls): (s': State)
    requires Movable(s, source, target) && name in s.pods
    ensures s'.networks.Keys == s.networks.Keys && s'.pods.Keys == s.pods.Keys
  {
    var pod := s.pods[name];
    if !Concerned(pod, source) || !Readable(pod, source) || calls.DetachFails? then s
    else
      var i := NetworkIndex(pod.l2sm.value, source);
      var detached := s.(sdn := s.sdn - {pod.PairAt(i)});
      if calls.AttachFails? then detached
      else
        var attached := detached.(sdn := detached.sdn + {Attachment(target, pod.PairAt(i).port)});
        if calls.PodWriteFails? then attached
        else
          var (src, tgt) := UpdateStatuses(v6, s.networks[source], s.networks[target], pod.multus.value[i].ips, name);
          var written := if calls.SourceWriteFails? then s.networks else s.networks[source := src];
          WithPod(attached.(networks := if calls.Succeed? then written[target := tgt] else written),
                  name, Renamed(pod, i, target))
  }

  // ---------- one reconciliation ----------

  datatype Sweep = Sweep(state: State, moved: nat, failed: bool)

  /** The loop after its first n pods; it stops at the first pod that fails, and passes over deleted ones. */
  function SweepTo(v6: V6, s: State, source: string, target: string, names: seq<string>, calls: seq<Calls>,
                   n: nat): (w: Sweep)
    requires Movable(s, source, target) && n <= |names| <= |calls|
    requires forall x | x in names :: x in s.pods
    ensures w.state.networks.Keys == s.networks.Keys && w.state.pods.Keys == s.pods.Keys
  {
    if n == 0 then Sweep(s, 0, false)
    else
      var w := SweepTo(v6, s, source, target, names, calls, n - 1);
      var name := names[n - 1];
      assert name in names;
      var pod := w.state.pods[name];
      if w.failed || pod.deleting then w
      else
        var state := Move(v6, w.state, source, target, name, calls[n - 1]);
        match Judge(pod, source, calls[n - 1])
        case Skipped => Sweep(state, w.moved, false)
        case Moved => Sweep(state, w.moved + 1, false)
        case Failed => Sweep(state, w.moved, true)
  }

  /** The answers of one reconciliation of a quarantine request. */
  datatype Answer =
    | Panics                        // no, or several, networks match the source selector
    | TargetNotFound
    | SameNetwork
    | TargetUnavailable
    | MoveFailed(moved: nat)
    | PodsMoved(moved: nat)

  /** The request's answer and the cluster after it; `matching` are the networks its source selector matches. */
  function Reconciliation(v6: V6, s: State, matching: seq<string>, target: string, targetInSdn: bool,
                          names: seq<string>, calls: seq<Calls>): (Answer, State)
    requires |names| <= |calls| && (forall x | x in names :: x in s.pods)
             && (forall x | x in matching :: x in s.networks)
  {
    if |matching| != 1 then (Panics, s)
    else if target !in s.networks then (TargetNotFound, s)
    else if matching[0] == target then (SameNetwork, s)
    else if !targetInSdn then (TargetUnavailable, s)
    else
      assert matching[0] in matching;
      var w := SweepTo(v6, s, matching[0], target, names, calls, |names|);
      (if w.failed then MoveFailed(w.moved) else PodsMoved(w.moved), w.state)
  }
}

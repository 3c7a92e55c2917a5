/**
  What a quarantine request is answered, and what it leaves behind, whichever of its calls fail
  (internal/controller/quarantinepodrequest_controller.go, lines 60-122 and 148-222).
*/
module QuarantineAnswers {
  import opened Wrappers
  import opened NadNames
  import opened IpTexts
  import opened Admission
  import opened Cluster
  import opened Quarantine
  import opened QuarantineLaws

  /** The first entry of a list that names a network. */
  ghost predicate FirstAt(l: seq<Annotation>, name: string, i: nat) {
    i < |l| && l[i].name == name && forall j | 0 <= j < i :: l[j].name != name
  }

  /** A pod is concerned by a request: it is alive, has both lists, and the first of them names the source. */
  ghost predicate TakesPart(pod: Pod, source: string) {
    !pod.deleting && pod.l2sm.Some? && pod.multus.Some?
    && exists i :: 0 <= i < |pod.l2sm.value| && pod.l2sm.value[i].name == source
  }

  /** Its move succeeds: the lists are equally long, the interface has a port number, and no call fails. */
  ghost predicate Succeeds(pod: Pod, source: string, calls: Calls) {
    TakesPart(pod, source) && calls.Succeed? && |pod.l2sm.value| == |pod.multus.value|
    && forall i: nat | FirstAt(pod.l2sm.value, source, i) :: PortNumber(pod.multus.value[i].name).Ok?
  }

  /** The pod's first entry for the source names the target instead, and nothing else of it has changed. */
  ghost predicate Switched(pod: Pod, pod': Pod, source: string, target: string) {
    && pod.l2sm.Some?
    && exists i: nat ::
         FirstAt(pod.l2sm.value, source, i)
         && pod' == pod.(l2sm := Some(pod.l2sm.value[i := Annotation(target, pod.l2sm.value[i].ips)]))
  }

  lemma IndexIsFirst(l: seq<Annotation>, name: string)
    ensures NetworkIndex(l, name) != -1 <==> exists i :: 0 <= i < |l| && l[i].name == name
    ensures forall i: nat :: FirstAt(l, name, i) <==> i == NetworkIndex(l, name)
  {
    forall i: nat
      ensures FirstAt(l, name, i) <==> i == NetworkIndex(l, name)
    {
    }
    hide NetworkIndex;
  }

  /** The verdict on one pod. */
  lemma JudgedExactly(pod: Pod, source: string, calls: Calls)
    requires !pod.deleting
    ensures Judge(pod, source, calls) ==
            if !TakesPart(pod, source) then Skipped else if Succeeds(pod, source, calls) then Moved else Failed
  {
    if BothLists(pod) {
      IndexIsFirst(pod.l2sm.value, source);
    }
    hide NetworkIndex, FirstAt, PortNumber;
  }

  // ---------- one pod ----------

  /**
    A move whose entry i is the first one for the source. It does nothing if the lists differ in length, the port is
    unreadable or the detach call fails; after a failed attach call the port is on neither network; after a failed
    pod write it is on the target, and the pod still lists the source; after that the pod lists the target, and each
    status is written unless it or the one before it fails.
   */
  lemma MoveExactly(v6: V6, s: State, source: string, target: string, name: string, calls: Calls, i: nat)
    requires Movable(s, source, target) && name in s.pods && BothLists(s.pods[name])
    requires FirstAt(s.pods[name].l2sm.value, source, i)
    ensures var s', pod := Move(v6, s, source, target, name, calls), s.pods[name];
            if |pod.l2sm.value| != |pod.multus.value| || PortNumber(pod.multus.value[i].name).Err? || calls.DetachFails?
            then s' == s
            else
              var port := Port(pod.node, PortNumber(pod.multus.value[i].name).value);
              var off := s.sdn - {Attachment(source, port)};
              && s' == s.(sdn := s'.sdn, pods := s'.pods, networks := s'.networks)
              && s'.sdn == (if calls.AttachFails? then off else off + {Attachment(target, port)})
              && if calls.AttachFails? || calls.PodWriteFails? then s' == s.(sdn := s'.sdn)
                 else
                   && s'.pods == s.pods[name := s'.pods[name]] && Switched(pod, s'.pods[name], source, target)
                   && s'.networks.Keys == s.networks.Keys
                   && (forall x | x in s.networks && x != source && x != target :: s'.networks[x] == s.networks[x])
                   && (if calls.SourceWriteFails? then s'.networks[source] == s.networks[source]
                       else Released(v6, s.networks[source], s'.networks[source], pod.multus.value[i].ips))
                   && (if calls.SourceWriteFails? || calls.TargetWriteFails?
                       then s'.networks[target] == s.networks[target]
                       else Received(v6, s.networks[target], s'.networks[target], pod.multus.value[i].ips, name))
  {
    var pod := s.pods[name];
    IndexIsFirst(pod.l2sm.value, source);
    assert Concerned(pod, source);
    if |pod.l2sm.value| == |pod.multus.value| {
      StatusesExactly(v6, s.networks[source], s.networks[target], pod.multus.value[i].ips, name);
    }
    hide NetworkIndex, UpdateStatuses, PortNumber, Released, Received;
  }

  /** A pod that is not concerned is left alone, and so is everything else. */
  lemma MoveSkips(v6: V6, s: State, source: string, target: string, name: string, calls: Calls)
    requires Movable(s, source, target) && name in s.pods && !s.pods[name].deleting && !TakesPart(s.pods[name], source)
    ensures Move(v6, s, source, target, name, calls) == s
  {
    JudgedExactly(s.pods[name], source, calls);
    hide NetworkIndex, UpdateStatuses;
  }

  /** An address read from one of the texts, in its own notation. */
  ghost predicate ReadFrom(v6: V6, ips: seq<string>, key: string) {
    exists i :: 0 <= i < |ips| && ReadCidr(v6, ips[i]).Some? && key == IpText(v6, ReadCidr(v6, ips[i]).value.ip)
  }

  /** The source counts one pod less, unless it counted none, and forgets the addresses; nothing else changes. */
  ghost predicate Released(v6: V6, n: Network, n': Network, ips: seq<string>) {
    && n' == n.(connected := if n.connected > 0 then n.connected - 1 else n.connected, addresses := n'.addresses)
    && (n'.addresses.None? <==> n.addresses.None?)
    && (forall k :: k in n'.Assigned() <==> k in n.Assigned() && !ReadFrom(v6, ips, k))
    && (forall k | k in n'.Assigned() :: n'.Assigned()[k] == n.Assigned()[k])
  }

  /** The target counts one pod more and records the addresses for the pod; nothing else changes. */
  ghost predicate Received(v6: V6, n: Network, n': Network, ips: seq<string>, pod: string) {
    && n' == n.(connected := n.connected + 1, addresses := n'.addresses)
    && (forall k :: k in n'.Assigned() <==> k in n.Assigned() || ReadFrom(v6, ips, k))
    && (forall k | k in n'.Assigned() ::
          n'.Assigned()[k] == if ReadFrom(v6, ips, k) then pod else n.Assigned()[k])
  }

  lemma StatusesExactly(v6: V6, source: Network, target: Network, ips: seq<string>, pod: string)
    ensures var (src, tgt) := UpdateStatuses(v6, source, target, ips, pod);
            Released(v6, source, src, ips) && Received(v6, target, tgt, ips, pod)
  {
    var lowered := source.(connected := if source.connected > 0 then source.connected - 1 else source.connected);
    AddressesExactly(v6, lowered, target.(connected := target.connected + 1), ips, pod);
    hide MoveAddresses, ReadFrom;
  }

  lemma {:induction false} AddressesExactly(v6: V6, source: Network, target: Network, ips: seq<string>, pod: string)
    ensures var (src, tgt) := MoveAddresses(v6, source, target, ips, pod);
            && src == source.(addresses := src.addresses) && (src.addresses.None? <==> source.addresses.None?)
            && (forall k :: k in src.Assigned() <==> k in source.Assigned() && !ReadFrom(v6, ips, k))
            && (forall k | k in src.Assigned() :: src.Assigned()[k] == source.Assigned()[k])
            && tgt == target.(addresses := tgt.addresses)
            && (forall k :: k in tgt.Assigned() <==> k in target.Assigned() || ReadFrom(v6, ips, k))
            && (forall k | k in tgt.Assigned() ::
                  tgt.Assigned()[k] == if ReadFrom(v6, ips, k) then pod else target.Assigned()[k])
  {
    if ips != [] {
      AddressesExactly(v6, source, target, ips[..|ips| - 1], pod);
      forall k
        ensures ReadFrom(v6, ips, k) <==>
                ReadFrom(v6, ips[..|ips| - 1], k) || AddressKey(v6, ips[|ips| - 1]) == Some(k)
      {
        ReadFromLast(v6, ips, k);
      }
      hide ReadFrom, AddressKey;
    }
  }

  lemma ReadFromLast(v6: V6, ips: seq<string>, k: string)
    requires ips != []
    ensures ReadFrom(v6, ips, k) <==>
            ReadFrom(v6, ips[..|ips| - 1], k) || AddressKey(v6, ips[|ips| - 1]) == Some(k)
  {
    hide ReadCidr, IpText;
    var front := ips[..|ips| - 1];
    if i :| 0 <= i < |ips| && ReadCidr(v6, ips[i]).Some? && k == IpText(v6, ReadCidr(v6, ips[i]).value.ip) {
      assert i < |front| ==> front[i] == ips[i];
    }
    if i :| 0 <= i < |front| && ReadCidr(v6, front[i]).Some? && k == IpText(v6, ReadCidr(v6, front[i]).value.ip) {
      assert ips[i] == front[i];
    }
  }

  // ---------- a whole request ----------

  /** The pod at position k of the listing stops the request. */
  ghost predicate Stops(s: State, source: string, names: seq<string>, calls: seq<Calls>, k: nat)
    requires k < |names| <= |calls| && forall x | x in names :: x in s.pods
  {
    assert names[k] in names;
    TakesPart(s.pods[names[k]], source) && !Succeeds(s.pods[names[k]], source, calls[k])
  }

  /** How many of the first k pods of the listing are moved. */
  ghost function MovedBefore(s: State, source: string, names: seq<string>, calls: seq<Calls>, k: nat): nat
    requires k <= |names| <= |calls| && forall x | x in names :: x in s.pods
  {
    if k == 0 then 0
    else
      assert names[k - 1] in names;
      MovedBefore(s, source, names, calls, k - 1)
      + if Succeeds(s.pods[names[k - 1]], source, calls[k - 1]) then 1 else 0
  }

  /** The pods of s' are those of s, with the movable ones among the first k of the listing switched. */
  ghost predicate SwitchedBefore(s: State, s': State, source: string, target: string, names: seq<string>,
                                 calls: seq<Calls>, k: nat, p: string)
    requires k <= |names| <= |calls| && p in s.pods && s'.pods.Keys == s.pods.Keys
  {
    if exists j :: 0 <= j < k && names[j] == p && Succeeds(s.pods[p], source, calls[j])
    then Switched(s.pods[p], s'.pods[p], source, target)
    else s'.pods[p] == s.pods[p]
  }

  /** As long as no pod stops the request, the pods before k are moved as far as they take part. */
  lemma {:induction false} SweepGoesOn(v6: V6, s: State, source: string, target: string, names: seq<string>,
                                       calls: seq<Calls>, k: nat)
    requires Movable(s, source, target) && k <= |names| <= |calls| && Distinct(names)
    requires forall x | x in names :: x in s.pods
    requires forall j: nat | j < k :: !Stops(s, source, names, calls, j)
    ensures var w := SweepTo(v6, s, source, target, names, calls, k);
            && !w.failed && w.moved == MovedBefore(s, source, names, calls, k)
            && forall p | p in s.pods :: SwitchedBefore(s, w.state, source, target, names, calls, k, p)
  {
    hide SweepTo, Succeeds, Switched, MovedBefore, Stops;
    if k == 0 {
      SweepNone(v6, s, source, target, names, calls);
      CountsNone(s, source, names, calls);
    } else {
      SweepGoesOn(v6, s, source, target, names, calls, k - 1);
      var w, name := SweepTo(v6, s, source, target, names, calls, k - 1), names[k - 1];
      assert name in names && forall j | 0 <= j < k - 1 :: names[j] != name;
      assert w.state.pods[name] == s.pods[name] by {
        assert SwitchedBefore(s, w.state, source, target, names, calls, k - 1, name);
      }
      hide Distinct, SwitchedBefore;
      SweepOn(v6, s, source, target, names, calls, k);
      var s' := SweepTo(v6, s, source, target, names, calls, k).state;
      forall p | p in s.pods
        ensures SwitchedBefore(s, s', source, target, names, calls, k, p)
      {
        SwitchedNext(s, w.state, s', source, target, names, calls, k, p);
      }
    }
  }

  lemma CountsNone(s: State, source: string, names: seq<string>, calls: seq<Calls>)
    requires |names| <= |calls| && forall x | x in names :: x in s.pods
    ensures MovedBefore(s, source, names, calls, 0) == 0
  {
  }

  lemma SweepOn(v6: V6, s: State, source: string, target: string, names: seq<string>, calls: seq<Calls>, k: nat)
    requires Movable(s, source, target) && 0 < k <= |names| <= |calls|
    requires forall x | x in names :: x in s.pods
    requires !Stops(s, source, names, calls, k - 1) && names[k - 1] in s.pods
    requires var w := SweepTo(v6, s, source, target, names, calls, k - 1);
             && !w.failed && w.state.pods[names[k - 1]] == s.pods[names[k - 1]]
             && w.moved == MovedBefore(s, source, names, calls, k - 1)
    ensures var w := SweepTo(v6, s, source, target, names, calls, k - 1);
            var w' := SweepTo(v6, s, source, target, names, calls, k);
            var name := names[k - 1];
            && !w'.failed && w'.moved == MovedBefore(s, source, names, calls, k)
            && (forall p | p in s.pods && p != name :: w'.state.pods[p] == w.state.pods[p])
            && if Succeeds(s.pods[name], source, calls[k - 1])
               then Switched(s.pods[name], w'.state.pods[name], source, target)
               else w'.state.pods[name] == s.pods[name]
  {
    hide SweepTo, Move, Judge, TakesPart, Succeeds, Switched;
    SweepNext(v6, s, source, target, names, calls, k - 1);
    OneMore(v6, SweepTo(v6, s, source, target, names, calls, k - 1).state, source, target, names[k - 1], calls[k - 1]);
  }

  lemma SwitchedNext(s: State, mid: State, s': State, source: string, target: string, names: seq<string>,
                     calls: seq<Calls>, k: nat, p: string)
    requires 0 < k <= |names| <= |calls| && p in s.pods && mid.pods.Keys == s.pods.Keys == s'.pods.Keys
    requires SwitchedBefore(s, mid, source, target, names, calls, k - 1, p)
    requires p != names[k - 1] ==> s'.pods[p] == mid.pods[p]
    requires p == names[k - 1] ==>
               && (forall j | 0 <= j < k - 1 :: names[j] != p)
               && if Succeeds(s.pods[p], source, calls[k - 1]) then Switched(s.pods[p], s'.pods[p], source, target)
                  else s'.pods[p] == s.pods[p]
    ensures SwitchedBefore(s, s', source, target, names, calls, k, p)
  {
    hide Succeeds, Switched;
  }

  /** One pod that does not stop the request. */
  lemma OneMore(v6: V6, s: State, source: string, target: string, name: string, calls: Calls)
    requires Movable(s, source, target) && name in s.pods
    ensures var pod, s' := s.pods[name], Move(v6, s, source, target, name, calls);
            && (pod.deleting ==> !TakesPart(pod, source) && !Succeeds(pod, source, calls))
            && (!pod.deleting ==>
                  && Judge(pod, source, calls) == (if !TakesPart(pod, source) then Skipped
                                                   else if Succeeds(pod, source, calls) then Moved else Failed)
                  && (forall p | p in s.pods && p != name :: s'.pods[p] == s.pods[p])
                  && (!TakesPart(pod, source) ==> s' == s && !Succeeds(pod, source, calls))
                  && (Succeeds(pod, source, calls) ==> Switched(pod, s'.pods[name], source, target)))
  {
    var pod := s.pods[name];
    if !pod.deleting {
      JudgedExactly(pod, source, calls);
      if TakesPart(pod, source) {
        IndexIsFirst(pod.l2sm.value, source);
        MoveExactly(v6, s, source, target, name, calls, NetworkIndex(pod.l2sm.value, source));
      } else {
        MoveSkips(v6, s, source, target, name, calls);
      }
    }
    hide Move, Judge, NetworkIndex, Released, Received, PortNumber, Switched;
  }

  /**
    The answers that refuse a request, each exactly under its own condition. None of them touches anything: in
    particular, nothing is moved when the target network is not at the SDN controller.
   */
  lemma RefusedExactly(v6: V6, s: State, matching: seq<string>, target: string, targetInSdn: bool, names: seq<string>,
                       calls: seq<Calls>)
    requires |names| <= |calls| && (forall x | x in names :: x in s.pods) && forall x | x in matching :: x in s.networks
    ensures var (answer, s') := Reconciliation(v6, s, matching, target, targetInSdn, names, calls);
            && (answer.Panics? <==> |matching| != 1)
            && (answer.TargetNotFound? <==> |matching| == 1 && target !in s.networks)
            && (answer.SameNetwork? <==> |matching| == 1 && target in s.networks && matching[0] == target)
            && (answer.TargetUnavailable? <==>
                  |matching| == 1 && target in s.networks && matching[0] != target && !targetInSdn)
            && (answer.MoveFailed? || answer.PodsMoved? || s' == s)
  {
    hide SweepTo;
  }

  /** The request meets none of the refusals. */
  ghost predicate Accepted(s: State, matching: seq<string>, target: string, targetInSdn: bool) {
    |matching| == 1 && matching[0] in s.networks && target in s.networks && matching[0] != target && targetInSdn
  }

  lemma AcceptedIs(v6: V6, s: State, matching: seq<string>, target: string, targetInSdn: bool, names: seq<string>,
                   calls: seq<Calls>)
    requires Accepted(s, matching, target, targetInSdn) && |names| <= |calls| && forall x | x in names :: x in s.pods
    ensures Movable(s, matching[0], target) && forall x | x in matching :: x in s.networks
    ensures var w := SweepTo(v6, s, matching[0], target, names, calls, |names|);
            Reconciliation(v6, s, matching, target, targetInSdn, names, calls)
            == (if w.failed then MoveFailed(w.moved) else PodsMoved(w.moved), w.state)
  {
    hide SweepTo;
    assert forall x | x in matching :: x == matching[0];
  }

  /**
    An accepted request that no pod stops is answered with the number of pods moved, which are those that take part;
    the first entry for the source of each of them names the target, and no other pod has changed.
   */
  lemma MovedExactly(v6: V6, s: State, matching: seq<string>, target: string, targetInSdn: bool, names: seq<string>,
                     calls: seq<Calls>)
    requires Accepted(s, matching, target, targetInSdn) && |names| <= |calls| && Distinct(names)
    requires (forall x | x in names :: x in s.pods) && forall x | x in matching :: x in s.networks
    requires forall j: nat | j < |names| :: !Stops(s, matching[0], names, calls, j)
    ensures var (answer, s') := Reconciliation(v6, s, matching, target, targetInSdn, names, calls);
            && answer == PodsMoved(MovedBefore(s, matching[0], names, calls, |names|))
            && s'.pods.Keys == s.pods.Keys
            && forall p | p in s.pods :: SwitchedBefore(s, s', matching[0], target, names, calls, |names|, p)
  {
    AcceptedIs(v6, s, matching, target, targetInSdn, names, calls);
    hide SweepTo, Stops, SwitchedBefore, Reconciliation, MovedBefore;
    SweepGoesOn(v6, s, matching[0], target, names, calls, |names|);
  }

  /** The pod that stopped a request: it is switched only if merely a status write failed. */
  ghost predicate Stopped(pod: Pod, pod': Pod, source: string, target: string, calls: Calls) {
    if BothLists(pod) && |pod.l2sm.value| == |pod.multus.value| && (calls.SourceWriteFails? || calls.TargetWriteFails?)
       && forall i: nat | FirstAt(pod.l2sm.value, source, i) :: PortNumber(pod.multus.value[i].name).Ok?
    then Switched(pod, pod', source, target)
    else pod' == pod
  }

  /**
    An accepted request that the pod at k stops is answered with the number of pods moved before it. These are
    switched, that pod is as its own move leaves it, and the pods after it are untouched.
   */
  lemma FailedExactly(v6: V6, s: State, matching: seq<string>, target: string, targetInSdn: bool, names: seq<string>,
                      calls: seq<Calls>, k: nat)
    requires Accepted(s, matching, target, targetInSdn) && k < |names| <= |calls| && Distinct(names)
    requires (forall x | x in names :: x in s.pods) && forall x | x in matching :: x in s.networks
    requires Stops(s, matching[0], names, calls, k) && forall j: nat | j < k :: !Stops(s, matching[0], names, calls, j)
    ensures var (answer, s') := Reconciliation(v6, s, matching, target, targetInSdn, names, calls);
            && answer == MoveFailed(MovedBefore(s, matching[0], names, calls, k))
            && s'.pods.Keys == s.pods.Keys && names[k] in s.pods
            && (forall p | p in s.pods && p != names[k] ::
                  SwitchedBefore(s, s', matching[0], target, names, calls, k, p))
            && Stopped(s.pods[names[k]], s'.pods[names[k]], matching[0], target, calls[k])
  {
    AcceptedIs(v6, s, matching, target, targetInSdn, names, calls);
    hide SweepTo, Stops, SwitchedBefore, Reconciliation, MovedBefore, Stopped;
    SweepStops(v6, s, matching[0], target, names, calls, k);
  }

  lemma SweepStops(v6: V6, s: State, source: string, target: string, names: seq<string>, calls: seq<Calls>, k: nat)
    requires Movable(s, source, target) && k < |names| <= |calls| && Distinct(names)
    requires forall x | x in names :: x in s.pods
    requires Stops(s, source, names, calls, k) && forall j: nat | j < k :: !Stops(s, source, names, calls, j)
    ensures var w := SweepTo(v6, s, source, target, names, calls, |names|);
            && w.failed && w.moved == MovedBefore(s, source, names, calls, k) && names[k] in s.pods
            && (forall p | p in s.pods && p != names[k] ::
                  SwitchedBefore(s, w.state, source, target, names, calls, k, p))
            && Stopped(s.pods[names[k]], w.state.pods[names[k]], source, target, calls[k])
  {
    hide SweepTo, Move, Judge, TakesPart, Succeeds, Switched, MovedBefore, Stopped;
    var name := names[k];
    assert name in names;
    SweepGoesOn(v6, s, source, target, names, calls, k);
    var w := SweepTo(v6, s, source, target, names, calls, k);
    assert w.state.pods[name] == s.pods[name] by {
      assert SwitchedBefore(s, w.state, source, target, names, calls, k, name);
    }
    hide Distinct;
    SweepNext(v6, s, source, target, names, calls, k);
    OneMore(v6, w.state, source, target, name, calls[k]);
    StoppedMove(v6, w.state, source, target, name, calls[k]);
    assert SweepTo(v6, s, source, target, names, calls, k + 1).failed;
    StaysFailed(v6, s, source, target, names, calls, k + 1, |names|);
    forall p | p in s.pods && p != name
      ensures SwitchedBefore(s, SweepTo(v6, s, source, target, names, calls, k + 1).state, source, target, names,
                             calls, k, p)
    {
      assert SwitchedBefore(s, w.state, source, target, names, calls, k, p);
    }
  }

  lemma StoppedMove(v6: V6, s: State, source: string, target: string, name: string, calls: Calls)
    requires Movable(s, source, target) && name in s.pods
    requires TakesPart(s.pods[name], source) && !Succeeds(s.pods[name], source, calls)
    ensures Stopped(s.pods[name], Move(v6, s, source, target, name, calls).pods[name], source, target, calls)
  {
    var pod := s.pods[name];
    IndexIsFirst(pod.l2sm.value, source);
    MoveExactly(v6, s, source, target, name, calls, NetworkIndex(pod.l2sm.value, source));
    hide Move, NetworkIndex, Released, Received, PortNumber, Switched;
  }

  /** When every call succeeds, the pods moved are the live ones with an entry for the source. */
  lemma SmoothAnswer(v6: V6, s: State, matching: seq<string>, target: string, targetInSdn: bool, names: seq<string>,
                     calls: seq<Calls>)
    requires Accepted(s, matching, target, targetInSdn) && Smooth(s, names, calls)
    requires (forall x | x in names :: x in s.pods) && forall x | x in matching :: x in s.networks
    ensures Reconciliation(v6, s, matching, target, targetInSdn, names, calls).0
         == PodsMoved(ToMoveCount(s, names, matching[0]))
  {
    SmoothPods(s, names, calls);
    AcceptedIs(v6, s, matching, target, targetInSdn, names, calls);
    hide SweepTo, Smooth, ToMoveCount, Reconciliation;
    assert names[..|names|] == names;
    SweepPods(v6, s, matching[0], target, names, calls, |names|);
  }
}

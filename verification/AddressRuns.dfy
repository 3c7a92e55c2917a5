/** Runs of the whole system, as one network's addresses see them: a sequence of admissions. */
module AddressRuns {
  import opened Wrappers
  import opened IpTexts
  import opened Admission
  import opened PodAdmission
  import opened Cluster
  import opened Quarantine
  import opened QuarantineLaws
  import opened Runs

  /** The event serves networks: an admission that takes interfaces, whether or not it comes to something. */
  ghost predicate Serves(s: State, e: Event) {
    (e.Admit? || e.Abandoned?) && Grants(s, e.name, e.picked, e.order)
  }

  /**
    The event leaves a network's entry to admissions: the network is not created or removed, and not the source or
    target of a quarantine.
   */
  ghost predicate Leaves(s: State, e: Event, net: string) {
    match e
    case Isolate(matching, target, _, _, _) => |matching| == 1 ==> matching[0] != net && target != net
    case NetworkUp(network, _) => network != net
    case NetworkDown(network) => network != net
    case _ => true
  }

  /** How many of the listed networks it serves. */
  ghost function ServedBy(s: State, e: Event): nat
    requires Serves(s, e)
  {
    if e.Abandoned? then e.served else |s.pods[e.name].l2sm.value|
  }

  /** The request an event makes to a network: the first one of a pod that lists it, if its turn comes. */
  ghost function RequestFor(v6: V6, s: State, e: Event, net: string): Option<Request>
    requires Enabled(v6, s, e)
  {
    if Serves(s, e) && net in Known(s.networks, s.pods[e.name].l2sm.value) then
      var wanted := s.pods[e.name].l2sm.value;
      KnownIsMentioned(s.networks, wanted, net);
      var i := NetworkIndex(wanted, net);
      if i < ServedBy(s, e) then Some(Request(e.name, wanted[i].ips, e.linkLocals[i])) else None
    else None
  }

  /** The requests of the first i events, in order. */
  ghost function Requests(v6: V6, trace: seq<State>, es: seq<Event>, net: string, i: nat): seq<Request>
    requires IsRun(v6, trace, es) && i <= |es|
  {
    if i == 0 then []
    else
      var before := Requests(v6, trace, es, net, i - 1);
      match RequestFor(v6, trace[i - 1], es[i - 1], net)
      case None => before
      case Some(r) => before + [r]
  }

  /** What serving the first n of a pod's networks makes of one of them. */
  lemma ServedEntry(v6: V6, api: map<string, Network>, wanted: seq<Annotation>, pod: string, linkLocals: seq<string>,
                    n: nat, net: string)
    requires n <= |wanted| <= |linkLocals| && net in api
    requires Served(v6, api, wanted, pod, linkLocals, n).Serving?
    ensures var p, i := Served(v6, api, wanted, pod, linkLocals, n), NetworkIndex(wanted, net);
            && net in p.api
            && if net in Known(api, wanted) && i < n then
                 && i >= 0
                 && var t := Assign(v6, api[net], Request(pod, wanted[i].ips, linkLocals[i]));
                    t.Granted? && t.network == p.api[net]
               else p.api[net] == api[net]
  {
    hide Served, Known, Assign;
    ServedShape(v6, api, wanted, pod, linkLocals, n);
    if net in Known(api, wanted) {
      KnownIsMentioned(api, wanted, net);
      var i := NetworkIndex(wanted, net);
      if i < n {
        OnceEach(v6, api, wanted, pod, linkLocals, n, i);
      }
    }
  }

  lemma AdmitEntry(v6: V6, s: State, e: Event, net: string)
    requires Enabled(v6, s, e) && Leaves(s, e, net) && net in s.networks && (e.Admit? || e.Abandoned?)
    ensures var s', r := Apply(v6, s, e), RequestFor(v6, s, e, net);
            && net in s'.networks
            && match r
               case None => s'.networks[net] == s.networks[net]
               case Some(r) =>
                 var t := Assign(v6, s.networks[net], r);
                 t.Granted? && t.network == s'.networks[net]
  {
    hide FreeNads, Relabel, Taken, Multus, Assign, Served, Known, NetworkIndex;
    if Serves(s, e) {
      var wanted := s.pods[e.name].l2sm.value;
      ServedEntry(v6, s.networks, wanted, e.name, e.linkLocals, ServedBy(s, e), net);
    }
  }

  lemma IsolateEntry(v6: V6, s: State, e: Event, net: string)
    requires Enabled(v6, s, e) && Leaves(s, e, net) && net in s.networks && e.Isolate?
    ensures var s' := Apply(v6, s, e); net in s'.networks && s'.networks[net] == s.networks[net]
  {
    hide SweepTo;
    assert e.matching[0] in e.matching;
    if e.target in s.networks && e.matching[0] != e.target {
      SweepEntry(v6, s, e.matching[0], e.target, e.names, e.calls, |e.names|, net);
    }
  }

  lemma {:induction false} SweepEntry(v6: V6, s: State, source: string, target: string, names: seq<string>,
                                      calls: seq<Calls>, n: nat, net: string)
    requires Movable(s, source, target) && n <= |names| <= |calls| && net in s.networks && net != source
             && net != target
    requires forall x | x in names :: x in s.pods
    ensures SweepTo(v6, s, source, target, names, calls, n).state.networks[net] == s.networks[net]
  {
    hide SweepTo, Move;
    if n == 0 {
      SweepNone(v6, s, source, target, names, calls);
    } else {
      SweepEntry(v6, s, source, target, names, calls, n - 1, net);
      SweepStepState(v6, s, source, target, names, calls, n);
      MoveEntry(v6, SweepTo(v6, s, source, target, names, calls, n - 1).state, source, target, names[n - 1],
                calls[n - 1], net);
    }
  }

  lemma MoveEntry(v6: V6, s: State, source: string, target: string, name: string, calls: Calls, net: string)
    requires Movable(s, source, target) && name in s.pods && net in s.networks && net != source && net != target
    ensures Move(v6, s, source, target, name, calls).networks[net] == s.networks[net]
  {
    hide UpdateStatuses, NetworkIndex, Renamed;
  }

  lemma StepEntry(v6: V6, s: State, e: Event, net: string)
    requires Enabled(v6, s, e) && Leaves(s, e, net) && net in s.networks
    ensures var s', r := Apply(v6, s, e), RequestFor(v6, s, e, net);
            && net in s'.networks
            && match r
               case None => s'.networks[net] == s.networks[net]
               case Some(r) =>
                 var t := Assign(v6, s.networks[net], r);
                 t.Granted? && t.network == s'.networks[net]
  {
    if e.Admit? || e.Abandoned? {
      hide *;
      AdmitEntry(v6, s, e, net);
    } else if e.Isolate? {
      IsolateEntry(v6, s, e, net);
      hide Apply, Enabled;
    } else {
      hide FreeNads, Relabel, PairsBelow, NamesBelow, Reach, Tried, Finished, Completes, Pod.Pairs, Pod.Holds;
    }
  }

  /**
    In every run that does not create, remove or quarantine a network, its entry at any step is what serving the
    requests made so far, one after another, makes of its first entry.
   */
  lemma {:induction false} EntryIsAfter(v6: V6, trace: seq<State>, es: seq<Event>, net: string, i: nat)
    requires IsRun(v6, trace, es) && i <= |es| && net in trace[0].networks
    requires forall j | 0 <= j < |es| :: Leaves(trace[j], es[j], net)
    ensures net in trace[i].networks
    ensures After(v6, trace[0].networks[net], Requests(v6, trace, es, net, i)) == Some(trace[i].networks[net])
  {
    hide Enabled, Apply, Leaves, RequestFor, Assign;
    if i > 0 {
      EntryIsAfter(v6, trace, es, net, i - 1);
      StepEntry(v6, trace[i - 1], es[i - 1], net);
      var before, now := Requests(v6, trace, es, net, i - 1), Requests(v6, trace, es, net, i);
      var r := RequestFor(v6, trace[i - 1], es[i - 1], net);
      if r.Some? {
        assert now[..|now| - 1] == before && now[|now| - 1] == r.value;
      }
    }
  }

  /** So no automatic address of such a run is one the network had recorded before. */
  lemma RunAddressesAreNew(v6: V6, trace: seq<State>, es: seq<Event>, net: string, j: nat)
    requires IsRun(v6, trace, es) && net in trace[0].networks
    requires forall j | 0 <= j < |es| :: Leaves(trace[j], es[j], net)
    requires j < |Requests(v6, trace, es, net, |es|)|
    ensures var n, rs := trace[0].networks[net], Requests(v6, trace, es, net, |es|);
            match AutoAddress(v6, n, rs, j)
            case None => true
            case Some(a) =>
              IpText(v6, a) !in n.Assigned() && forall i | 0 <= i < j :: RecordedBy(v6, n, rs, i) != Some(IpText(v6, a))
  {
    hide Enabled, Apply, Leaves, RequestFor, Requests, After, AutoAddress, RecordedBy, IpText;
    EntryIsAfter(v6, trace, es, net, |es|);
    var n, rs := trace[0].networks[net], Requests(v6, trace, es, net, |es|);
    if AutoAddress(v6, n, rs, j).Some? {
      AutomaticIsNew(v6, n, rs, j);
    }
  }
}

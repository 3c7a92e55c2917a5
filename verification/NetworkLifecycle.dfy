/**
  The finalizer life cycle of L2Networks (internal/controller/l2network_controller.go, lines 67-118): the network
  is created at the SDN controller before its object gets the finalizer, and deleted there before it loses it. Any
  call to the SDN controller or to the API server may fail at any time.
*/
module NetworkLifecycle {
  import opened Finalizers

  /** `carried` is history: the finalizer was stored on this object at some time. */
  datatype Object = Object(finalizers: seq<string>, deleting: bool, carried: bool)

  /** `live` holds the networks that this reconciler created at the SDN controller and has not deleted since. */
  datatype State = State(objects: map<string, Object>, live: set<string>)

  /** Whether CreateNetwork, DeleteNetwork and the update of the object succeed in one run. */
  datatype Answers = Answers(created: bool, deleted: bool, updated: bool)

  /** The API server drops a deleting object with its last finalizer. */
  function Stored(s: State, name: string, o: Object): State {
    if o.deleting && o.finalizers == [] then s.(objects := s.objects - {name}) else s.(objects := s.objects[name := o])
  }

  /** One run of L2NetworkReconciler.Reconcile. */
  function Reconciled(s: State, name: string, a: Answers): State {
    if name !in s.objects then s
    else
      var o := s.objects[name];
      if o.deleting then
        if L2SM !in o.finalizers || !a.deleted then s
        else
          var s1 := s.(live := s.live - {name});
          if a.updated then Stored(s1, name, o.(finalizers := Without(o.finalizers, L2SM))) else s1
      else if L2SM in o.finalizers || !a.created then s
      else
        var s1 := s.(live := s.live + {name});
        if a.updated then Stored(s1, name, o.(finalizers := o.finalizers + [L2SM], carried := true)) else s1
  }

  /** The reconciler has something to do: create the network of a live object, or delete that of a deleting one. */
  predicate MustCall(o: Object) {
    o.deleting <==> L2SM in o.finalizers
  }

  /**
    A deletion has ended: the network is no longer live, and the object is left exactly if another finalizer holds it;
    it then carries exactly the others, in order, and is otherwise as it was.
   */
  ghost predicate Ended(s: State, s': State, name: string)
    requires name in s.objects
  {
    var o := s.objects[name];
    && name !in s'.live
    && (name in s'.objects <==> exists f | f in o.finalizers :: f != L2SM)
    && (name in s'.objects ==> s'.objects[name] == o.(finalizers := Without(o.finalizers, L2SM)))
  }

  /** No object and no network but the named one has changed. */
  ghost predicate OnlyOne(s: State, s': State, name: string) {
    forall n | n != name ::
      (n in s'.objects <==> n in s.objects) && (n in s.objects ==> s'.objects[n] == s.objects[n])
      && (n in s'.live <==> n in s.live)
  }

  /**
    One run, for every pattern of answers. A deleting carrier's network goes if it is deleted, and its finalizer if
    that is stored as well; a live object without the finalizer gets a network if it is created, and the finalizer
    after its others if that is stored as well. Nothing else ever changes.
   */
  lemma ReconciledExactly(s: State, name: string, a: Answers)
    ensures var s' := Reconciled(s, name, a);
            && OnlyOne(s, s', name)
            && (name !in s.objects || !MustCall(s.objects[name]) ==> s' == s)
            && (name in s.objects && s.objects[name].deleting && L2SM in s.objects[name].finalizers ==>
                  && (name in s'.live <==> name in s.live && !a.deleted)
                  && if a.deleted && a.updated then Ended(s, s', name) else s'.objects == s.objects)
            && (name in s.objects && !s.objects[name].deleting && L2SM !in s.objects[name].finalizers ==>
                  && (name in s'.live <==> name in s.live || a.created)
                  && name in s'.objects
                  && s'.objects[name] == if !a.created || !a.updated then s.objects[name]
                                         else Object(s.objects[name].finalizers + [L2SM], false, true))
  {
    if name in s.objects {
      var rest := Without(s.objects[name].finalizers, L2SM);
      if rest != [] {
        assert rest[0] in rest;
      }
    }
  }

  class Reconciler {
    var objects: map<string, Object>
    var live: set<string>

    ghost function Now(): State
      reads this
    {
      State(objects, live)
    }

    constructor ()
      ensures Now() == State(map[], {})
    {
      objects, live := map[], {};
    }

    method Reconcile(name: string, answers: Answers) returns (ok: bool)
      modifies this
      ensures Now() == Reconciled(old(Now()), name, answers)
      ensures ok ==> name in old(objects) && !old(objects)[name].deleting ==> L2SM in objects[name].finalizers
      ensures ok ==> name in old(objects) && old(objects)[name].deleting && L2SM in old(objects)[name].finalizers ==>
                Ended(old(Now()), Now(), name)
      ensures ok <==> name in old(objects) && MustCall(old(objects)[name]) ==>
                (if old(objects)[name].deleting then answers.deleted else answers.created) && answers.updated
    {
      hide Ended;
      ReconciledExactly(Now(), name, answers);
      if name !in objects {
        return true;
      }
      var network := objects[name];
      if network.deleting {
        if L2SM in network.finalizers {
          if !answers.deleted {
            return false;
          }
          live := live - {name};
          var finalizers := RemoveString(network.finalizers, L2SM);
          ok := Update(name, network.(finalizers := finalizers), answers.updated);
          return ok;
        }
        return true;
      }
      if L2SM !in network.finalizers {
        if !answers.created {
          return false;
        }
        live := live + {name};
        ok := Update(name, network.(finalizers := network.finalizers + [L2SM], carried := true), answers.updated);
        return ok;
      }
      return true;
    }

    /** The API server's side of Update. */
    method Update(name: string, o: Object, succeeds: bool) returns (ok: bool)
      modifies `objects
      ensures ok == succeeds
      ensures Now() == if succeeds then Stored(old(Now()), name, o) else old(Now())
    {
      if succeeds {
        objects := if o.deleting && o.finalizers == [] then objects - {name} else objects[name := o];
      }
      return succeeds;
    }
  }

  // ---------- runs ----------

  datatype Event =
    | Make(name: string, finalizers: seq<string>)
    | Meet(name: string, answers: Answers)
    | Ask(name: string)
    | Others(name: string, finalizers: seq<string>)

  /** Users and other controllers leave this operator's finalizer alone. */
  predicate Enabled(s: State, e: Event) {
    match e
    case Make(name, finalizers) => name !in s.objects && L2SM !in finalizers
    case Meet(_, _) => true
    case Ask(name) => name in s.objects
    case Others(name, finalizers) => name in s.objects && (L2SM in finalizers <==> L2SM in s.objects[name].finalizers)
  }

  function Apply(s: State, e: Event): State
    requires Enabled(s, e)
  {
    match e
    case Make(name, finalizers) => s.(objects := s.objects[name := Object(finalizers, false, false)])
    case Meet(name, answers) => Reconciled(s, name, answers)
    case Ask(name) => Stored(s, name, s.objects[name].(deleting := true))
    case Others(name, finalizers) => Stored(s, name, s.objects[name].(finalizers := finalizers))
  }

  predicate IsRun(trace: seq<State>, es: seq<Event>) {
    && |trace| == |es| + 1
    && trace[0] == State(map[], {})
    && forall i | 0 <= i < |es| :: Enabled(trace[i], es[i]) && trace[i + 1] == Apply(trace[i], es[i])
  }

  /** What one object owes the SDN controller. */
  predicate Sound(s: State, name: string)
    requires name in s.objects
  {
    var o := s.objects[name];
    && (L2SM in o.finalizers ==> o.carried && (!o.deleting ==> name in s.live))
    && (o.carried && L2SM !in o.finalizers ==> o.deleting && name !in s.live)
  }

  lemma StepSound(s: State, e: Event, name: string)
    requires Enabled(s, e) && forall n | n in s.objects :: Sound(s, n)
    ensures name in Apply(s, e).objects ==> Sound(Apply(s, e), name)
  {
    assert name in s.objects ==> Sound(s, name);
  }

  lemma {:induction false} RunSound(trace: seq<State>, es: seq<Event>, i: nat)
    requires IsRun(trace, es) && i <= |es|
    ensures forall name | name in trace[i].objects :: Sound(trace[i], name)
  {
    if i > 0 {
      RunSound(trace, es, i - 1);
      hide Sound, Apply, Enabled;
      forall name | name in trace[i].objects
        ensures Sound(trace[i], name)
      {
        StepSound(trace[i - 1], es[i - 1], name);
      }
    }
  }

  /**
    In every reachable state, whatever calls failed on the way: an object that carries the finalizer and is not
    being deleted has its network live at the SDN controller.
   */
  lemma CarriersAreLive(trace: seq<State>, es: seq<Event>, i: nat, name: string)
    requires IsRun(trace, es) && i <= |es| && name in trace[i].objects
    requires L2SM in trace[i].objects[name].finalizers && !trace[i].objects[name].deleting
    ensures name in trace[i].live
  {
    RunSound(trace, es, i);
    assert Sound(trace[i], name);
  }

  /** The reconciler deletes the network at the SDN controller in this step. */
  predicate Deletes(s: State, e: Event, name: string) {
    && e.Meet? && e.name == name && e.answers.deleted
    && name in s.objects && s.objects[name].deleting && L2SM in s.objects[name].finalizers
  }

  lemma StepCarries(s: State, e: Event, name: string)
    requires Enabled(s, e) && name in s.objects && L2SM in s.objects[name].finalizers && !Deletes(s, e, name)
    ensures name in Apply(s, e).objects && L2SM in Apply(s, e).objects[name].finalizers
  {
  }

  /** An object that carried the finalizer at step i and is gone at step j: its network was deleted in between. */
  lemma {:induction false} LeavesAfterDeletion(trace: seq<State>, es: seq<Event>, i: nat, j: nat, name: string)
    requires IsRun(trace, es) && i <= j <= |es|
    requires name in trace[i].objects && L2SM in trace[i].objects[name].finalizers
    requires name !in trace[j].objects
    ensures exists k | i <= k < j :: Deletes(trace[k], es[k], name)
    decreases j - i
  {
    hide Apply, Enabled;
    if !Deletes(trace[i], es[i], name) {
      StepCarries(trace[i], es[i], name);
      LeavesAfterDeletion(trace, es, i + 1, j, name);
    }
  }

  /** In a run, meeting a deleting carrier ends its deletion when the network is deleted and the update stored. */
  lemma MeetingEnds(trace: seq<State>, es: seq<Event>, i: nat, name: string, created: bool)
    requires IsRun(trace, es) && i < |es| && es[i] == Meet(name, Answers(created, true, true))
    requires name in trace[i].objects && trace[i].objects[name].deleting && L2SM in trace[i].objects[name].finalizers
    ensures Ended(trace[i], trace[i + 1], name) && OnlyOne(trace[i], trace[i + 1], name)
  {
    ReconciledExactly(trace[i], name, Answers(created, true, true));
    hide Reconciled, Ended, OnlyOne;
  }

  /** The reconciler creates the network of an object it has not met yet, in this step. */
  predicate Creates(s: State, e: Event, name: string) {
    && e.Meet? && e.name == name && e.answers.created
    && name in s.objects && !s.objects[name].deleting && L2SM !in s.objects[name].finalizers
  }

  /** The creation is followed by an update that stores the finalizer. */
  predicate Adopts(s: State, e: Event, name: string) {
    Creates(s, e, name) && e.answers.updated
  }

  lemma StepLife(s: State, e: Event, name: string)
    requires Enabled(s, e) && name in s.objects && name in Apply(s, e).objects && Sound(s, name)
    ensures var o, o' := s.objects[name], Apply(s, e).objects[name];
            && (o'.carried <==> o.carried || Adopts(s, e, name))
            && (!o'.carried ==> (name in Apply(s, e).live <==> name in s.live || Creates(s, e, name)))
  {
  }

  /** An object made in step m, as seen at step j: whether it carried the finalizer, and whether its network is live. */
  lemma {:induction false} Life(trace: seq<State>, es: seq<Event>, m: nat, j: nat, name: string)
    requires IsRun(trace, es) && m < j <= |es| && es[m].Make? && es[m].name == name
    requires forall k | m < k <= j :: name in trace[k].objects
    ensures trace[j].objects[name].carried <==> exists k | m < k < j :: Adopts(trace[k], es[k], name)
    ensures !trace[j].objects[name].carried ==>
              (name in trace[j].live <==>
                 name in trace[m].live || exists k | m < k < j :: Creates(trace[k], es[k], name))
    decreases j
  {
    hide Apply, Enabled, Sound, Adopts, Creates;
    assert Enabled(trace[j - 1], es[j - 1]) && trace[j - 1 + 1] == Apply(trace[j - 1], es[j - 1]);
    if j == m + 1 {
      StepMakes(trace[m], es[m]);
    } else {
      Life(trace, es, m, j - 1, name);
      RunSound(trace, es, j - 1);
      StepLife(trace[j - 1], es[j - 1], name);
    }
  }

  lemma StepMakes(s: State, e: Event)
    requires Enabled(s, e) && e.Make?
    ensures var s' := Apply(s, e); e.name in s'.objects && !s'.objects[e.name].carried && s'.live == s.live
  {
  }

  /**
    An object made in step m and removed in step i, by whatever event, leaves a live network behind exactly if none
    of its creation attempts stored the finalizer, and one of them succeeded at the SDN controller, or an earlier
    object of the name had already left the network behind.
   */
  lemma LeaksExactly(trace: seq<State>, es: seq<Event>, m: nat, i: nat, name: string)
    requires IsRun(trace, es) && m < i < |es| && es[m].Make? && es[m].name == name
    requires (forall k | m < k <= i :: name in trace[k].objects) && name !in trace[i + 1].objects
    ensures name in trace[i + 1].live <==>
            && (forall k | m < k < i :: !Adopts(trace[k], es[k], name))
            && (name in trace[m].live || exists k | m < k < i :: Creates(trace[k], es[k], name))
  {
    Life(trace, es, m, i, name);
    RunSound(trace, es, i);
    assert Sound(trace[i], name);
    assert Enabled(trace[i], es[i]);
    hide Adopts, Creates;
    StepRemoves(trace[i], es[i], name);
  }

  lemma StepRemoves(s: State, e: Event, name: string)
    requires Enabled(s, e) && name in s.objects && name !in Apply(s, e).objects && Sound(s, name)
    ensures name in Apply(s, e).live <==> name in s.live && !s.objects[name].carried
  {
  }

  /** A lost update right after the creation is enough for such a leak. */
  lemma LostUpdateLeaks(name: string)
    ensures var es := [Make(name, []), Meet(name, Answers(true, true, false)), Ask(name)];
            exists trace: seq<State> :: IsRun(trace, es) && name !in trace[3].objects && name in trace[3].live
  {
    var o := Object([], false, false);
    var s0 := State(map[], {});
    var s1, s2, s3 := State(map[name := o], {}), State(map[name := o], {name}), State(map[], {name});
    var trace := [s0, s1, s2, s3];
    var es := [Make(name, []), Meet(name, Answers(true, true, false)), Ask(name)];
    assert s2.objects - {name} == map[];
    assert IsRun(trace, es);
  }

  /** Only other controllers change the other finalizers: the operator's own steps keep them, in order. */
  lemma OthersKeepOrder(s: State, e: Event, name: string)
    requires Enabled(s, e) && name in s.objects && name in Apply(s, e).objects && !(e.Others? && e.name == name)
    ensures Without(Apply(s, e).objects[name].finalizers, L2SM) == Without(s.objects[name].finalizers, L2SM)
  {
    var fs := s.objects[name].finalizers;
    WithoutOrder(fs, [L2SM], L2SM);
    assert Without([L2SM], L2SM) == [];
    assert Without(fs, L2SM) + [] == Without(fs, L2SM);
  }

  /** As long as no other controller steps in, the rest of an object's finalizers stays as it was, in order. */
  lemma {:induction false} OthersStay(trace: seq<State>, es: seq<Event>, i: nat, j: nat, name: string)
    requires IsRun(trace, es) && i <= j <= |es|
    requires forall k | i <= k <= j :: name in trace[k].objects
    requires forall k | i <= k < j :: !(es[k].Others? && es[k].name == name)
    ensures Without(trace[j].objects[name].finalizers, L2SM) == Without(trace[i].objects[name].finalizers, L2SM)
  {
    hide Apply, Enabled;
    if i < j {
      OthersStay(trace, es, i, j - 1, name);
      assert trace[j - 1 + 1] == Apply(trace[j - 1], es[j - 1]);
      OthersKeepOrder(trace[j - 1], es[j - 1], name);
    }
  }
}

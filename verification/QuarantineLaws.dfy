/** Quarantine keeps the port invariant, converges, and keeps the network statuses' accounts. */
module QuarantineLaws {
  import opened NadNames
  import opened IpTexts
  import opened Admission
  import opened Cluster
  import opened PortInvariant
  import opened Quarantine

  // ---------- ports ----------

  lemma MoveKeeps(v6: V6, s: State, source: string, target: string, name: string, calls: Calls)
    requires Inv(s) && Movable(s, source, target) && name in s.pods
    ensures Inv(Move(v6, s, source, target, name, calls))
  {
    hide Ports, Pool, UpdateStatuses, NetworkIndex;
    var s' := Move(v6, s, source, target, name, calls);
    assert PortsAlike(s, s');
    PortsAlikeKeeps(s, s');
  }

  lemma {:induction false} SweepKeeps(v6: V6, s: State, source: string, target: string, names: seq<string>,
                                      calls: seq<Calls>, n: nat)
    requires Inv(s) && Movable(s, source, target) && n <= |names| <= |calls|
    requires forall x | x in names :: x in s.pods
    ensures Inv(SweepTo(v6, s, source, target, names, calls, n).state)
  {
    hide Inv, Move, Judge;
    if n > 0 {
      SweepKeeps(v6, s, source, target, names, calls, n - 1);
      var w := SweepTo(v6, s, source, target, names, calls, n - 1);
      assert names[n - 1] in names;
      MoveKeeps(v6, w.state, source, target, names[n - 1], calls[n - 1]);
    }
  }

  // ---------- what a smooth pass does to the pods ----------

  /** A live pod with both lists has them equally long, and reads a port number from every interface. */
  predicate WellFormed(pod: Pod) {
    !pod.deleting && BothLists(pod) ==>
      SameLength(pod) && forall i | 0 <= i < |pod.multus.value| :: PortNumber(pod.multus.value[i].name).Ok?
  }

  /** In every state of a run, all pods are well formed. */
  lemma InvWellFormed(s: State, name: string)
    requires Inv(s) && name in s.pods
    ensures WellFormed(s.pods[name])
  {
    var pod := s.pods[name];
    if !pod.deleting && BothLists(pod) {
      forall i | 0 <= i < |pod.multus.value|
        ensures PortNumber(pod.multus.value[i].name).Ok?
      {
        assert Has(s, Slot(name, i), pod.HoldAt(i));
      }
    }
  }

  predicate Distinct(names: seq<string>) {
    forall i, j | 0 <= i < j < |names| :: names[i] != names[j]
  }

  /** The selected pods exist, once each, and every call about them succeeds. */
  predicate Smooth(s: State, names: seq<string>, calls: seq<Calls>) {
    && |names| <= |calls| && Distinct(names)
    && (forall x | x in names :: x in s.pods && WellFormed(s.pods[x]))
    && (forall i | 0 <= i < |names| :: calls[i].Succeed?)
  }

  predicate ToMove(pod: Pod, source: string) {
    !pod.deleting && Concerned(pod, source)
  }

  /** A pod after one pass: its first entry for the source renamed, if it has one. */
  function Passed(pod: Pod, source: string, target: string): Pod {
    if ToMove(pod, source) then Renamed(pod, NetworkIndex(pod.l2sm.value, source), target) else pod
  }

  function ToMoveCount(s: State, names: seq<string>, source: string): nat
    requires forall x | x in names :: x in s.pods
  {
    if names == [] then 0
    else
      var name := names[|names| - 1];
      assert name in names;
      ToMoveCount(s, names[..|names| - 1], source) + (if ToMove(s.pods[name], source) then 1 else 0)
  }

  /** One more pod of a pass; one that has failed stays as it is. */
  lemma SweepNext(v6: V6, s: State, source: string, target: string, names: seq<string>, calls: seq<Calls>, i: nat)
    requires Movable(s, source, target) && i < |names| <= |calls|
    requires forall x | x in names :: x in s.pods
    ensures var w := SweepTo(v6, s, source, target, names, calls, i);
            && names[i] in w.state.pods
            && (w.failed ==> SweepTo(v6, s, source, target, names, calls, i + 1) == w)
            && (!w.failed ==>
                  var pod := w.state.pods[names[i]];
                  var verdict := Judge(pod, source, calls[i]);
                  SweepTo(v6, s, source, target, names, calls, i + 1) ==
                  if pod.deleting then w
                  else Sweep(Move(v6, w.state, source, target, names[i], calls[i]),
                             if verdict.Moved? then w.moved + 1 else w.moved, verdict.Failed?))
  {
    hide Move, Judge;
    assert names[i] in names;
  }

  /** After its first failure a pass changes nothing more. */
  lemma {:induction false} StaysFailed(v6: V6, s: State, source: string, target: string, names: seq<string>,
                                       calls: seq<Calls>, i: nat, n: nat)
    requires Movable(s, source, target) && i <= n <= |names| <= |calls|
    requires forall x | x in names :: x in s.pods
    requires SweepTo(v6, s, source, target, names, calls, i).failed
    ensures SweepTo(v6, s, source, target, names, calls, n) == SweepTo(v6, s, source, target, names, calls, i)
  {
    hide Move, Judge, SweepTo;
    if i < n {
      StaysFailed(v6, s, source, target, names, calls, i, n - 1);
      SweepNext(v6, s, source, target, names, calls, n - 1);
    }
  }

  lemma {:induction false} SweepPods(v6: V6, s: State, source: string, target: string, names: seq<string>,
                                     calls: seq<Calls>, n: nat)
    requires Movable(s, source, target) && Smooth(s, names, calls) && n <= |names|
    ensures var w := SweepTo(v6, s, source, target, names, calls, n);
            && !w.failed
            && w.moved == ToMoveCount(s, names[..n], source)
            && (forall p | p in s.pods ::
                  w.state.pods[p] == if p in names[..n] then Passed(s.pods[p], source, target) else s.pods[p])
  {
    hide Move, SweepTo, Judge, Passed, ToMoveCount, ToMove, WellFormed;
    SmoothPods(s, names, calls);
    if n == 0 {
      CountNone(s, names[..0], source);
      SweepNone(v6, s, source, target, names, calls);
    } else {
      SweepPods(v6, s, source, target, names, calls, n - 1);
      var w, name := SweepTo(v6, s, source, target, names, calls, n - 1), names[n - 1];
      assert names[..n][..n - 1] == names[..n - 1];
      assert name !in names[..n - 1] && name in names;
      assert forall p :: p in names[..n] <==> p in names[..n - 1] || p == name;
      CountStep(s, names[..n], source);
      SweepNext(v6, s, source, target, names, calls, n - 1);
      SmoothMove(v6, w.state, source, target, name);
    }
  }

  /** What a live or a deleted pod has in store when every call about it succeeds. */
  lemma SmoothMove(v6: V6, s: State, source: string, target: string, name: string)
    requires Movable(s, source, target) && name in s.pods && WellFormed(s.pods[name])
    ensures var pod := s.pods[name];
            && (!pod.deleting ==>
                  && Move(v6, s, source, target, name, Succeed).pods == s.pods[name := Passed(pod, source, target)]
                  && Judge(pod, source, Succeed) == if ToMove(pod, source) then Moved else Skipped)
            && (pod.deleting ==> !ToMove(pod, source) && Passed(pod, source, target) == pod)
  {
    hide UpdateStatuses, NetworkIndex, Renamed, PortNumber;
    assert s.pods[name := s.pods[name]] == s.pods;
  }

  lemma CountNone(s: State, names: seq<string>, source: string)
    requires names == []
    ensures ToMoveCount(s, names, source) == 0
  {
  }

  lemma CountStep(s: State, names: seq<string>, source: string)
    requires names != [] && forall x | x in names :: x in s.pods
    ensures ToMoveCount(s, names, source)
         == ToMoveCount(s, names[..|names| - 1], source) + (if ToMove(s.pods[names[|names| - 1]], source) then 1 else 0)
  {
  }

  // ---------- convergence ----------

  function EntriesFor(l: seq<Annotation>, name: string): nat {
    if l == [] then 0 else EntriesFor(l[1..], name) + (if l[0].name == name then 1 else 0)
  }

  /** How many entries of a live pod still name the source. */
  function Remaining(pod: Pod, source: string): nat {
    if !pod.deleting && BothLists(pod) then EntriesFor(pod.l2sm.value, source) else 0
  }

  function Total(s: State, names: seq<string>, source: string): nat
    requires forall x | x in names :: x in s.pods
  {
    if names == [] then 0
    else
      var name := names[|names| - 1];
      assert name in names;
      Total(s, names[..|names| - 1], source) + Remaining(s.pods[name], source)
  }

  lemma {:induction false} EntriesRenamed(l: seq<Annotation>, i: nat, source: string, target: string)
    requires i < |l| && l[i].name == source && source != target
    ensures EntriesFor(l[i := l[i].(name := target)], source) == EntriesFor(l, source) - 1
  {
    var l' := l[i := l[i].(name := target)];
    if i == 0 {
      assert l'[1..] == l[1..];
    } else {
      EntriesRenamed(l[1..], i - 1, source, target);
      assert l'[1..] == l[1..][i - 1 := l[1..][i - 1].(name := target)];
    }
  }

  lemma {:induction false} NoEntries(l: seq<Annotation>, source: string)
    ensures EntriesFor(l, source) == 0 <==> NetworkIndex(l, source) == -1
  {
    if l != [] {
      NoEntries(l[1..], source);
    }
  }

  /** One pass takes exactly one source entry from each pod that has any. */
  lemma PassedRemaining(pod: Pod, source: string, target: string)
    requires source != target
    ensures ToMove(pod, source) <==> Remaining(pod, source) > 0
    ensures Remaining(Passed(pod, source, target), source)
         == if ToMove(pod, source) then Remaining(pod, source) - 1 else Remaining(pod, source)
  {
    if !pod.deleting && BothLists(pod) {
      NoEntries(pod.l2sm.value, source);
      if ToMove(pod, source) {
        EntriesRenamed(pod.l2sm.value, NetworkIndex(pod.l2sm.value, source), source, target);
      }
    }
  }

  lemma {:induction false} TotalAfter(s: State, s': State, names: seq<string>, source: string, target: string)
    requires source != target
    requires forall x | x in names :: x in s.pods && x in s'.pods && s'.pods[x] == Passed(s.pods[x], source, target)
    ensures Total(s', names, source) == Total(s, names, source) - ToMoveCount(s, names, source)
    ensures ToMoveCount(s, names, source) > 0 <==> Total(s, names, source) > 0
  {
    if names != [] {
      TotalAfter(s, s', names[..|names| - 1], source, target);
      assert names[|names| - 1] in names;
      hide Passed, ToMove, Remaining;
      PassedRemaining(s.pods[names[|names| - 1]], source, target);
    }
  }

  /**
    Convergence. A pass lowers the number of source entries on the selected live pods by the number of pods it
    moved, which is positive as long as entries remain; pods that are not selected, deleted, or not on the source
    are left as they were, and a pod with a single source entry has none afterwards.
   */
  lemma PassConverges(v6: V6, s: State, source: string, target: string, names: seq<string>, calls: seq<Calls>)
    requires Movable(s, source, target) && Smooth(s, names, calls)
    ensures var w := SweepTo(v6, s, source, target, names, calls, |names|);
            && !w.failed
            && Total(w.state, names, source) == Total(s, names, source) - w.moved
            && (w.moved > 0 <==> Total(s, names, source) > 0)
            && (forall p | p in s.pods && (p !in names || Remaining(s.pods[p], source) == 0) ::
                  w.state.pods[p] == s.pods[p])
            && (forall p | p in names && Remaining(s.pods[p], source) == 1 :: Remaining(w.state.pods[p], source) == 0)
            && Smooth(w.state, names, calls)
  {
    var w := SweepTo(v6, s, source, target, names, calls, |names|);
    SweepPods(v6, s, source, target, names, calls, |names|);
    assert names[..|names|] == names;
    hide SweepTo, Remaining, Total, ToMoveCount;
    forall p | p in s.pods
      ensures Remaining(s.pods[p], source) == 0 ==> Passed(s.pods[p], source, target) == s.pods[p]
      ensures Remaining(s.pods[p], source) == 1 ==> Remaining(Passed(s.pods[p], source, target), source) == 0
    {
      PassedRemaining(s.pods[p], source, target);
    }
    TotalAfter(s, w.state, names, source, target);
  }

  /** A pass that finds nothing to move changes nothing at all. */
  lemma {:induction false} IdlePass(v6: V6, s: State, source: string, target: string, names: seq<string>,
                                    calls: seq<Calls>, n: nat)
    requires Movable(s, source, target) && n <= |names| <= |calls|
    requires forall x | x in names :: x in s.pods && Remaining(s.pods[x], source) == 0
    ensures SweepTo(v6, s, source, target, names, calls, n) == Sweep(s, 0, false)
  {
    hide NetworkIndex, EntriesFor, Move, Readable;
    if n > 0 {
      IdlePass(v6, s, source, target, names, calls, n - 1);
      assert names[n - 1] in names;
      var pod := s.pods[names[n - 1]];
      if !pod.deleting {
        if BothLists(pod) {
          NoEntries(pod.l2sm.value, source);
        }
        SkippedMove(v6, s, source, target, names[n - 1], calls[n - 1]);
      }
    }
  }

  /** The pods one reconciliation lists, in the API's order, and how the calls about them end. */
  datatype Listing = Listing(names: seq<string>, calls: seq<Calls>)

  /** A listing of the selected pods, each once, all of whose calls succeed. */
  ghost predicate Covers(l: Listing, names: seq<string>) {
    && Distinct(l.names) && |l.names| <= |l.calls|
    && (forall x :: x in l.names <==> x in names)
    && (forall i | 0 <= i < |l.names| :: l.calls[i].Succeed?)
  }

  predicate Ready(s: State, names: seq<string>) {
    Distinct(names) && forall x | x in names :: x in s.pods && WellFormed(s.pods[x])
  }

  predicate Listable(s: State, l: Listing) {
    |l.names| <= |l.calls| && forall x | x in l.names :: x in s.pods
  }

  /** The cluster after the first k passes. */
  ghost function Passes(v6: V6, s: State, source: string, target: string, ls: seq<Listing>, k: nat): (s': State)
    requires Movable(s, source, target) && k <= |ls|
    requires forall l | l in ls :: Listable(s, l)
    ensures s'.networks.Keys == s.networks.Keys && s'.pods.Keys == s.pods.Keys
  {
    if k == 0 then s
    else
      assert ls[k - 1] in ls;
      SweepTo(v6, Passes(v6, s, source, target, ls, k - 1), source, target, ls[k - 1].names, ls[k - 1].calls,
              |ls[k - 1].names|).state
  }

  /** As many passes as there are source entries empty the source, whatever order each pass lists the pods in. */
  lemma {:induction false} PassesEmpty(v6: V6, s: State, source: string, target: string, ls: seq<Listing>,
                                       names: seq<string>, k: nat)
    requires Movable(s, source, target) && k <= |ls| && Ready(s, names)
    requires forall l | l in ls :: Covers(l, names) && Listable(s, l)
    ensures var s' := Passes(v6, s, source, target, ls, k);
            && Ready(s', names)
            && Total(s', names, source) <= (if k >= Total(s, names, source) then 0 else Total(s, names, source) - k)
  {
    hide SweepTo, WellFormed, Total;
    if k > 0 {
      PassesEmpty(v6, s, source, target, ls, names, k - 1);
      var before, l := Passes(v6, s, source, target, ls, k - 1), ls[k - 1];
      assert l in ls;
      PassConverges(v6, before, source, target, l.names, l.calls);
      TotalSame(before, l.names, names, source);
      TotalSame(Passes(v6, s, source, target, ls, k), l.names, names, source);
    }
  }

  /** The total does not depend on the order of the listing. */
  lemma {:induction false} TotalSame(s: State, a: seq<string>, b: seq<string>, source: string)
    requires Distinct(a) && Distinct(b) && (forall x :: x in a <==> x in b) && forall x | x in b :: x in s.pods
    ensures Total(s, a, source) == Total(s, b, source)
  {
    hide Remaining, Distinct;
    assert b != [] ==> b[0] in a;
    if a != [] {
      var n := |a| - 1;
      assert a[n] in a;
      var j :| 0 <= j < |b| && b[j] == a[n];
      TotalRemove(s, b, j, source);
      WithoutOne(b, j);
      WithoutOne(a, n);
      assert a[..n] + a[n + 1..] == a[..n];
      TotalSame(s, a[..n], b[..j] + b[j + 1..], source);
    }
  }

  lemma WithoutOne(names: seq<string>, j: nat)
    requires Distinct(names) && j < |names|
    ensures var rest := names[..j] + names[j + 1..];
            Distinct(rest) && forall x :: x in rest <==> x in names && x != names[j]
  {
    var rest := names[..j] + names[j + 1..];
    assert forall i | 0 <= i < |rest| :: rest[i] == names[if i < j then i else i + 1];
    forall x | x in names && x != names[j]
      ensures x in rest
    {
      var i :| 0 <= i < |names| && names[i] == x;
      assert rest[if i < j then i else i - 1] == x;
    }
  }

  lemma {:induction false} TotalRemove(s: State, names: seq<string>, j: nat, source: string)
    requires j < |names| && forall x | x in names :: x in s.pods
    ensures names[j] in names
    ensures forall x | x in names[..j] + names[j + 1..] :: x in s.pods
    ensures Total(s, names, source)
            == Total(s, names[..j] + names[j + 1..], source) + Remaining(s.pods[names[j]], source)
  {
    hide Remaining;
    var n := |names| - 1;
    if j == n {
      assert names[..j] + names[j + 1..] == names[..n];
    } else {
      var rest := names[..j] + names[j + 1..];
      TotalRemove(s, names[..n], j, source);
      assert rest[..|rest| - 1] == names[..n][..j] + names[..n][j + 1..];
      assert rest[|rest| - 1] == names[n];
      assert names[n] in names;
    }
  }

  // ---------- accounts ----------

  /** The addresses of one list that parse, with the pod they go to. */
  function Keys(v6: V6, ips: seq<string>, pod: string): seq<(string, string)> {
    if ips == [] then []
    else
      var rest := Keys(v6, ips[..|ips| - 1], pod);
      match AddressKey(v6, ips[|ips| - 1])
      case None => rest
      case Some(key) => rest + [(key, pod)]
  }

  /** What the pods among the first n bring along, in order. */
  function Carried(v6: V6, s: State, source: string, names: seq<string>): seq<(string, string)>
    requires forall x | x in names :: x in s.pods && WellFormed(s.pods[x])
  {
    if names == [] then []
    else
      var name := names[|names| - 1];
      assert name in names;
      var pod := s.pods[name];
      assert WellFormed(pod);
      var rest := Carried(v6, s, source, names[..|names| - 1]);
      if ToMove(pod, source) then rest + CarriedBy(v6, pod, source, name) else rest
  }

  /** The addresses of the interface that a pass moves. */
  function CarriedBy(v6: V6, pod: Pod, source: string, name: string): seq<(string, string)>
    requires ToMove(pod, source) && WellFormed(pod)
  {
    Keys(v6, pod.multus.value[NetworkIndex(pod.l2sm.value, source)].ips, name)
  }

  function KeySet(entries: seq<(string, string)>): set<string> {
    set e | e in entries :: e.0
  }

  /** Later entries win. */
  function PutAll(m: map<string, string>, entries: seq<(string, string)>): map<string, string> {
    if entries == [] then m
    else PutAll(m, entries[..|entries| - 1])[entries[|entries| - 1].0 := entries[|entries| - 1].1]
  }

  lemma {:induction false} PutAllAppend(m: map<string, string>, a: seq<(string, string)>, b: seq<(string, string)>)
    ensures PutAll(m, a + b) == PutAll(PutAll(m, a), b)
    ensures KeySet(a + b) == KeySet(a) + KeySet(b)
  {
    if b == [] {
      assert a + b == a;
    } else {
      PutAllAppend(m, a, b[..|b| - 1]);
      assert (a + b)[..|a + b| - 1] == a + b[..|b| - 1];
    }
    assert forall e :: e in a + b <==> e in a || e in b;
  }

  lemma {:induction false} MoveAddressesAccount(v6: V6, source: Network, target: Network, ips: seq<string>, pod: string)
    ensures var (src, tgt) := MoveAddresses(v6, source, target, ips, pod);
            && src.connected == source.connected && tgt.connected == target.connected
            && src.Assigned() == source.Assigned() - KeySet(Keys(v6, ips, pod))
            && tgt.Assigned() == PutAll(target.Assigned(), Keys(v6, ips, pod))
  {
    hide AddressKey, PutAll, KeySet;
    if ips == [] {
      PutNone(target.Assigned());
    } else {
      var front := ips[..|ips| - 1];
      MoveAddressesAccount(v6, source, target, front, pod);
      var key := AddressKey(v6, ips[|ips| - 1]);
      if key.Some? {
        PutAllAppend(target.Assigned(), Keys(v6, front, pod), [(key.value, pod)]);
        PutOne(PutAll(target.Assigned(), Keys(v6, front, pod)), key.value, pod);
      }
    }
  }

  lemma PutNone(m: map<string, string>)
    ensures PutAll(m, []) == m && KeySet([]) == {}
  {
  }

  lemma PutOne(m: map<string, string>, key: string, value: string)
    ensures PutAll(m, [(key, value)]) == m[key := value] && KeySet([(key, value)]) == {key}
  {
    assert (key, value) in [(key, value)];
    assert [(key, value)][..0] == [];
  }

  /** A count lowered once for each move, as long as it is positive. */
  function Lowered(count: int, moved: nat): int {
    if count <= 0 then count else if count >= moved then count - moved else 0
  }

  /** The networks of s' are those of s after m pods brought the entries along. */
  ghost predicate Account(s: State, s': State, source: string, target: string, carried: seq<(string, string)>, m: nat)
    requires Movable(s, source, target) && s'.networks.Keys == s.networks.Keys
  {
    && s'.networks[source].connected == Lowered(s.networks[source].connected, m)
    && s'.networks[target].connected == s.networks[target].connected + m
    && s'.networks[source].Assigned() == s.networks[source].Assigned() - KeySet(carried)
    && s'.networks[target].Assigned() == PutAll(s.networks[target].Assigned(), carried)
    && (forall x | x in s.networks && x != source && x != target :: s'.networks[x] == s.networks[x])
  }

  lemma AccountStep(s: State, mid: State, s': State, source: string, target: string, carried: seq<(string, string)>,
                    keys: seq<(string, string)>, m: nat)
    requires Movable(s, source, target)
    requires mid.networks.Keys == s.networks.Keys && s'.networks.Keys == s.networks.Keys
    requires Account(s, mid, source, target, carried, m)
    requires var count := mid.networks[source].connected;
             && s'.networks[source].connected == (if count > 0 then count - 1 else count)
             && s'.networks[target].connected == mid.networks[target].connected + 1
             && s'.networks[source].Assigned() == mid.networks[source].Assigned() - KeySet(keys)
             && s'.networks[target].Assigned() == PutAll(mid.networks[target].Assigned(), keys)
             && (forall x | x in mid.networks && x != source && x != target :: s'.networks[x] == mid.networks[x])
    ensures Account(s, s', source, target, carried + keys, m + 1)
  {
    hide PutAll, KeySet;
    PutAllAppend(s.networks[target].Assigned(), carried, keys);
  }

  /**
    A smooth pass that moves m pods leaves the source count at max(0, s - m) and the target count at t + m; the
    addresses the moved pods carried leave the source's map and are recorded in the target's.
   */
  lemma {:induction false} PassAccounts(v6: V6, s: State, source: string, target: string, names: seq<string>,
                                        calls: seq<Calls>, n: nat)
    requires Movable(s, source, target) && Smooth(s, names, calls) && n <= |names|
    ensures var w := SweepTo(v6, s, source, target, names, calls, n);
            Account(s, w.state, source, target, Carried(v6, s, source, names[..n]), w.moved)
  {
    hide SweepTo, Move, Account, Carried, CarriedBy, WellFormed, ToMove, Smooth;
    SmoothPods(s, names, calls);
    if n == 0 {
      SweepNone(v6, s, source, target, names, calls);
      NothingCarried(v6, s, source, target, names[..0]);
    } else {
      PassAccounts(v6, s, source, target, names, calls, n - 1);
      SmoothStep(v6, s, source, target, names, calls, n);
      var w := SweepTo(v6, s, source, target, names, calls, n - 1);
      var name := names[n - 1];
      assert names[..n][..n - 1] == names[..n - 1];
      CarriedStep(v6, s, source, names[..n]);
      if ToMove(s.pods[name], source) {
        MoveAccounts(v6, w.state, source, target, name);
        AccountStep(s, w.state, Move(v6, w.state, source, target, name, Succeed), source, target,
                    Carried(v6, s, source, names[..n - 1]), CarriedBy(v6, s.pods[name], source, name), w.moved);
      }
    }
  }

  lemma SmoothPods(s: State, names: seq<string>, calls: seq<Calls>)
    requires Smooth(s, names, calls)
    ensures |names| <= |calls| && forall x | x in names :: x in s.pods && WellFormed(s.pods[x])
  {
  }

  lemma SweepNone(v6: V6, s: State, source: string, target: string, names: seq<string>, calls: seq<Calls>)
    requires Movable(s, source, target) && |names| <= |calls| && forall x | x in names :: x in s.pods
    ensures SweepTo(v6, s, source, target, names, calls, 0) == Sweep(s, 0, false)
  {
  }

  /** One more pod of a smooth pass. */
  lemma SmoothStep(v6: V6, s: State, source: string, target: string, names: seq<string>, calls: seq<Calls>, n: nat)
    requires Movable(s, source, target) && Smooth(s, names, calls) && 0 < n <= |names|
    ensures var w := SweepTo(v6, s, source, target, names, calls, n - 1);
            var name := names[n - 1];
            && name in s.pods && WellFormed(s.pods[name]) && w.state.pods[name] == s.pods[name]
            && SweepTo(v6, s, source, target, names, calls, n) ==
               if ToMove(s.pods[name], source)
               then Sweep(Move(v6, w.state, source, target, name, Succeed), w.moved + 1, false)
               else w
  {
    hide Move, Judge, Passed, ToMoveCount;
    SweepPods(v6, s, source, target, names, calls, n - 1);
    var w := SweepTo(v6, s, source, target, names, calls, n - 1);
    var name := names[n - 1];
    assert name !in names[..n - 1] && name in names;
    if !s.pods[name].deleting {
      JudgeSmooth(s.pods[name], source);
    }
    if !s.pods[name].deleting && !ToMove(s.pods[name], source) {
      SkippedMove(v6, w.state, source, target, name, calls[n - 1]);
    }
  }

  lemma JudgeSmooth(pod: Pod, source: string)
    requires WellFormed(pod) && !pod.deleting
    ensures Judge(pod, source, Succeed) == if ToMove(pod, source) then Moved else Skipped
  {
  }

  lemma SkippedMove(v6: V6, s: State, source: string, target: string, name: string, calls: Calls)
    requires Movable(s, source, target) && name in s.pods && !Concerned(s.pods[name], source)
    ensures Move(v6, s, source, target, name, calls) == s
  {
  }

  lemma NothingCarried(v6: V6, s: State, source: string, target: string, names: seq<string>)
    requires Movable(s, source, target) && names == []
    ensures Account(s, s, source, target, Carried(v6, s, source, names), 0)
  {
    assert KeySet([]) == {};
  }

  lemma CarriedStep(v6: V6, s: State, source: string, names: seq<string>)
    requires names != [] && forall x | x in names :: x in s.pods && WellFormed(s.pods[x])
    ensures var name := names[|names| - 1];
            name in s.pods && WellFormed(s.pods[name])
            && Carried(v6, s, source, names) ==
               if ToMove(s.pods[name], source)
               then Carried(v6, s, source, names[..|names| - 1]) + CarriedBy(v6, s.pods[name], source, name)
               else Carried(v6, s, source, names[..|names| - 1])
  {
    assert names[|names| - 1] in names;
  }

  lemma MoveAccounts(v6: V6, s: State, source: string, target: string, name: string)
    requires Movable(s, source, target) && name in s.pods
    requires ToMove(s.pods[name], source) && WellFormed(s.pods[name])
    ensures var s' := Move(v6, s, source, target, name, Succeed);
            var keys := CarriedBy(v6, s.pods[name], source, name);
            var count := s.networks[source].connected;
            && s'.networks[source].connected == (if count > 0 then count - 1 else count)
            && s'.networks[target].connected == s.networks[target].connected + 1
            && s'.networks[source].Assigned() == s.networks[source].Assigned() - KeySet(keys)
            && s'.networks[target].Assigned() == PutAll(s.networks[target].Assigned(), keys)
            && (forall x | x in s.networks && x != source && x != target :: s'.networks[x] == s.networks[x])
  {
    var pod := s.pods[name];
    var ips := pod.multus.value[NetworkIndex(pod.l2sm.value, source)].ips;
    var count := s.networks[source].connected;
    MoveAddressesAccount(v6, s.networks[source].(connected := if count > 0 then count - 1 else count),
                         s.networks[target].(connected := s.networks[target].connected + 1), ips, name);
    hide MoveAddresses, Keys, PutAll, KeySet, NetworkIndex;
  }

  predicate DistinctKeys(entries: seq<(string, string)>) {
    forall i, j | 0 <= i < j < |entries| :: entries[i].0 != entries[j].0
  }

  lemma {:induction false} PutAllKeys(m: map<string, string>, entries: seq<(string, string)>)
    ensures PutAll(m, entries).Keys == m.Keys + KeySet(entries)
  {
    if entries == [] {
      assert KeySet(entries) == {};
    } else {
      var front, last := entries[..|entries| - 1], entries[|entries| - 1];
      PutAllKeys(m, front);
      KeySetLast(front, last);
      assert entries == front + [last];
    }
  }

  lemma KeySetLast(front: seq<(string, string)>, last: (string, string))
    ensures KeySet(front + [last]) == KeySet(front) + {last.0}
  {
    assert forall e :: e in front + [last] <==> e in front || e == last;
  }

  lemma {:induction false} PutAllEntries(m: map<string, string>, entries: seq<(string, string)>)
    requires DistinctKeys(entries)
    ensures forall e | e in entries :: e.0 in PutAll(m, entries) && PutAll(m, entries)[e.0] == e.1
  {
    if entries != [] {
      var front, last := entries[..|entries| - 1], entries[|entries| - 1];
      PutAllEntries(m, front);
      forall e | e in entries
        ensures e.0 in PutAll(m, entries) && PutAll(m, entries)[e.0] == e.1
      {
        if e != last {
          assert e in front;
        }
      }
      assert forall e | e in front :: e.0 != last.0;
    }
  }

  /** Over a smooth pass the two pod counts keep their sum exactly when the source counted every moved pod. */
  lemma PassKeepsCounts(v6: V6, s: State, source: string, target: string, names: seq<string>, calls: seq<Calls>)
    requires Movable(s, source, target) && Smooth(s, names, calls)
    ensures var s' := SweepTo(v6, s, source, target, names, calls, |names|).state;
            s'.networks[source].connected + s'.networks[target].connected
            == s.networks[source].connected + s.networks[target].connected
            <==> s.networks[source].connected >= ToMoveCount(s, names, source) || ToMoveCount(s, names, source) == 0
  {
    assert names[..|names|] == names;
    PassAccounts(v6, s, source, target, names, calls, |names|);
    SweepPods(v6, s, source, target, names, calls, |names|);
    hide SweepTo, Carried, PutAll, ToMoveCount, KeySet;
  }

  /**
    Over a smooth pass each carried address leaves the source's map and maps to its pod in the target's, and the two
    maps keep their total size, provided the carried addresses are distinct, recorded in the source and not in the
    target.
   */
  lemma PassKeepsAddresses(v6: V6, s: State, source: string, target: string, names: seq<string>, calls: seq<Calls>)
    requires Movable(s, source, target) && Smooth(s, names, calls)
    requires var carried := Carried(v6, s, source, names);
             && DistinctKeys(carried)
             && KeySet(carried) <= s.networks[source].Assigned().Keys
             && KeySet(carried) !! s.networks[target].Assigned().Keys
    ensures var s' := SweepTo(v6, s, source, target, names, calls, |names|).state;
            && |s'.networks[source].Assigned()| + |s'.networks[target].Assigned()|
               == |s.networks[source].Assigned()| + |s.networks[target].Assigned()|
            && (forall e | e in Carried(v6, s, source, names) ::
                  e.0 !in s'.networks[source].Assigned() && e.0 in s'.networks[target].Assigned()
                  && s'.networks[target].Assigned()[e.0] == e.1)
  {
    assert names[..|names|] == names;
    PassAccounts(v6, s, source, target, names, calls, |names|);
    hide SweepTo, Carried, PutAll, ToMoveCount, DistinctKeys, Lowered;
    var s' := SweepTo(v6, s, source, target, names, calls, |names|).state;
    var carried := Carried(v6, s, source, names);
    var src, tgt := s.networks[source].Assigned(), s.networks[target].Assigned();
    PutAllKeys(tgt, carried);
    PutAllEntries(tgt, carried);
    assert (src - KeySet(carried)).Keys == src.Keys - KeySet(carried);
    Sizes(src.Keys, tgt.Keys, KeySet(carried));
    assert |s'.networks[source].Assigned()| == |s'.networks[source].Assigned().Keys|;
    assert |s'.networks[target].Assigned()| == |s'.networks[target].Assigned().Keys|;
    assert |src| == |src.Keys| && |tgt| == |tgt.Keys|;
  }

  lemma Sizes(a: set<string>, b: set<string>, k: set<string>)
    requires k <= a && k !! b
    ensures |a - k| + |b + k| == |a| + |b|
  {
    assert |a| == |a - k| + |k| by {
      assert a == (a - k) + k;
    }
  }
}

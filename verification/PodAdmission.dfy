/**
  The address part of one Handle run over a pod's whole network list. Handle works on value copies of the
  networks it looked up: a later mention of the same network starts from the first copy again, and its status
  write is refused by the API because the first one changed the object's version. Only the address map is
  shared between the copies, and only when it was not nil.
*/
module PodAdmission {
  import opened Text
  import opened Ipv4
  import opened IpTexts
  import opened AddressSearch
  import opened Admission

  /** The state of the loop: the API's networks, the copies, the networks already written, the lists so far. */
  datatype Progress =
    | Serving(api: map<string, Network>, copies: map<string, Network>, written: set<string>, given: seq<seq<string>>)
    | Stuck
    | Panicked

  /** GetL2NetworksMap: the named networks up to the first one that does not exist. */
  function Known(api: map<string, Network>, wanted: seq<Annotation>): (r: map<string, Network>)
    ensures forall x | x in r :: x in api && r[x] == api[x]
  {
    if wanted == [] || wanted[0].name !in api then map[]
    else Known(api, wanted[1..])[wanted[0].name := api[wanted[0].name]]
  }

  /** The network at a position of the list is looked up: it and all those before it exist. */
  ghost predicate LooksUp(api: map<string, Network>, wanted: seq<Annotation>, i: nat)
    requires i < |wanted|
  {
    forall j | 0 <= j <= i :: wanted[j].name in api
  }

  /** Exactly the networks named before the first missing one are found. */
  lemma {:induction false} KnownExactly(api: map<string, Network>, wanted: seq<Annotation>, name: string)
    ensures name in Known(api, wanted) <==>
            exists i: nat :: i < |wanted| && wanted[i].name == name && LooksUp(api, wanted, i)
  {
    if wanted == [] {
    } else {
      var rest := wanted[1..];
      KnownExactly(api, rest, name);
      if wanted[0].name in api {
        if i: nat :| i < |rest| && rest[i].name == name && LooksUp(api, rest, i) {
          assert wanted[i + 1].name == name;
          forall j | 0 <= j <= i + 1
            ensures wanted[j].name in api
          {
            assert j > 0 ==> wanted[j] == rest[j - 1];
          }
        }
        if i: nat :| i < |wanted| && wanted[i].name == name && LooksUp(api, wanted, i) {
          if i > 0 {
            assert rest[i - 1].name == name;
            forall j | 0 <= j <= i - 1
              ensures rest[j].name in api
            {
              assert rest[j] == wanted[j + 1];
            }
          }
        }
      }
    }
  }

  /** One iteration of the loop. */
  function Serve(v6: V6, p: Progress, wanted: Annotation, pod: string, linkLocal: string): Progress {
    if !p.Serving? then p
    else if wanted.name !in p.copies then
      p.(given := p.given + [if wanted.ips != [] then wanted.ips else [linkLocal]])
    else
      var copy := p.copies[wanted.name];
      match Assign(v6, copy, Request(pod, wanted.ips, linkLocal))
      case Hangs => Stuck
      case Crashes => Panicked
      case Granted(served, ips) =>
        Serving(
          if wanted.name in p.written then p.api else p.api[wanted.name := served],
          if copy.addresses.Some? then p.copies[wanted.name := copy.(addresses := served.addresses)] else p.copies,
          p.written + {wanted.name},
          p.given + [ips])
  }

  /** The loop after its first n iterations. */
  function Served(v6: V6, api: map<string, Network>, wanted: seq<Annotation>, pod: string, linkLocals: seq<string>,
                  n: nat): Progress
    requires n <= |wanted| <= |linkLocals|
  {
    if n == 0 then Serving(api, Known(api, wanted), {}, [])
    else Serve(v6, Served(v6, api, wanted, pod, linkLocals, n - 1), wanted[n - 1], pod, linkLocals[n - 1])
  }

  /** How many of the first n iterations the loop ends. */
  function Ended(v6: V6, api: map<string, Network>, wanted: seq<Annotation>, pod: string, linkLocals: seq<string>,
                 n: nat): (k: nat)
    requires n <= |wanted| <= |linkLocals|
    ensures k <= n && Served(v6, api, wanted, pod, linkLocals, k).Serving?
  {
    if n == 0 || Served(v6, api, wanted, pod, linkLocals, n).Serving? then n
    else Ended(v6, api, wanted, pod, linkLocals, n - 1)
  }

  /** The iteration that hangs or panics is the last one. */
  lemma {:induction false} EndedAt(v6: V6, api: map<string, Network>, wanted: seq<Annotation>, pod: string,
                                   linkLocals: seq<string>, k: nat, n: nat)
    requires k < n <= |wanted| <= |linkLocals|
    requires Served(v6, api, wanted, pod, linkLocals, k).Serving?
    requires !Served(v6, api, wanted, pod, linkLocals, k + 1).Serving?
    ensures Ended(v6, api, wanted, pod, linkLocals, n) == k
    ensures Served(v6, api, wanted, pod, linkLocals, n) == Served(v6, api, wanted, pod, linkLocals, k + 1)
  {
    hide Assign, Known;
    if k + 1 < n {
      EndedAt(v6, api, wanted, pod, linkLocals, k, n - 1);
    }
  }

  function Mentions(wanted: seq<Annotation>, name: string): nat {
    if wanted == [] then 0
    else Mentions(wanted[..|wanted| - 1], name) + (if wanted[|wanted| - 1].name == name then 1 else 0)
  }

  ghost predicate Mentioned(wanted: seq<Annotation>, name: string, n: nat)
    requires n <= |wanted|
  {
    exists i :: 0 <= i < n && wanted[i].name == name
  }

  /** What n iterations leave behind, network by network. */
  ghost predicate Shape(api: map<string, Network>, wanted: seq<Annotation>, n: nat, p: Progress)
    requires n <= |wanted|
  {
    && p.Serving?
    && |p.given| == n
    && p.api.Keys == api.Keys
    && p.copies.Keys == Known(api, wanted).Keys
    && (forall x | x in p.copies :: x in p.written <==> Mentioned(wanted, x, n))
    && (forall x | x in p.copies && x !in p.written :: p.copies[x] == api[x])
    && (forall x | x in api && x !in p.written :: p.api[x] == api[x])
    && p.written <= p.copies.Keys
    && (forall x | x in p.copies ::
          p.copies[x] == api[x].(addresses := p.copies[x].addresses)
          && (api[x].addresses.None? ==> p.copies[x] == api[x]))
    && (forall x | x in p.written :: p.api[x].connected == api[x].connected + 1)
  }

  lemma MentionedStep(wanted: seq<Annotation>, x: string, n: nat)
    requires 0 < n <= |wanted|
    ensures Mentioned(wanted, x, n) <==> Mentioned(wanted, x, n - 1) || x == wanted[n - 1].name
  {
    if x == wanted[n - 1].name {
      assert wanted[n - 1].name == x;
    }
  }

  lemma ServeKeepsShape(v6: V6, api: map<string, Network>, wanted: seq<Annotation>, pod: string, linkLocal: string,
                        n: nat, p: Progress)
    requires 0 < n <= |wanted| && Shape(api, wanted, n - 1, p)
    requires Serve(v6, p, wanted[n - 1], pod, linkLocal).Serving?
    ensures Shape(api, wanted, n, Serve(v6, p, wanted[n - 1], pod, linkLocal))
  {
    hide Assign, Known, Mentioned;
    var w := wanted[n - 1];
    if w.name in p.copies {
      AssignFields(v6, p.copies[w.name], Request(pod, w.ips, linkLocal));
    }
    forall x
      ensures Mentioned(wanted, x, n) <==> Mentioned(wanted, x, n - 1) || x == w.name
    {
      MentionedStep(wanted, x, n);
    }
  }

  lemma {:induction false} ServedShape(v6: V6, api: map<string, Network>, wanted: seq<Annotation>, pod: string,
                                       linkLocals: seq<string>, n: nat)
    requires n <= |wanted| <= |linkLocals|
    requires Served(v6, api, wanted, pod, linkLocals, n).Serving?
    ensures Shape(api, wanted, n, Served(v6, api, wanted, pod, linkLocals, n))
  {
    if n > 0 {
      ServedShape(v6, api, wanted, pod, linkLocals, n - 1);
      hide Shape;
      ServeKeepsShape(v6, api, wanted, pod, linkLocals[n - 1], n, Served(v6, api, wanted, pod, linkLocals, n - 1));
    }
  }

  lemma AssignFields(v6: V6, n: Network, r: Request)
    ensures Assign(v6, n, r).Granted? ==>
              var m := Assign(v6, n, r).network;
              m.connected == n.connected + 1 && m.cidr == n.cidr && m.podRange == n.podRange
  {
    hide Next, ReadCidr, RecordKey;
  }

  /** Entry i is the first one that names its network. */
  ghost predicate MentionsFirst(wanted: seq<Annotation>, i: nat)
    requires i < |wanted|
  {
    forall j | 0 <= j < i :: wanted[j].name != wanted[i].name
  }

  /**
    However often a pod names a network that is found, its status ends up as after a single admission for the first
    mention, from the state the API held, and the first mention gets what that admission grants.
   */
  lemma {:induction false} OnceEach(v6: V6, api: map<string, Network>, wanted: seq<Annotation>, pod: string,
                                    linkLocals: seq<string>, n: nat, i: nat)
    requires i < n <= |wanted| <= |linkLocals| && MentionsFirst(wanted, i)
    requires Served(v6, api, wanted, pod, linkLocals, n).Serving?
    requires wanted[i].name in Known(api, wanted)
    ensures var p := Served(v6, api, wanted, pod, linkLocals, n);
            var t := Assign(v6, api[wanted[i].name], Request(pod, wanted[i].ips, linkLocals[i]));
            t.Granted? && wanted[i].name in p.api && p.api[wanted[i].name] == t.network
            && i < |p.given| && p.given[i] == t.ips
  {
    hide Assign, Known;
    if i == n - 1 {
      FirstMention(v6, api, wanted, pod, linkLocals, i);
    } else {
      OnceEach(v6, api, wanted, pod, linkLocals, n - 1, i);
      IsWritten(v6, api, wanted, pod, linkLocals, n - 1, i);
    }
  }

  lemma IsWritten(v6: V6, api: map<string, Network>, wanted: seq<Annotation>, pod: string, linkLocals: seq<string>,
                  n: nat, i: nat)
    requires i < n <= |wanted| <= |linkLocals| && wanted[i].name in Known(api, wanted)
    requires Served(v6, api, wanted, pod, linkLocals, n).Serving?
    ensures wanted[i].name in Served(v6, api, wanted, pod, linkLocals, n).written
  {
    ServedShape(v6, api, wanted, pod, linkLocals, n);
    hide Served, Known;
  }

  /**
    One network's copy after the first k entries: the API's state, where the entries that name the network have changed
    the address map, if it had one, and nothing else.
   */
  function CopyAfter(v6: V6, n: Network, name: string, wanted: seq<Annotation>, pod: string, linkLocals: seq<string>,
                     k: nat): Network
    requires k <= |wanted| <= |linkLocals|
  {
    if k == 0 then n
    else
      var copy := CopyAfter(v6, n, name, wanted, pod, linkLocals, k - 1);
      if wanted[k - 1].name != name || n.addresses.None? then copy
      else
        match Assign(v6, copy, Request(pod, wanted[k - 1].ips, linkLocals[k - 1]))
        case Granted(served, _) => n.(addresses := served.addresses)
        case _ => copy
  }

  /** Every mention of a network that is found, first or repeated, gets what a single admission on that copy grants. */
  lemma {:induction false} EveryMention(v6: V6, api: map<string, Network>, wanted: seq<Annotation>, pod: string,
                                        linkLocals: seq<string>, n: nat, i: nat)
    requires i < n <= |wanted| <= |linkLocals| && wanted[i].name in Known(api, wanted)
    requires Served(v6, api, wanted, pod, linkLocals, n).Serving?
    ensures var p, name := Served(v6, api, wanted, pod, linkLocals, n), wanted[i].name;
            var t := Assign(v6, CopyAfter(v6, api[name], name, wanted, pod, linkLocals, i),
                            Request(pod, wanted[i].ips, linkLocals[i]));
            t.Granted? && i < |p.given| && p.given[i] == t.ips
  {
    hide Assign, Known;
    CopyIs(v6, api, wanted, pod, linkLocals, n - 1, wanted[i].name);
    if i < n - 1 {
      EveryMention(v6, api, wanted, pod, linkLocals, n - 1, i);
    }
  }

  lemma {:induction false} CopyIs(v6: V6, api: map<string, Network>, wanted: seq<Annotation>, pod: string,
                                  linkLocals: seq<string>, n: nat, name: string)
    requires n <= |wanted| <= |linkLocals| && name in Known(api, wanted)
    requires Served(v6, api, wanted, pod, linkLocals, n).Serving?
    ensures var p := Served(v6, api, wanted, pod, linkLocals, n);
            && |p.given| == n && name in p.copies
            && p.copies[name] == CopyAfter(v6, api[name], name, wanted, pod, linkLocals, n)
            && (api[name].addresses.None? <==> p.copies[name].addresses.None?)
            && p.copies[name] == api[name].(addresses := p.copies[name].addresses)
  {
    hide Assign, Known;
    if n > 0 {
      CopyIs(v6, api, wanted, pod, linkLocals, n - 1, name);
      var w, before := wanted[n - 1], Served(v6, api, wanted, pod, linkLocals, n - 1);
      var r := Request(pod, w.ips, linkLocals[n - 1]);
      if w.name == name && api[name].addresses.Some? && Assign(v6, before.copies[name], r).Granted? {
        AssignShares(v6, before.copies[name], r);
      }
    }
  }

  /** A listed network that is not found gets the pod its static addresses, or its link-local one. */
  lemma {:induction false} UnknownGiven(v6: V6, api: map<string, Network>, wanted: seq<Annotation>, pod: string,
                                        linkLocals: seq<string>, n: nat, i: nat)
    requires i < n <= |wanted| <= |linkLocals|
    requires Served(v6, api, wanted, pod, linkLocals, n).Serving?
    requires wanted[i].name !in Known(api, wanted)
    ensures var p := Served(v6, api, wanted, pod, linkLocals, n);
            && i < |p.given| && p.given[i] == (if wanted[i].ips != [] then wanted[i].ips else [linkLocals[i]])
            && (wanted[i].name in api ==> wanted[i].name in p.api && p.api[wanted[i].name] == api[wanted[i].name])
  {
    hide Assign, Known;
    UnknownSpared(v6, api, wanted, pod, linkLocals, n, wanted[i].name);
    UnknownSpared(v6, api, wanted, pod, linkLocals, n - 1, wanted[i].name);
    if i < n - 1 {
      UnknownGiven(v6, api, wanted, pod, linkLocals, n - 1, i);
    }
  }

  lemma UnknownSpared(v6: V6, api: map<string, Network>, wanted: seq<Annotation>, pod: string, linkLocals: seq<string>,
                      n: nat, name: string)
    requires n <= |wanted| <= |linkLocals| && name !in Known(api, wanted)
    requires Served(v6, api, wanted, pod, linkLocals, n).Serving?
    ensures var p := Served(v6, api, wanted, pod, linkLocals, n);
            && |p.given| == n && name !in p.copies
            && (name in api ==> name in p.api && p.api[name] == api[name])
  {
    ServedShape(v6, api, wanted, pod, linkLocals, n);
    hide Served, Known, Mentioned;
  }

  /** A network is found by the place of its first mention. */
  lemma KnownByPlace(api: map<string, Network>, wanted: seq<Annotation>, i: nat)
    requires i < |wanted| && MentionsFirst(wanted, i)
    ensures wanted[i].name in Known(api, wanted) <==> forall j | 0 <= j <= i :: wanted[j].name in api
  {
    hide Known;
    KnownExactly(api, wanted, wanted[i].name);
    if wanted[i].name in Known(api, wanted) {
      var k: nat :| k < |wanted| && wanted[k].name == wanted[i].name && LooksUp(api, wanted, k);
      assert i <= k;
    }
  }

  /** A network mentioned for the first time is served from the state the API held. */
  lemma FirstMention(v6: V6, api: map<string, Network>, wanted: seq<Annotation>, pod: string, linkLocals: seq<string>,
                     i: nat)
    requires i < |wanted| <= |linkLocals| && MentionsFirst(wanted, i)
    requires Served(v6, api, wanted, pod, linkLocals, i + 1).Serving?
    requires wanted[i].name in Known(api, wanted)
    ensures var p := Served(v6, api, wanted, pod, linkLocals, i + 1);
            var t := Assign(v6, api[wanted[i].name], Request(pod, wanted[i].ips, linkLocals[i]));
            t.Granted? && wanted[i].name in p.api && p.api[wanted[i].name] == t.network
            && i < |p.given| && p.given[i] == t.ips
  {
    hide Assign, Known;
    ServedShape(v6, api, wanted, pod, linkLocals, i);
    assert !Mentioned(wanted, wanted[i].name, i);
    hide Mentioned, MentionsFirst;
  }

  /**
    The pod count of a network grows by one for each of the pod's interfaces on it exactly when the pod names
    it at most once: further mentions are attached but never counted.
   */
  lemma CountExactly(v6: V6, api: map<string, Network>, wanted: seq<Annotation>, pod: string,
                     linkLocals: seq<string>, name: string)
    requires |wanted| <= |linkLocals|
    requires Served(v6, api, wanted, pod, linkLocals, |wanted|).Serving?
    requires name in Known(api, wanted)
    ensures var p := Served(v6, api, wanted, pod, linkLocals, |wanted|);
            name in p.api && p.api[name].connected == api[name].connected + 1
    ensures Served(v6, api, wanted, pod, linkLocals, |wanted|).api[name].connected
              == api[name].connected + Mentions(wanted, name)
            <==> Mentions(wanted, name) <= 1
  {
    hide Served;
    ServedShape(v6, api, wanted, pod, linkLocals, |wanted|);
    KnownIsMentioned(api, wanted, name);
    MentionsPositive(wanted, name);
  }

  lemma {:induction false} KnownIsMentioned(api: map<string, Network>, wanted: seq<Annotation>, name: string)
    requires name in Known(api, wanted)
    ensures Mentioned(wanted, name, |wanted|)
  {
    if wanted[0].name == name {
    } else {
      KnownIsMentioned(api, wanted[1..], name);
      var i :| 0 <= i < |wanted| - 1 && wanted[1..][i].name == name;
      assert wanted[i + 1].name == name;
    }
  }

  lemma {:induction false} MentionsPositive(wanted: seq<Annotation>, name: string)
    ensures Mentions(wanted, name) > 0 <==> Mentioned(wanted, name, |wanted|)
  {
    if wanted != [] {
      var front := wanted[..|wanted| - 1];
      MentionsPositive(front, name);
      if Mentioned(front, name, |front|) {
        var i :| 0 <= i < |front| && front[i].name == name;
        assert wanted[i].name == name;
      }
      if Mentioned(wanted, name, |wanted|) && wanted[|wanted| - 1].name != name {
        var i :| 0 <= i < |wanted| && wanted[i].name == name;
        assert front[i].name == name;
      }
    }
  }

  /**
    While a network's address map is still nil, every mention of it in one pod's list starts from the same copy:
    automatic requests for it all receive the same address.
   */
  lemma SameAddressTwice(v6: V6, api: map<string, Network>, wanted: seq<Annotation>, pod: string,
                         linkLocals: seq<string>, n: nat, i: nat, j: nat)
    requires i < j < n <= |wanted| <= |linkLocals|
    requires Served(v6, api, wanted, pod, linkLocals, n).Serving?
    requires wanted[i].name == wanted[j].name && wanted[i].name in Known(api, wanted)
    requires wanted[i].ips == wanted[j].ips == [] && api[wanted[i].name].addresses.None?
    requires api[wanted[i].name].cidr != ""
    ensures var p := Served(v6, api, wanted, pod, linkLocals, n);
            j < |p.given| && p.given[i] == p.given[j]
  {
    var name := wanted[i].name;
    GivenFrom(v6, api, wanted, pod, linkLocals, n, i);
    GivenFrom(v6, api, wanted, pod, linkLocals, n, j);
    AutoIgnoresLinkLocal(v6, api[name], pod, linkLocals[i], linkLocals[j]);
  }

  lemma AutoIgnoresLinkLocal(v6: V6, n: Network, pod: string, a: string, b: string)
    requires n.cidr != ""
    ensures Assign(v6, n, Request(pod, [], a)) == Assign(v6, n, Request(pod, [], b))
  {
  }

  lemma GivenFrom(v6: V6, api: map<string, Network>, wanted: seq<Annotation>, pod: string, linkLocals: seq<string>,
                  n: nat, i: nat)
    requires i < n <= |wanted| <= |linkLocals|
    requires Served(v6, api, wanted, pod, linkLocals, n).Serving?
    requires wanted[i].name in Known(api, wanted) && api[wanted[i].name].addresses.None?
    ensures var p := Served(v6, api, wanted, pod, linkLocals, n);
            var t := Assign(v6, api[wanted[i].name], Request(pod, wanted[i].ips, linkLocals[i]));
            t.Granted? && i < |p.given| && p.given[i] == t.ips
  {
    hide Assign, Known, Served;
    EveryMention(v6, api, wanted, pod, linkLocals, n, i);
    NilCopy(v6, api[wanted[i].name], wanted[i].name, wanted, pod, linkLocals, i);
  }

  lemma {:induction false} NilCopy(v6: V6, n: Network, name: string, wanted: seq<Annotation>, pod: string,
                                   linkLocals: seq<string>, k: nat)
    requires k <= |wanted| <= |linkLocals| && n.addresses.None?
    ensures CopyAfter(v6, n, name, wanted, pod, linkLocals, k) == n
  {
    hide Assign;
    if k > 0 {
      NilCopy(v6, n, name, wanted, pod, linkLocals, k - 1);
    }
  }

  /** An admission on a network with a map keeps the map, what is in it, and the key of what it grants. */
  lemma AssignShares(v6: V6, n: Network, r: Request)
    requires n.addresses.Some? && Assign(v6, n, r).Granted?
    ensures var t := Assign(v6, n, r);
            && t.network.addresses.Some? && n.Assigned().Keys <= t.network.Assigned().Keys
            && (r.ips == [] && n.cidr != "" ==> |t.ips| == 1 && RecordKey(v6, t.ips[0]) in t.network.Assigned())
  {
    hide Next, ReadCidr, RecordKey, PrefixText, IpText;
  }

  /** The copy of a network with a map has, after n iterations, the keys of all that was granted on it. */
  lemma {:induction false} CopyShares(v6: V6, api: map<string, Network>, wanted: seq<Annotation>, pod: string,
                                      linkLocals: seq<string>, n: nat, i: nat)
    requires i < n <= |wanted| <= |linkLocals|
    requires Served(v6, api, wanted, pod, linkLocals, n).Serving?
    requires wanted[i].name in Known(api, wanted) && wanted[i].ips == []
    requires api[wanted[i].name].addresses.Some? && api[wanted[i].name].cidr != ""
    ensures var p := Served(v6, api, wanted, pod, linkLocals, n);
            && wanted[i].name in p.copies && p.copies[wanted[i].name].addresses.Some?
            && i < |p.given| && |p.given[i]| == 1
            && RecordKey(v6, p.given[i][0]) in p.copies[wanted[i].name].Assigned()
  {
    hide Assign, Known, RecordKey, Shape;
    var name, w, before := wanted[i].name, wanted[n - 1], Served(v6, api, wanted, pod, linkLocals, n - 1);
    MapStays(v6, api, wanted, pod, linkLocals, n - 1, name);
    if i < n - 1 {
      CopyShares(v6, api, wanted, pod, linkLocals, n - 1, i);
    }
    if w.name == name {
      AssignShares(v6, before.copies[name], Request(pod, w.ips, linkLocals[n - 1]));
    }
  }

  lemma {:induction false} MapStays(v6: V6, api: map<string, Network>, wanted: seq<Annotation>, pod: string,
                                    linkLocals: seq<string>, n: nat, name: string)
    requires n <= |wanted| <= |linkLocals|
    requires Served(v6, api, wanted, pod, linkLocals, n).Serving?
    requires name in Known(api, wanted) && api[name].addresses.Some?
    ensures var p := Served(v6, api, wanted, pod, linkLocals, n);
            && |p.given| == n && name in p.copies && p.copies[name].addresses.Some?
            && p.copies[name].cidr == api[name].cidr
  {
    hide Assign, Known, Shape;
    ServedShapeFields(v6, api, wanted, pod, linkLocals, n, name);
    if n > 0 {
      MapStays(v6, api, wanted, pod, linkLocals, n - 1, name);
      var w, before := wanted[n - 1], Served(v6, api, wanted, pod, linkLocals, n - 1);
      if w.name == name {
        AssignShares(v6, before.copies[name], Request(pod, w.ips, linkLocals[n - 1]));
      }
    }
  }

  lemma ServedShapeFields(v6: V6, api: map<string, Network>, wanted: seq<Annotation>, pod: string,
                          linkLocals: seq<string>, n: nat, name: string)
    requires n <= |wanted| <= |linkLocals| && name in Known(api, wanted)
    requires Served(v6, api, wanted, pod, linkLocals, n).Serving?
    ensures var p := Served(v6, api, wanted, pod, linkLocals, n);
            |p.given| == n && name in p.copies && p.copies[name].cidr == api[name].cidr
  {
    ServedShape(v6, api, wanted, pod, linkLocals, n);
    hide Served, Known, Mentioned;
  }

  /**
    Once a network has an address map, the mentions of it in one pod's list share that map: an address given to
    one automatic mention is not given to a later one.
   */
  lemma FreshAddressTwice(v6: V6, api: map<string, Network>, wanted: seq<Annotation>, pod: string,
                          linkLocals: seq<string>, i: nat, j: nat, a: Ip)
    requires i < j < |wanted| <= |linkLocals| && (|a| == 4 || v6.Lawful())
    requires Served(v6, api, wanted, pod, linkLocals, j + 1).Serving?
    requires wanted[i].name == wanted[j].name && wanted[i].name in Known(api, wanted)
    requires wanted[i].ips == wanted[j].ips == [] && api[wanted[i].name].addresses.Some?
    requires var c := ReadCidr(v6, api[wanted[i].name].cidr);
             && c.Some? && c.value.prefix <= 8 * |a|
             && var given := Served(v6, api, wanted, pod, linkLocals, j).given;
                i < |given| && given[i] == [IpText(v6, a) + PrefixText(c.value.prefix)]
    ensures var p := Served(v6, api, wanted, pod, linkLocals, j + 1);
            j < |p.given| && p.given[j] != p.given[i]
  {
    hide Assign, Known, Shape, ReadCidr, IpText, PrefixText, RecordKey, V6.Lawful;
    var name, before := wanted[i].name, Served(v6, api, wanted, pod, linkLocals, j);
    ReadEmpty(v6);
    CopyShares(v6, api, wanted, pod, linkLocals, j, i);
    MapStays(v6, api, wanted, pod, linkLocals, j, name);
    WrittenKey(v6, a, ReadCidr(v6, api[name].cidr).value.prefix);
    AnotherAddress(v6, before.copies[name], Request(pod, [], linkLocals[j]), a);
  }

  lemma WrittenKey(v6: V6, a: Ip, prefix: nat)
    requires prefix <= 8 * |a| && (|a| == 4 || v6.Lawful())
    ensures RecordKey(v6, IpText(v6, a) + PrefixText(prefix)) == IpText(v6, a)
  {
    hide ReadCidr, IpText, PrefixText, V6.Lawful;
    ReadWritten(v6, a, prefix);
  }

  /** An automatic admission never grants an address whose text is recorded. */
  lemma AnotherAddress(v6: V6, n: Network, r: Request, a: Ip)
    requires r.ips == [] && ReadCidr(v6, n.cidr).Some? && IpText(v6, a) in n.Assigned() && Assign(v6, n, r).Granted?
    requires |a| == 4 || v6.Lawful()
    ensures Assign(v6, n, r).ips != [IpText(v6, a) + PrefixText(ReadCidr(v6, n.cidr).value.prefix)]
  {
    hide ReadCidr, IpText, PrefixText, RecordKey, Next, V6.Lawful;
    ReadEmpty(v6);
    var mask := PrefixText(ReadCidr(v6, n.cidr).value.prefix);
    var o := Next(v6, n.Range(), n.last, n.Assigned().Keys);
    if o.Found? {
      NextIsFree(v6, n);
      SameEnding(IpText(v6, o.address), IpText(v6, a), mask);
    } else {
      TextNotEmpty(v6, a);
      SameEnding("", IpText(v6, a), mask);
    }
  }

  lemma TextNotEmpty(v6: V6, a: Ip)
    requires |a| == 4 || v6.Lawful()
    ensures IpText(v6, a) != ""
  {
    if |a| == 4 {
      DottedStart(a);
    } else {
      assert ':' in v6.show(a);
    }
  }
}

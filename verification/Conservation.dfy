/** Counting interfaces: on every node, free, owned and lost ones add up to the overlay's interface number. */
module Conservation {
  import opened NadNames
  import opened Cluster
  import opened PortInvariant

  ghost function FreeOn(s: State, node: string): set<string> {
    set x | x in s.nads && IsFree(s.nads[x], node)
  }

  ghost function LostOn(s: State, node: string): set<string> {
    set x | x in s.nads && Hold(node, x) in s.lost
  }

  ghost function OwnersOn(s: State, node: string): set<Owner> {
    (set p, i | p in s.pods && s.pods[p].Owns() && s.pods[p].node == node && 0 <= i < s.pods[p].Slots() :: Slot(p, i))
    + (set g | g in s.grabs && g.at.node == node :: Taker(g))
  }

  ghost function NadOf(s: State, o: Owner): string {
    match o
    case Slot(p, i) => if p in s.pods && i < s.pods[p].Slots() then s.pods[p].HoldAt(i).nad else ""
    case Taker(g) => g.at.nad
  }

  ghost function NadsOf(s: State, owners: set<Owner>): set<string> {
    set o | o in owners :: NadOf(s, o)
  }

  lemma OwnersHave(s: State, node: string)
    ensures forall o :: o in OwnersOn(s, node) <==> Has(s, o, Hold(node, NadOf(s, o)))
  {
    forall o
      ensures o in OwnersOn(s, node) <==> Has(s, o, Hold(node, NadOf(s, o)))
    {
      match o
      case Slot(p, i) =>
      case Taker(g) =>
    }
  }

  /** Owners of one node that never share an interface hold as many interfaces as there are owners. */
  lemma {:induction false} OneNadEach(s: State, owners: set<Owner>)
    requires forall o1, o2 | o1 in owners && o2 in owners && NadOf(s, o1) == NadOf(s, o2) :: o1 == o2
    ensures |NadsOf(s, owners)| == |owners|
  {
    if owners == {} {
      assert NadsOf(s, owners) == {};
    } else {
      var o :| o in owners;
      var rest := owners - {o};
      OneNadEach(s, rest);
      assert NadsOf(s, owners) == NadsOf(s, rest) + {NadOf(s, o)};
      assert NadOf(s, o) !in NadsOf(s, rest);
    }
  }

  /** An interface of the pool is held on a node exactly if some owner has it. */
  lemma HeldExactly(s: State, node: string)
    requires Labelled(s)
    ensures forall x :: x in NadsOf(s, OwnersOn(s, node)) <==> exists o :: Has(s, o, Hold(node, x))
  {
    OwnersHave(s, node);
    hide OwnersOn, NadOf, Has;
    forall x
      ensures x in NadsOf(s, OwnersOn(s, node)) <==> exists o :: Has(s, o, Hold(node, x))
    {
      if o :| Has(s, o, Hold(node, x)) {
        HasNad(s, o, Hold(node, x));
        assert o in OwnersOn(s, node);
      }
      if o :| o in OwnersOn(s, node) && x == NadOf(s, o) {
        assert Has(s, o, Hold(node, x));
      }
    }
  }

  lemma FreeExactly(s: State, node: string)
    requires Pool(s.nads)
    ensures forall x :: x in FreeOn(s, node) <==> x in s.nads && !Used(s, Hold(node, x))
  {
  }

  /** Free, owned and lost interfaces of a node partition the pool. */
  lemma Partition(s: State, node: string)
    requires Inv(s)
    ensures var held := NadsOf(s, OwnersOn(s, node));
            && FreeOn(s, node) !! held && FreeOn(s, node) !! LostOn(s, node) && held !! LostOn(s, node)
            && FreeOn(s, node) + held + LostOn(s, node) == s.nads.Keys
            && |held| == |OwnersOn(s, node)|
  {
    UsedExactly(s, node);
    FreeExactly(s, node);
    NadsInPool(s, node);
    hide FreeOn, OwnersOn, LostOn, NadOf, Has, Used, Inv;
    OneNadEach(s, OwnersOn(s, node));
    hide NadsOf;
  }

  lemma NadsInPool(s: State, node: string)
    requires Inv(s)
    ensures NadsOf(s, OwnersOn(s, node)) <= s.nads.Keys && LostOn(s, node) <= s.nads.Keys
  {
    OwnersHave(s, node);
    hide OwnersOn, NadOf, Has, Pool, Matched, MarkedUsed;
    forall o | o in OwnersOn(s, node)
      ensures NadOf(s, o) in s.nads
    {
      assert Has(s, o, Hold(node, NadOf(s, o)));
      assert Used(s, Hold(node, NadOf(s, o)));
    }
  }

  /** A used label on a node belongs either to an owner or to a lost port, never to both. */
  lemma UsedExactly(s: State, node: string)
    requires Inv(s)
    ensures var held := NadsOf(s, OwnersOn(s, node));
            && (forall x :: x in s.nads && Used(s, Hold(node, x)) <==> x in held || x in LostOn(s, node))
            && (forall x | x in held :: x !in LostOn(s, node))
            && (forall o1, o2 | o1 in OwnersOn(s, node) && o2 in OwnersOn(s, node)
                  && NadOf(s, o1) == NadOf(s, o2) :: o1 == o2)
  {
    HeldExactly(s, node);
    OwnersHave(s, node);
    hide OwnersOn, NadOf, Has, NadsOf, Pool, Matched;
    forall x | x in s.nads && Used(s, Hold(node, x))
      ensures x in NadsOf(s, OwnersOn(s, node)) || x in LostOn(s, node)
    {
    }
  }

  lemma HasNad(s: State, o: Owner, h: Hold)
    requires Has(s, o, h)
    ensures NadOf(s, o) == h.nad
  {
  }

  /** Free interfaces, owners and lost interfaces of a node add up to the size of the pool. */
  lemma Conserved(s: State, node: string)
    requires Inv(s)
    ensures |FreeOn(s, node)| + |OwnersOn(s, node)| + |LostOn(s, node)| == |s.nads|
  {
    Partition(s, node);
    var held := NadsOf(s, OwnersOn(s, node));
    hide FreeOn, OwnersOn, LostOn, Inv;
    assert |FreeOn(s, node) + held + LostOn(s, node)| == |FreeOn(s, node)| + |held| + |LostOn(s, node)|;
    assert |s.nads| == |s.nads.Keys|;
  }

  function NadSet(overlay: string, size: nat): (names: set<string>)
    ensures forall x :: x in names <==> exists i: nat :: 1 <= i <= size && x == NadName(overlay, i)
    ensures |names| == size
  {
    if size == 0 then {}
    else
      NadSetGrows(overlay, size);
      var names := NadSet(overlay, size - 1) + {NadName(overlay, size)};
      names
  }

  lemma NadSetGrows(overlay: string, size: nat)
    requires size > 0
    ensures forall i: nat | i < size :: NadName(overlay, i) != NadName(overlay, size)
  {
    forall i: nat | i < size
      ensures NadName(overlay, i) != NadName(overlay, size)
    {
      PortsDistinct(overlay, i, size);
    }
  }

  /** The pool of a fresh overlay has as many interfaces as its interface number says. */
  lemma InitialSize(s: State, overlay: string, size: nat)
    requires Initial(s, overlay, size)
    ensures |s.nads| == size
  {
    hide NadName;
    assert s.nads.Keys == NadSet(overlay, size);
  }
}

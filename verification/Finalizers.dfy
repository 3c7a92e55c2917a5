/** Finalizer lists (internal/utils/utils.go, RemoveString). */
module Finalizers {

  const L2SM: string := "l2sm.operator.io/finalizer"

  /** The list without any occurrence of s. */
  function Without(xs: seq<string>, s: string): (r: seq<string>)
    ensures forall x :: x in r <==> x in xs && x != s
    ensures s !in xs ==> r == xs
  {
    if xs == [] then []
    else if xs[0] == s then Without(xs[1..], s)
    else [xs[0]] + Without(xs[1..], s)
  }

  method RemoveString(slice: seq<string>, s: string) returns (result: seq<string>)
    ensures result == Without(slice, s)
  {
    hide Without;
    result := [];
    for i := 0 to |slice|
      invariant result + Without(slice[i..], s) == Without(slice, s)
    {
      WithoutStep(slice[i..], s);
      assert slice[i..][1..] == slice[i + 1..];
      if slice[i] != s {
        result := result + [slice[i]];
      }
    }
    WithoutNone(s);
  }

  /** Removal keeps every other element, as often as it occurred. */
  lemma {:induction false} WithoutKeeps(xs: seq<string>, s: string)
    ensures multiset(Without(xs, s)) == multiset(xs)[s := 0]
  {
    if xs != [] {
      WithoutKeeps(xs[1..], s);
      assert xs == [xs[0]] + xs[1..];
    }
  }

  /** Removal keeps the order: splitting the list anywhere, what survives of the front precedes the rest. */
  lemma {:induction false} WithoutOrder(xs: seq<string>, ys: seq<string>, s: string)
    ensures Without(xs + ys, s) == Without(xs, s) + Without(ys, s)
  {
    hide Without;
    if xs == [] {
      assert xs + ys == ys;
      WithoutNone(s);
    } else {
      WithoutOrder(xs[1..], ys, s);
      assert (xs + ys)[1..] == xs[1..] + ys;
      WithoutStep(xs, s);
      WithoutStep(xs + ys, s);
    }
  }

  lemma WithoutNone(s: string)
    ensures Without([], s) == []
  {
  }

  lemma WithoutStep(xs: seq<string>, s: string)
    requires xs != []
    ensures Without(xs, s) == (if xs[0] == s then [] else [xs[0]]) + Without(xs[1..], s)
  {
  }

  /** Adding the finalizer at the end and removing it again gives the list back. */
  lemma AddThenRemove(xs: seq<string>, s: string)
    requires s !in xs
    ensures Without(xs + [s], s) == xs
  {
    WithoutOrder(xs, [s], s);
    assert Without([s], s) == [];
  }
}

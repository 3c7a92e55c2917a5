/** The names of the overlay's switch interfaces, and the port numbers read back from them. */
module NadNames {
  import opened Wrappers
  import opened Text

  const KEYWORD: string := "veth"

  predicate OccursAt(s: string, key: string, i: nat) {
    i + |key| <= |s| && s[i..i + |key|] == key
  }

  ghost predicate Occurs(s: string, key: string) {
    exists i: nat :: OccursAt(s, key, i)
  }

  /** strings.Index from position i on. */
  function IndexFrom(s: string, key: string, i: nat): (r: Option<nat>)
    requires i <= |s|
    ensures r.Some? ==> i <= r.value && OccursAt(s, key, r.value)
    ensures r.Some? ==> forall j | i <= j < r.value :: !OccursAt(s, key, j)
    ensures r.None? ==> forall j: nat | i <= j :: !OccursAt(s, key, j)
    decreases |s| - i
  {
    if OccursAt(s, key, i) then Some(i) else if i == |s| then None else IndexFrom(s, key, i + 1)
  }

  /** GetPortNumberFromNetAttachDef: the text after the first "veth", an error when there is none. */
  function PortNumber(nad: string): Result<string> {
    var index := IndexFrom(nad, KEYWORD, 0);
    if index.None? then Err("keyword not found in network attachment name")
    else if index.value + |KEYWORD| == |nad| then Err("port number not found after keyword")
    else Ok(nad[index.value + |KEYWORD|..])
  }

  ghost predicate FirstOccurs(s: string, key: string, i: nat) {
    OccursAt(s, key, i) && forall j | 0 <= j < i :: !OccursAt(s, key, j)
  }

  /**
    Whatever the interface is called, its port number is the text after the first "veth" in its name, and there is
    none exactly if "veth" does not occur, or first occurs at the very end.
   */
  lemma PortNumberExactly(nad: string, port: string)
    ensures PortNumber(nad) == Ok(port) <==>
            port != "" && exists i: nat :: FirstOccurs(nad, "veth", i) && nad == nad[..i] + "veth" + port
    ensures PortNumber(nad).Err? <==>
            !Occurs(nad, "veth")
            || (|nad| >= 4 && FirstOccurs(nad, "veth", |nad| - 4))
  {
    var index := IndexFrom(nad, KEYWORD, 0);
    if index.Some? {
      var i := index.value;
      assert nad == nad[..i] + nad[i..i + 4] + nad[i + 4..];
    }
  }

  function NadName(overlay: string, i: nat): string {
    overlay + "-veth" + Decimal(i)
  }

  /** The names buildNetworkAttachmentDefinitions gives to the interfaces of one overlay. */
  method BuildNames(overlay: string, interfaceNumber: int) returns (names: seq<string>)
    ensures |names| == if interfaceNumber < 0 then 0 else interfaceNumber
    ensures forall i | 0 <= i < |names| :: names[i] == overlay + "-veth" + Decimal(i + 1)
  {
    names := [];
    var i := 1;
    while i <= interfaceNumber
      invariant |names| == i - 1
      invariant i <= interfaceNumber + 1 || i == 1
      invariant forall j | 0 <= j < |names| :: names[j] == NadName(overlay, j + 1)
    {
      names := names + [NadName(overlay, i)];
      i := i + 1;
    }
  }

  /** An occurrence that ends within the stem is one of the stem. */
  lemma OccursInStem(stem: string, tail: string, j: nat)
    requires j + |KEYWORD| <= |stem|
    ensures OccursAt(stem + tail, KEYWORD, j) == OccursAt(stem, KEYWORD, j)
  {
    assert (stem + tail)[j..j + |KEYWORD|] == stem[j..j + |KEYWORD|];
  }

  /** The dash keeps the keyword from straddling the end of the overlay's name. */
  lemma OccursBeforeDash(overlay: string, j: nat)
    requires j <= |overlay|
    ensures OccursAt(overlay + "-veth", KEYWORD, j) == OccursAt(overlay, KEYWORD, j)
  {
    var stem := overlay + "-veth";
    if j + 4 <= |overlay| {
      assert stem[j..j + 4] == overlay[j..j + 4];
    } else {
      assert stem[j..j + 4][|overlay| - j] == '-';
      assert KEYWORD[|overlay| - j] != '-';
    }
  }

  /** Where the keyword is found in an interface name: the same place for every interface of the overlay. */
  lemma KeywordPlace(overlay: string, i: nat) returns (f: nat)
    ensures f <= |overlay| + 1
    ensures IndexFrom(overlay + "-veth", KEYWORD, 0) == Some(f)
    ensures PortNumber(NadName(overlay, i)) == Ok((overlay + "-veth")[f + 4..] + Decimal(i))
    ensures f == |overlay| + 1 <==> !Occurs(overlay, KEYWORD)
  {
    var stem := overlay + "-veth";
    hide Decimal, IndexFrom;
    assert OccursAt(stem, KEYWORD, |overlay| + 1);
    f := IndexFrom(stem, KEYWORD, 0).value;
    forall j: nat | j <= |overlay| + 1
      ensures OccursAt(stem + Decimal(i), KEYWORD, j) == OccursAt(stem, KEYWORD, j)
    {
      OccursInStem(stem, Decimal(i), j);
    }
    forall j: nat | j <= |overlay|
      ensures OccursAt(stem, KEYWORD, j) == OccursAt(overlay, KEYWORD, j)
    {
      OccursBeforeDash(overlay, j);
    }
    hide OccursAt;
    SameIndex(stem + Decimal(i), f);
    assert (stem + Decimal(i))[f + 4..] == stem[f + 4..] + Decimal(i);
  }

  lemma SameIndex(s: string, f: nat)
    requires f <= |s| && OccursAt(s, KEYWORD, f) && forall j | 0 <= j < f :: !OccursAt(s, KEYWORD, j)
    ensures IndexFrom(s, KEYWORD, 0) == Some(f)
  {
  }

  /** The port number read back is the interface's own exactly when the overlay's name does not contain "veth". */
  lemma PortRoundTrip(overlay: string, i: nat)
    ensures PortNumber(NadName(overlay, i)) == Ok(Decimal(i)) <==> !Occurs(overlay, KEYWORD)
  {
    hide PortNumber, Decimal, IndexFrom;
    var f := KeywordPlace(overlay, i);
    var rest := (overlay + "-veth")[f + 4..];
    assert |rest| == |overlay| + 1 - f;
    if |rest| == 0 {
      assert rest + Decimal(i) == Decimal(i);
    } else {
      assert |rest + Decimal(i)| > |Decimal(i)|;
    }
  }

  /** Whatever the overlay is called, distinct interfaces have distinct names and distinct ports. */
  lemma PortsDistinct(overlay: string, i: nat, j: nat)
    requires i != j
    ensures NadName(overlay, i) != NadName(overlay, j)
    ensures PortNumber(NadName(overlay, i)).Ok? && PortNumber(NadName(overlay, j)).Ok?
    ensures PortNumber(NadName(overlay, i)) != PortNumber(NadName(overlay, j))
  {
    var f := KeywordPlace(overlay, i);
    var g := KeywordPlace(overlay, j);
    var rest := (overlay + "-veth")[f + 4..];
    var a, b := rest + Decimal(i), rest + Decimal(j);
    if a == b {
      assert a[|rest|..] == Decimal(i) && b[|rest|..] == Decimal(j);
      DecimalInjective(i, j);
    }
  }
}

/**
  The text of a network annotation (internal/networkannotation/networkannotation.go): a JSON list, or names between
  commas. JSON itself is a parameter: an encoder, and a decoder that may fill in entries before it fails.
*/
module NetworkAnnotations {
  import opened Text

  datatype Entry = Entry(name: string, namespace: string, ips: seq<string>, ifname: string)

  datatype Decoded = Decoded(entries: seq<Entry>, ok: bool)

  datatype Json = Json(encode: seq<Entry> -> string, decode: string -> Decoded)
  {
    ghost predicate RoundTrips() {
      forall l :: decode(encode(l)) == Decoded(l, true)
    }
  }

  // ---------- strings.TrimSpace ----------

  /** Unicode's white space. */
  predicate IsSpace(c: char) {
    var n := c as int;
    9 <= n <= 13 || n == 32 || n == 0x85 || n == 0xA0 || n == 0x1680 || 0x2000 <= n <= 0x200A
    || n == 0x2028 || n == 0x2029 || n == 0x202F || n == 0x205F || n == 0x3000
  }

  predicate Blank(s: string) {
    forall i | 0 <= i < |s| :: IsSpace(s[i])
  }

  /** A text that neither starts nor ends with white space. */
  predicate Tight(s: string) {
    s != [] ==> !IsSpace(s[0]) && !IsSpace(s[|s| - 1])
  }

  function Trim(s: string): (t: string)
    ensures Tight(t)
    ensures t == "" <==> Blank(s)
  {
    if s == [] then s
    else if IsSpace(s[0]) then
      assert forall i | 1 <= i < |s| :: s[1..][i - 1] == s[i];
      Trim(s[1..])
    else if IsSpace(s[|s| - 1]) then
      assert s[..|s| - 1][0] == s[0];
      Trim(s[..|s| - 1])
    else s
  }

  /** Trimming takes away exactly the white space around a text. */
  lemma {:induction false} TrimPadded(a: string, t: string, b: string)
    requires Blank(a) && Blank(b) && Tight(t)
    ensures Trim(a + t + b) == t
    decreases |a| + |b|
  {
    var s := a + t + b;
    if a != [] {
      TrimPadded(a[1..], t, b);
      assert s[1..] == a[1..] + t + b;
    } else if t == [] {
      assert s == b;
      assert Blank(s);
    } else if b != [] {
      TrimPadded(a, t, b[..|b| - 1]);
      assert s[..|s| - 1] == a + t + b[..|b| - 1];
    } else {
      assert s == t;
    }
  }

  // ---------- ExtractNetworks ----------

  function Named(names: seq<string>): seq<Entry> {
    if names == [] then []
    else
      var name := Trim(names[|names| - 1]);
      Named(names[..|names| - 1]) + if name != "" then [Entry(name, "", [], "")] else []
  }

  function Rehomed(l: seq<Entry>, namespace: string): seq<Entry> {
    seq(|l|, i requires 0 <= i < |l| => l[i].(namespace := namespace))
  }

  function Extracted(json: Json, annotations: string, namespace: string): seq<Entry> {
    var d := json.decode(annotations);
    Rehomed(d.entries + if d.ok then [] else Named(Split(annotations, ',')), namespace)
  }

  method ExtractNetworks(json: Json, annotations: string, namespace: string) returns (networks: seq<Entry>)
    ensures networks == Extracted(json, annotations, namespace)
  {
    var d := json.decode(annotations);
    networks := d.entries;
    if !d.ok {
      var names := Split(annotations, ',');
      for i := 0 to |names|
        invariant networks == d.entries + Named(names[..i])
      {
        assert names[..i + 1][..i] == names[..i];
        var name := Trim(names[i]);
        if name != "" {
          networks := networks + [Entry(name, "", [], "")];
        }
      }
      assert names[..|names|] == names;
    }
    ghost var read := networks;
    for i := 0 to |networks|
      invariant |networks| == |read|
      invariant forall j | 0 <= j < |read| :: networks[j] == if j < i then read[j].(namespace := namespace) else read[j]
    {
      networks := networks[i := networks[i].(namespace := namespace)];
    }
  }

  /** A written list reads back as itself, entry by entry, up to the namespace the reader puts in. */
  lemma WrittenReadsBack(json: Json, l: seq<Entry>, namespace: string)
    requires json.RoundTrips()
    ensures Extracted(json, json.encode(l), namespace) == Rehomed(l, namespace)
  {
    assert json.decode(json.encode(l)).entries + [] == l;
  }

  /** Renaming one entry of what was read, writing it and reading it again changes that name and nothing else. */
  lemma RenameReadsBack(json: Json, annotations: string, namespace: string, i: nat, target: string)
    requires json.RoundTrips() && i < |Extracted(json, annotations, namespace)|
    ensures var l := Extracted(json, annotations, namespace);
            var l' := l[i := l[i].(name := target)];
            Extracted(json, json.encode(l'), namespace) == l'
  {
    var l := Extracted(json, annotations, namespace);
    var l' := l[i := l[i].(name := target)];
    WrittenReadsBack(json, l', namespace);
    assert Rehomed(l', namespace) == l';
  }

  /** What the decoder accepts is read entry by entry, with the reader's namespace. */
  lemma DecodedReads(json: Json, annotations: string, namespace: string, i: nat)
    requires json.decode(annotations).ok
    ensures var l, entries := Extracted(json, annotations, namespace), json.decode(annotations).entries;
            && |l| == |entries|
            && (i < |l| ==> l[i] == Entry(entries[i].name, namespace, entries[i].ips, entries[i].ifname))
  {
    assert json.decode(annotations).entries + [] == json.decode(annotations).entries;
  }

  /** The positions of the fields that hold anything, in order. */
  ghost predicate Filled(fields: seq<string>, at: seq<nat>) {
    && (forall i, j | 0 <= i < j < |at| :: at[i] < at[j])
    && (forall k: nat :: k in at <==> k < |fields| && !Blank(fields[k]))
  }

  /**
    Fields between commas: after the entries the decoder filled in before it failed, each field that is not blank
    reads as the name it holds, without the white space around it; blank fields read as nothing.
   */
  lemma NamesReadBack(json: Json, fields: seq<string>, at: seq<nat>, namespace: string)
    requires fields != [] && forall i | 0 <= i < |fields| :: ',' !in fields[i]
    requires Filled(fields, at) && !json.decode(Join(fields, ',')).ok
    ensures var l, before := Extracted(json, Join(fields, ','), namespace), json.decode(Join(fields, ',')).entries;
            && |l| == |before| + |at|
            && (forall i | 0 <= i < |before| :: l[i] == before[i].(namespace := namespace))
            && forall i | 0 <= i < |at| ::
                 at[i] < |fields| && l[|before| + i] == Entry(Trim(fields[at[i]]), namespace, [], "")
  {
    hide Split, Trim, Named, Join, Filled;
    SplitJoin(fields, ',');
    NamedFilled(fields, at);
  }

  lemma {:induction false} NamedFilled(fields: seq<string>, at: seq<nat>)
    requires Filled(fields, at)
    ensures |Named(fields)| == |at|
    ensures forall i | 0 <= i < |at| :: at[i] < |fields| && Named(fields)[i] == Entry(Trim(fields[at[i]]), "", [], "")
  {
    hide Trim, Named;
    if fields == [] {
      NamedNone(fields);
      if at != [] {
        FilledIn(fields, at, at[0]);
      }
    } else {
      var n := |fields| - 1;
      NamedStep(fields);
      if Blank(fields[n]) {
        FilledFront(fields, at);
        NamedFilled(fields[..n], at);
        assert forall i | 0 <= i < |at| :: fields[..n][at[i]] == fields[at[i]];
      } else {
        FilledBack(fields, at);
        var front := at[..|at| - 1];
        NamedFilled(fields[..n], front);
        assert forall i | 0 <= i < |front| :: at[i] == front[i] && fields[..n][front[i]] == fields[front[i]];
      }
    }
  }

  lemma FilledIn(fields: seq<string>, at: seq<nat>, k: nat)
    requires Filled(fields, at) && k in at
    ensures k < |fields|
  {
  }

  lemma FilledFront(fields: seq<string>, at: seq<nat>)
    requires Filled(fields, at) && fields != [] && Blank(fields[|fields| - 1])
    ensures Filled(fields[..|fields| - 1], at)
  {
    hide Blank;
    var front := fields[..|fields| - 1];
    forall k: nat
      ensures k in at <==> k < |front| && !Blank(front[k])
    {
      assert k in at <==> k < |fields| && !Blank(fields[k]);
    }
  }

  lemma FilledBack(fields: seq<string>, at: seq<nat>)
    requires Filled(fields, at) && fields != [] && !Blank(fields[|fields| - 1])
    ensures at != [] && at[|at| - 1] == |fields| - 1 && Filled(fields[..|fields| - 1], at[..|at| - 1])
  {
    hide Blank;
    var n := |fields| - 1;
    assert n in at;
    var m := |at| - 1;
    var k: nat :| k < |at| && at[k] == n;
    assert at[m] in at;
    assert k == m;
    var front := at[..m];
    forall k: nat
      ensures k in front <==> k < n && !Blank(fields[..n][k])
    {
      assert k in at <==> k < |fields| && !Blank(fields[k]);
      assert at == front + [n];
      assert forall i | 0 <= i < m :: at[i] < n;
      if k in front {
        var i: nat :| i < m && front[i] == k;
        assert at[i] == k;
      }
    }
  }

  lemma NamedNone(names: seq<string>)
    requires names == []
    ensures Named(names) == []
  {
  }

  lemma NamedStep(names: seq<string>)
    requires names != []
    ensures var last := names[|names| - 1];
            Named(names) == Named(names[..|names| - 1]) + if Blank(last) then [] else [Entry(Trim(last), "", [], "")]
  {
    hide Blank;
  }
}

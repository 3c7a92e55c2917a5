/** Decimal notation and the string splitting that addresses and port names rely on. */
module Text {

  predicate IsDigit(c: char) {
    '0' <= c <= '9'
  }

  predicate IsNumeral(s: string) {
    s != [] && forall i | 0 <= i < |s| :: IsDigit(s[i])
  }

  /** A numeral without superfluous leading zeros. */
  predicate IsCanonical(s: string) {
    IsNumeral(s) && (|s| == 1 || s[0] != '0')
  }

  function Digit(d: nat): (c: char)
    requires d < 10
  {
    ('0' as int + d) as char
  }

  function DigitValue(c: char): (d: nat)
    requires IsDigit(c)
    ensures d < 10 && Digit(d) == c
  {
    c as int - '0' as int
  }

  /** The decimal notation of n, as "%d" prints it. */
  function Decimal(n: nat): (s: string)
    ensures IsCanonical(s)
    ensures n > 0 ==> s[0] != '0'
  {
    if n < 10 then [Digit(n)] else Decimal(n / 10) + [Digit(n % 10)]
  }

  /** The number a numeral denotes, leading zeros allowed. */
  function Value(s: string): nat
    requires IsNumeral(s)
  {
    if |s| == 1 then DigitValue(s[0])
    else Value(s[..|s| - 1]) * 10 + DigitValue(s[|s| - 1])
  }

  lemma {:induction false} ValueOfDecimal(n: nat)
    ensures Value(Decimal(n)) == n
  {
    if n >= 10 {
      ValueOfDecimal(n / 10);
      assert Decimal(n)[..|Decimal(n)| - 1] == Decimal(n / 10);
    }
  }

  lemma {:induction false} DecimalOfValue(s: string)
    requires IsCanonical(s)
    ensures Decimal(Value(s)) == s
    ensures |s| > 1 ==> Value(s) > 0
  {
    if |s| > 1 {
      var front := s[..|s| - 1];
      DecimalOfValue(front);
      assert s == front + [s[|s| - 1]];
      if |s| == 2 {
        assert Value(front) == DigitValue(s[0]) != 0;
      }
    }
  }

  lemma DecimalInjective(m: nat, n: nat)
    requires Decimal(m) == Decimal(n)
    ensures m == n
  {
    ValueOfDecimal(m);
    ValueOfDecimal(n);
  }

  /** The position of the first c in s, or |s| when there is none. */
  function IndexOf(s: string, c: char): (i: nat)
    ensures i <= |s|
    ensures c !in s[..i]
    ensures i < |s| ==> s[i] == c
  {
    if s == [] || s[0] == c then 0
    else
      assert forall j | 0 <= j < IndexOf(s[1..], c) :: s[1..][j] == s[1..][..IndexOf(s[1..], c)][j];
      1 + IndexOf(s[1..], c)
  }

  lemma IndexAfter(a: string, c: char, rest: string)
    requires c !in a
    ensures IndexOf(a + [c] + rest, c) == |a|
  {
    var s := a + [c] + rest;
    var i := IndexOf(s, c);
    assert s[|a|] == c;
    assert forall j | 0 <= j < |a| :: s[j] == a[j] != c;
    assert forall j | 0 <= j < i :: s[j] == s[..i][j] != c;
  }

  /** The fields of s between occurrences of c. */
  function Split(s: string, c: char): (fields: seq<string>)
    ensures fields != []
    decreases |s|
  {
    var i := IndexOf(s, c);
    if i == |s| then [s] else [s[..i]] + Split(s[i + 1..], c)
  }

  lemma SplitField(a: string, c: char, rest: string)
    requires c !in a
    ensures Split(a + [c] + rest, c) == [a] + Split(rest, c)
  {
    IndexAfter(a, c, rest);
    var s := a + [c] + rest;
    assert s[..|a|] == a && s[|a| + 1..] == rest;
  }

  lemma SplitLast(a: string, c: char)
    requires c !in a
    ensures Split(a, c) == [a]
  {
    assert forall j | 0 <= j < |a| :: a[j] != c;
  }

  /** Joining the fields with c gives s back. */
  function Join(fields: seq<string>, c: char): string
    requires fields != []
  {
    if |fields| == 1 then fields[0] else fields[0] + [c] + Join(fields[1..], c)
  }

  lemma {:induction false} JoinSplit(s: string, c: char)
    ensures Join(Split(s, c), c) == s
    decreases |s|
  {
    hide IndexOf;
    var i := IndexOf(s, c);
    if i < |s| {
      JoinSplit(s[i + 1..], c);
      assert Split(s, c) == [s[..i]] + Split(s[i + 1..], c);
      hide Split;
      assert Split(s, c)[1..] == Split(s[i + 1..], c);
      assert s == s[..i] + [c] + s[i + 1..];
    }
  }

  /** Fields without c are what splitting their join gives back. */
  lemma {:induction false} SplitJoin(fields: seq<string>, c: char)
    requires fields != [] && forall f | f in fields :: c !in f
    ensures Split(Join(fields, c), c) == fields
  {
    hide Split, IndexOf;
    assert fields[0] in fields;
    if |fields| == 1 {
      SplitLast(fields[0], c);
      assert fields == [fields[0]];
    } else {
      SplitJoin(fields[1..], c);
      SplitField(fields[0], c, Join(fields[1..], c));
      assert fields == [fields[0]] + fields[1..];
    }
  }

  lemma SameEnding(a: string, b: string, end: string)
    ensures a + end == b + end ==> a == b
  {
    assert (a + end)[..|a|] == a && (b + end)[..|b|] == b;
    assert |a + end| - |end| == |a| && |b + end| - |end| == |b|;
  }
}

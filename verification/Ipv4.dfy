/**
  IPv4 addresses in their three forms: four bytes, a 32-bit number, and dotted decimal text;
  and CIDR notation (section 3.1 of RFC 4632).
*/
module Ipv4 {
  import opened Wrappers
  import opened Text

  type Byte = x: int | 0 <= x < 256

  type Address = a: seq<Byte> | |a| == 4 witness [0, 0, 0, 0]

  /** An address of either family. */
  type Ip = a: seq<Byte> | |a| == 4 || |a| == 16 witness [0, 0, 0, 0]

  const TWO32: int := 0x1_0000_0000

  type Word = n: int | 0 <= n < 0x1_0000_0000

  // ---------- bytes and numbers ----------

  /** The big-endian reading of the four bytes. */
  function ToWord(a: Address): Word {
    var w: seq<int> := a;
    w[0] * 0x100_0000 + w[1] * 0x1_0000 + w[2] * 0x100 + w[3]
  }

  function OfWord(n: Word): Address {
    [n / 0x100_0000, n / 0x1_0000 % 0x100, n / 0x100 % 0x100, n % 0x100]
  }

  lemma WordRoundTrip(n: Word)
    ensures ToWord(OfWord(n)) == n
  {
    var m: int := n;
    assert m / 0x100 / 0x100 == m / 0x1_0000;
    assert m / 0x1_0000 / 0x100 == m / 0x100_0000;
  }

  lemma BytesRoundTrip(a: Address)
    ensures OfWord(ToWord(a)) == a
  {
    var n: int := ToWord(a);
    var w: seq<int> := a;
    assert n / 0x100 == w[0] * 0x1_0000 + w[1] * 0x100 + w[2];
    assert n / 0x1_0000 == w[0] * 0x100 + w[1];
    assert n / 0x100_0000 == w[0];
    assert OfWord(n) == [a[0], a[1], a[2], a[3]];
  }

  // ---------- text ----------

  function Dotted(a: Address): (s: string) {
    Decimal(a[0]) + "." + (Decimal(a[1]) + "." + (Decimal(a[2]) + "." + Decimal(a[3])))
  }

  predicate IsOctet(field: string) {
    IsCanonical(field) && Value(field) < 256
  }

  /** The address a text denotes; like net.ParseIP, leading zeros are refused. */
  function ParseAddress(s: string): Option<Address> {
    var f := Split(s, '.');
    if |f| == 4 && IsOctet(f[0]) && IsOctet(f[1]) && IsOctet(f[2]) && IsOctet(f[3])
    then Some([Value(f[0]), Value(f[1]), Value(f[2]), Value(f[3])])
    else None
  }

  lemma NoDot(n: nat)
    ensures '.' !in Decimal(n) && '/' !in Decimal(n)
  {
    var s := Decimal(n);
    assert forall i | 0 <= i < |s| :: IsDigit(s[i]);
  }

  lemma DottedFields(a: Address)
    ensures Split(Dotted(a), '.') == [Decimal(a[0]), Decimal(a[1]), Decimal(a[2]), Decimal(a[3])]
  {
    hide Decimal, Split;
    NoDot(a[0]);
    NoDot(a[1]);
    NoDot(a[2]);
    NoDot(a[3]);
    SplitLast(Decimal(a[3]), '.');
    SplitField(Decimal(a[2]), '.', Decimal(a[3]));
    SplitField(Decimal(a[1]), '.', Decimal(a[2]) + "." + Decimal(a[3]));
    var tail := Decimal(a[1]) + "." + (Decimal(a[2]) + "." + Decimal(a[3]));
    SplitField(Decimal(a[0]), '.', tail);
    assert Dotted(a) == Decimal(a[0]) + "." + tail;
  }

  lemma ParseDotted(a: Address)
    ensures ParseAddress(Dotted(a)) == Some(a)
  {
    DottedFields(a);
    ValueOfDecimal(a[0]);
    ValueOfDecimal(a[1]);
    ValueOfDecimal(a[2]);
    ValueOfDecimal(a[3]);
    assert a == [a[0], a[1], a[2], a[3]];
  }

  /** Exactly one text denotes each address: parsing succeeds on it and on nothing else. */
  lemma ParseExactly(s: string, a: Address)
    ensures ParseAddress(s) == Some(a) <==> s == Dotted(a)
  {
    ParseDotted(a);
    if ParseAddress(s) == Some(a) {
      var f := Split(s, '.');
      DecimalOfValue(f[0]);
      DecimalOfValue(f[1]);
      DecimalOfValue(f[2]);
      DecimalOfValue(f[3]);
      JoinSplit(s, '.');
      JoinFour(f, '.');
      assert s == Dotted(a);
    }
  }

  lemma JoinFour(f: seq<string>, c: char)
    requires |f| == 4
    ensures Join(f, c) == f[0] + [c] + (f[1] + [c] + (f[2] + [c] + f[3]))
  {
    assert f[1..][1..] == f[2..];
    assert f[2..][1..] == f[3..];
    assert Join(f[3..], c) == f[3];
    assert Join(f[2..], c) == f[2] + [c] + f[3];
    assert Join(f[1..], c) == f[1] + [c] + (f[2] + [c] + f[3]);
  }

  lemma DottedInjective(a: Address, b: Address)
    requires Dotted(a) == Dotted(b)
    ensures a == b
  {
    ParseDotted(a);
    ParseDotted(b);
  }

  lemma DottedStart(a: Address)
    ensures Dotted(a) != [] && IsDigit(Dotted(a)[0])
    ensures '/' !in Dotted(a)
  {
    NoDot(a[0]);
    NoDot(a[1]);
    NoDot(a[2]);
    NoDot(a[3]);
    assert Dotted(a)[0] == Decimal(a[0])[0];
  }

  // ---------- CIDR notation ----------

  datatype Cidr = Cidr(ip: Address, prefix: nat)

  /** An address, a slash and a prefix length of at most 32. */
  function ParseCidr(s: string): (r: Option<Cidr>)
    ensures r.Some? ==> r.value.prefix <= 32
  {
    var i := IndexOf(s, '/');
    if i == |s| then None
    else
      var ip := ParseAddress(s[..i]);
      var length := s[i + 1..];
      if ip.Some? && IsNumeral(length) && Value(length) <= 32
      then Some(Cidr(ip.value, Value(length)))
      else None
  }

  /** A text is read as a CIDR exactly if it is an address, a slash and a numeral for the prefix length, up to 32. */
  lemma ParseCidrExactly(s: string, c: Cidr)
    ensures ParseCidr(s) == Some(c) <==>
            c.prefix <= 32 && exists length :: IsNumeral(length) && Value(length) == c.prefix
                                               && s == Dotted(c.ip) + "/" + length
  {
    hide Dotted, IsNumeral, Value, ParseAddress;
    DottedStart(c.ip);
    ParseDotted(c.ip);
    if length :| IsNumeral(length) && Value(length) == c.prefix && s == Dotted(c.ip) + "/" + length {
      IndexAfter(Dotted(c.ip), '/', length);
      assert s == Dotted(c.ip) + ['/'] + length;
      assert s[..|Dotted(c.ip)|] == Dotted(c.ip) && s[|Dotted(c.ip)| + 1..] == length;
    }
    var i := IndexOf(s, '/');
    if ParseCidr(s) == Some(c) {
      ParseExactly(s[..i], c.ip);
      assert s == s[..i] + "/" + s[i + 1..];
    }
  }

  function PrefixText(prefix: nat): string {
    "/" + Decimal(prefix)
  }

  /** What the allocators write into an annotation parses back to the same address and prefix. */
  lemma ParseWritten(a: Address, prefix: nat)
    requires prefix <= 32
    ensures ParseCidr(Dotted(a) + PrefixText(prefix)) == Some(Cidr(a, prefix))
  {
    var s := Dotted(a) + PrefixText(prefix);
    DottedStart(a);
    assert s == Dotted(a) + ['/'] + Decimal(prefix);
    IndexAfter(Dotted(a), '/', Decimal(prefix));
    assert s[..|Dotted(a)|] == Dotted(a);
    assert s[|Dotted(a)| + 1..] == Decimal(prefix);
    ParseDotted(a);
    ValueOfDecimal(prefix);
  }
}

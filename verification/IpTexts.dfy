/**
  Addresses of both families as texts. The notation of IPv6 is a parameter: how the library reads and prints the
  sixteen-byte addresses.
*/
module IpTexts {
  import opened Wrappers
  import opened Text
  import opened Ipv4

  type Ip6 = a: seq<Byte> | |a| == 16 witness seq(16, _ => 0)

  datatype V6 = V6(parse: string -> Option<Ip>, show: Ip6 -> string)
  {
    /** Every IPv6 address is printed with a colon and without a slash, and reads back. */
    ghost predicate Lawful() {
      forall a: Ip6 :: parse(show(a)) == Some(a) && ':' in show(a) && '/' !in show(a)
    }
  }

  /** net.IP.String. */
  function IpText(v6: V6, a: Ip): string {
    if |a| == 4 then Dotted(a) else v6.show(a)
  }

  /** net.ParseIP. */
  function ReadAddress(v6: V6, s: string): Option<Ip> {
    var a := ParseAddress(s);
    if a.Some? then Some(a.value) else v6.parse(s)
  }

  datatype IpCidr = IpCidr(ip: Ip, prefix: nat)

  /** net.ParseCIDR. */
  function ReadCidr(v6: V6, s: string): (r: Option<IpCidr>)
    ensures r.Some? ==> r.value.prefix <= 8 * |r.value.ip|
    ensures ParseCidr(s).Some? ==> r == Some(IpCidr(ParseCidr(s).value.ip, ParseCidr(s).value.prefix))
  {
    var c := ParseCidr(s);
    var i := IndexOf(s, '/');
    if c.Some? then Some(IpCidr(c.value.ip, c.value.prefix))
    else if i == |s| || ParseAddress(s[..i]).Some? then None
    else
      var ip, length := v6.parse(s[..i]), s[i + 1..];
      if ip.Some? && |ip.value| == 16 && IsNumeral(length) && Value(length) <= 128
      then Some(IpCidr(ip.value, Value(length)))
      else None
  }

  /** An IPv6 address, which is not an IPv4 one, a slash and a numeral for the prefix length, up to 128. */
  ghost predicate IsText6(v6: V6, s: string, c: IpCidr, text: string, length: string) {
    && s == text + "/" + length && '/' !in text
    && ParseAddress(text).None? && v6.parse(text) == Some(c.ip)
    && IsNumeral(length) && Value(length) == c.prefix <= 128
  }

  /** A text is read as a CIDR of sixteen bytes exactly if it is of that kind; of four, exactly if it is an IPv4 one. */
  lemma ReadCidrExactly(v6: V6, s: string, c: IpCidr)
    ensures |c.ip| == 16 ==> (ReadCidr(v6, s) == Some(c) <==> exists text, length :: IsText6(v6, s, c, text, length))
    ensures |c.ip| == 4 ==> (ReadCidr(v6, s) == Some(c) <==> ParseCidr(s) == Some(Cidr(c.ip, c.prefix)))
  {
    hide IsNumeral, Value, ParseAddress;
    if |c.ip| == 16 {
      if text, length :| IsText6(v6, s, c, text, length) {
        ReadsText6(v6, s, c, text, length);
      }
      var i := IndexOf(s, '/');
      if ReadCidr(v6, s) == Some(c) {
        assert IsText6(v6, s, c, s[..i], s[i + 1..]);
      }
    }
  }

  lemma ReadsText6(v6: V6, s: string, c: IpCidr, text: string, length: string)
    requires IsText6(v6, s, c, text, length) && |c.ip| == 16
    ensures ReadCidr(v6, s) == Some(c)
  {
    hide IsNumeral, Value, ParseAddress;
    IndexAfter(text, '/', length);
    assert s == text + ['/'] + length;
    assert s[..|text|] == text && s[|text| + 1..] == length;
  }

  lemma NoColon(a: Address)
    ensures ':' !in Dotted(a)
  {
    forall i | 0 <= i < 4
      ensures ':' !in Decimal(a[i])
    {
      var s := Decimal(a[i]);
      assert forall j | 0 <= j < |s| :: IsDigit(s[j]);
    }
  }

  lemma NotDotted(v6: V6, a: Ip6)
    requires v6.Lawful()
    ensures ParseAddress(v6.show(a)).None?
  {
    hide ParseAddress, Dotted;
    var r := ParseAddress(v6.show(a));
    if r.Some? {
      ParseExactly(v6.show(a), r.value);
      NoColon(r.value);
    }
  }

  /** A written address and prefix length read back, when the length is one of the address's family. */
  lemma ReadWritten(v6: V6, a: Ip, prefix: nat)
    requires prefix <= 8 * |a| && (|a| == 4 || v6.Lawful())
    ensures ReadCidr(v6, IpText(v6, a) + PrefixText(prefix)) == Some(IpCidr(a, prefix))
  {
    if |a| == 4 {
      hide ParseCidr, Dotted, PrefixText;
      ParseWritten(a, prefix);
    } else {
      var text := v6.show(a);
      NotDotted(v6, a);
      Separated(text, prefix);
      hide ParseAddress, Decimal, Dotted, Value, IsNumeral, IndexOf, PrefixText;
    }
  }

  /** Where a text without a slash ends before its prefix length. */
  lemma Separated(text: string, prefix: nat)
    requires '/' !in text
    ensures var s := text + PrefixText(prefix);
            && IndexOf(s, '/') == |text| < |s| && s[..|text|] == text
            && IsNumeral(s[|text| + 1..]) && Value(s[|text| + 1..]) == prefix
  {
    hide Decimal, IndexOf;
    var s := text + PrefixText(prefix);
    assert s == text + ['/'] + Decimal(prefix);
    IndexAfter(text, '/', Decimal(prefix));
    assert s[|text| + 1..] == Decimal(prefix);
    ValueOfDecimal(prefix);
  }

  lemma ReadEmpty(v6: V6)
    ensures ReadCidr(v6, "").None?
  {
  }
}

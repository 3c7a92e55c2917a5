/**
  Subnet membership. The library tests it byte by byte under a mask; the allocators reason about it
  as an interval of 32-bit numbers. The two readings are shown to be the same.
*/
module Subnet {
  import opened Ipv4

  function Pow2(n: nat): (p: nat)
    ensures p > 0
  {
    if n == 0 then 1 else 2 * Pow2(n - 1)
  }

  /** Bitwise conjunction of two n-bit numbers. */
  function And(x: nat, y: nat, n: nat): nat {
    if n == 0 then 0 else 2 * And(x / 2, y / 2, n - 1) + (if x % 2 == 1 && y % 2 == 1 then 1 else 0)
  }

  /** How many low bits of byte i a /prefix mask clears. */
  function Cleared(prefix: nat, i: nat): (z: nat)
    ensures z <= 8
  {
    if prefix >= 8 * (i + 1) then 0 else if prefix <= 8 * i then 8 else 8 * (i + 1) - prefix
  }

  function MaskByte(prefix: nat, i: nat): (m: Byte)
  {
    Pow2Byte(Cleared(prefix, i));
    256 - Pow2(Cleared(prefix, i))
  }

  lemma Pow2Byte(z: nat)
    requires z <= 8
    ensures Pow2(8) == 256 && Pow2(z) <= 256
    ensures Pow2(8 - z) * Pow2(z) == 256
  {
    assert Pow2(8) == 2 * Pow2(7) == 4 * Pow2(6) == 8 * Pow2(5) == 16 * Pow2(4) == 256;
    Pow2Add(8 - z, z);
  }

  lemma {:induction false} Pow2Add(m: nat, n: nat)
    ensures Pow2(m + n) == Pow2(m) * Pow2(n)
  {
    if m > 0 {
      Pow2Add(m - 1, n);
    }
  }

  /** x with its z low bits cleared. */
  function KeepHigh(x: nat, z: nat): (r: nat)
    ensures r == x / Pow2(z) * Pow2(z)
    ensures r + x % Pow2(z) == x
  {
    var d := Pow2(z);
    Divide(x, d);
    x / d * d
  }

  lemma Divide(x: nat, d: nat)
    requires d > 0
    ensures x == x / d * d + x % d && x / d * d >= 0
  {
  }

  // ---------- one byte ----------

  lemma {:induction false} AndOnes(x: nat, n: nat)
    requires x < Pow2(n)
    ensures And(x, Pow2(n) - 1, n) == x
  {
    if n > 0 {
      AndOnes(x / 2, n - 1);
      assert (Pow2(n) - 1) / 2 == Pow2(n - 1) - 1;
    }
  }

  lemma HalfMod(x: nat, d: nat)
    requires d > 0
    ensures x % (2 * d) == 2 * (x / 2 % d) + x % 2
  {
    var q, r := x / 2 / d, x / 2 % d;
    assert x == 2 * (q * d + r) + x % 2;
    Quotient(x, 2 * d, q, 2 * r + x % 2);
  }

  lemma Quotient(n: int, d: int, q: int, r: int)
    requires 0 < d && 0 <= r < d && n == q * d + r
    ensures n / d == q && n % d == r
  {
    var e := n / d - q;
    assert e * d == r - n % d;
    assert e >= 1 ==> e * d >= d;
    assert e <= -1 ==> e * d <= -d;
  }

  /** A mask with z low bits clear rounds down to a multiple of 2^z. */
  lemma {:induction false} AndMask(x: nat, z: nat, n: nat)
    requires z <= n && x < Pow2(n) && Pow2(z) <= Pow2(n)
    ensures And(x, Pow2(n) - Pow2(z), n) == KeepHigh(x, z)
  {
    if z == 0 {
      AndOnes(x, n);
    } else {
      AndMask(x / 2, z - 1, n - 1);
      assert (Pow2(n) - Pow2(z)) / 2 == Pow2(n - 1) - Pow2(z - 1);
      HalfMod(x, Pow2(z - 1));
    }
  }

  function MaskedByte(b: Byte, prefix: nat, i: nat): (r: Byte)
    ensures r == KeepHigh(b, Cleared(prefix, i))
  {
    Pow2Byte(Cleared(prefix, i));
    AndMask(b, Cleared(prefix, i), 8);
    And(b, MaskByte(prefix, i), 8)
  }

  // ---------- whole addresses ----------

  /** The network address of a/prefix. */
  function Masked(a: Ip, prefix: nat): (m: Ip)
    ensures |m| == |a| && forall i | 0 <= i < |a| :: m[i] == MaskedByte(a[i], prefix, i)
  {
    seq(|a|, i requires 0 <= i < |a| => MaskedByte(a[i], prefix, i))
  }

  /** net.IPNet.Contains: addresses of different families are never in one subnet. */
  predicate Contains(net: Ip, prefix: nat, ip: Ip) {
    |net| == |ip| && forall i | 0 <= i < |net| :: MaskedByte(net[i], prefix, i) == MaskedByte(ip[i], prefix, i)
  }

  function Size(prefix: nat): nat
    requires prefix <= 32
  {
    Pow2(32 - prefix)
  }

  lemma ShiftMod(y: nat, b: nat, d: nat)
    requires 0 < d && b < 256
    ensures (256 * y + b) % (256 * d) == 256 * (y % d) + b
  {
    var q, r := y / d, y % d;
    assert 256 * y + b == q * (256 * d) + (256 * r + b);
    Quotient(256 * y + b, 256 * d, q, 256 * r + b);
  }

  lemma LowMod(h: nat, b: nat, z: nat)
    requires z <= 8
    ensures (256 * h + b) % Pow2(z) == b % Pow2(z)
  {
    Pow2Byte(z);
    var d, e := Pow2(z), Pow2(8 - z);
    Divide(b, d);
    MulRearrange(e, d, h, b / d);
    Quotient(256 * h + b, d, e * h + b / d, b % d);
  }

  lemma MulRearrange(e: nat, d: nat, h: nat, q: nat)
    ensures (e * h + q) * d == (e * d) * h + q * d
  {
  }

  lemma Pow2Shift(z: nat)
    ensures Pow2(z + 8) == 256 * Pow2(z)
  {
    Pow2Byte(0);
    Pow2Add(8, z);
  }

  /** Clearing z low bits of 256 * h + b, by bytes: when z <= 8 only b changes, else b vanishes and h is cleared. */
  lemma KeepHighSplit(h: nat, b: nat, z: nat)
    requires b < 256
    ensures z <= 8 ==> KeepHigh(256 * h + b, z) == 256 * h + KeepHigh(b, z)
    ensures z >= 8 ==> KeepHigh(256 * h + b, z) == 256 * KeepHigh(h, z - 8)
  {
    if z <= 8 {
      LowMod(h, b, z);
    }
    if z >= 8 {
      Pow2Shift(z - 8);
      ShiftMod(h, b, Pow2(z - 8));
    }
  }

  lemma KeepHighEdge(b: nat)
    requires b < 256
    ensures KeepHigh(b, 0) == b && KeepHigh(b, 8) == 0
  {
    Pow2Byte(8);
    Quotient(b, 256, 0, b);
    assert Pow2(0) == 1;
  }

  /** How many of z cleared bits fall on the byte above which `below` bits lie. */
  function Share(z: nat, below: nat): (r: nat)
    ensures r <= 8
  {
    if z <= below then 0 else if z >= below + 8 then 8 else z - below
  }

  /** KeepHigh of 256 * h + b, when clearing z - 8 bits of h is known to give k. */
  lemma KeepHighStep(h: nat, b: nat, z: nat, k: nat)
    requires b < 256
    requires k == if z <= 8 then h else KeepHigh(h, z - 8)
    ensures KeepHigh(256 * h + b, z) == 256 * k + KeepHigh(b, Share(z, 0))
  {
    KeepHighSplit(h, b, z);
    KeepHighEdge(b);
  }

  lemma KeepHighBytes(w0: nat, w1: nat, w2: nat, w3: nat, z: nat)
    requires w0 < 256 && w1 < 256 && w2 < 256 && w3 < 256 && z <= 32
    ensures KeepHigh(256 * (256 * (256 * w0 + w1) + w2) + w3, z)
         == 256 * (256 * (256 * KeepHigh(w0, Share(z, 24)) + KeepHigh(w1, Share(z, 16)))
                   + KeepHigh(w2, Share(z, 8))) + KeepHigh(w3, Share(z, 0))
  {
    var k0 := KeepHigh(w0, Share(z, 24));
    var k1 := 256 * k0 + KeepHigh(w1, Share(z, 16));
    var k2 := 256 * k1 + KeepHigh(w2, Share(z, 8));
    KeepHighEdge(w0);
    KeepHighEdge(w1);
    KeepHighEdge(w2);
    if z > 16 {
      KeepHighStep(w0, w1, z - 16, k0);
    }
    if z > 8 {
      KeepHighStep(256 * w0 + w1, w2, z - 8, k1);
    }
    KeepHighStep(256 * (256 * w0 + w1) + w2, w3, z, k2);
  }

  /** Masking rounds the number down to a multiple of the block size. */
  lemma MaskedWord(a: Address, prefix: nat)
    requires prefix <= 32
    ensures ToWord(Masked(a, prefix)) == KeepHigh(ToWord(a), 32 - prefix)
  {
    hide *;
    KeepHighBytes(a[0], a[1], a[2], a[3], 32 - prefix);
    ByBytes(a);
    ByBytes(Masked(a, prefix));
    MaskedShare(a, prefix, 0);
    MaskedShare(a, prefix, 1);
    MaskedShare(a, prefix, 2);
    MaskedShare(a, prefix, 3);
  }

  lemma MaskedShare(a: Address, prefix: nat, i: nat)
    requires prefix <= 32 && i < 4
    ensures Masked(a, prefix)[i] == KeepHigh(a[i], Share(32 - prefix, 24 - 8 * i))
  {
    hide KeepHigh, Masked, MaskedByte;
    assert Cleared(prefix, i) == Share(32 - prefix, 24 - 8 * i);
  }

  lemma ByBytes(a: Address)
    ensures var w: seq<int> := a;
            ToWord(a) == 256 * (256 * (256 * w[0] + w[1]) + w[2]) + w[3]
  {
  }

  lemma KeepHighTwice(x: nat, z: nat)
    ensures KeepHigh(KeepHigh(x, z), z) == KeepHigh(x, z)
  {
    var d := Pow2(z);
    Quotient(KeepHigh(x, z), d, x / d, 0);
  }

  lemma SameBlock(x: nat, y: nat, z: nat)
    ensures KeepHigh(x, z) == KeepHigh(y, z) <==> KeepHigh(x, z) <= y < KeepHigh(x, z) + Pow2(z)
  {
    var d := Pow2(z);
    var base := KeepHigh(x, z);
    if base <= y < base + d {
      Quotient(y, d, x / d, y - base);
    }
  }

  /** The byte-wise mask test is membership of the integer interval [net, net + 2^(32-prefix)). */
  lemma ContainsIsInterval(a: Address, prefix: nat, ip: Address)
    requires prefix <= 32
    ensures var net := Masked(a, prefix);
            Contains(net, prefix, ip) <==> ToWord(net) <= ToWord(ip) < ToWord(net) + Size(prefix)
  {
    hide *;
    ContainsIsSame(a, prefix, ip);
    SameNetwork(Masked(a, prefix), Masked(ip, prefix));
    WordBlock(a, prefix, ip);
  }

  lemma WordBlock(a: Address, prefix: nat, ip: Address)
    requires prefix <= 32
    ensures var net: int := ToWord(Masked(a, prefix));
            net == ToWord(Masked(ip, prefix)) <==> net <= ToWord(ip) < net + Size(prefix)
  {
    hide ToWord, KeepHigh, Masked, Pow2;
    MaskedWord(a, prefix);
    MaskedWord(ip, prefix);
    SameBlock(ToWord(a), ToWord(ip), 32 - prefix);
  }

  /** An address is in the block of another exactly when both have the same network address. */
  lemma ContainsIsSame(a: Ip, prefix: nat, ip: Ip)
    ensures Contains(Masked(a, prefix), prefix, ip) <==> Masked(a, prefix) == Masked(ip, prefix)
  {
    hide KeepHigh, Cleared, Masked;
    var m, n := Masked(a, prefix), Masked(ip, prefix);
    forall i | 0 <= i < |a|
      ensures MaskedByte(m[i], prefix, i) == m[i]
    {
      KeepHighTwice(a[i], Cleared(prefix, i));
    }
    hide MaskedByte;
    if |a| == |ip| {
      assert Contains(m, prefix, ip) <==> forall i | 0 <= i < |a| :: m[i] == n[i];
    }
  }

  lemma SameNetwork(a: Address, b: Address)
    ensures a == b <==> ToWord(a) == ToWord(b)
    ensures a == b <==> a[0] == b[0] && a[1] == b[1] && a[2] == b[2] && a[3] == b[3]
  {
    BytesRoundTrip(a);
    BytesRoundTrip(b);
  }

  /** A block ends before 2^32 and holds the addresses it was named by. */
  lemma BlockFits(a: Address, prefix: nat)
    requires prefix <= 32
    ensures ToWord(Masked(a, prefix)) + Size(prefix) <= TWO32
    ensures ToWord(Masked(a, prefix)) <= ToWord(a) < ToWord(Masked(a, prefix)) + Size(prefix)
    ensures Size(prefix) <= TWO32
  {
    hide ToWord, Masked, Pow2;
    MaskedWord(a, prefix);
    Pow2Add(prefix, 32 - prefix);
    Pow2Word();
    MultipleBelow(ToWord(a), Size(prefix), Pow2(prefix));
  }

  lemma Pow2Word()
    ensures Pow2(32) == TWO32
  {
    Pow2Byte(0);
    Pow2Shift(8);
    Pow2Shift(16);
    Pow2Shift(24);
  }

  lemma MultipleBelow(x: nat, d: nat, e: nat)
    requires d > 0 && e > 0 && x < e * d
    ensures x / d * d + d <= e * d && d <= e * d
  {
    Divide(x, d);
    var q := x / d;
    assert q >= e ==> q * d >= e * d;
    assert (q + 1) * d <= e * d;
  }
}

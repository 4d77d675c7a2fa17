/** IPv4 addresses and CIDR ranges in dotted-decimal text, as far as the
    relay uses ipaddr.js: `ipaddr.parse` on an A record's data,
    `ipaddr.parseCIDR` on one line of the provider's list, and `match`
    between the two (node-functions/dns-query.js, lines 109-111). */
module Ipv4 {

  import opened Wrappers
  import opened Text

  /** An IPv4 address as its 32-bit value, most significant octet first. */
  type Addr = x: nat | x < 0x1_0000_0000

  type Octet = x: nat | x < 256

  /** The `n` of `a.b.c.d/n`. */
  type PrefixLength = n: nat | n <= 32

  /** A range `network/prefix`; the network's bits below the prefix are
      allowed to be set, as ipaddr.js allows them. */
  datatype Cidr = Cidr(network: Addr, prefix: PrefixLength)

  function Pow2(k: nat): (p: nat)
    ensures p >= 1
  {
    if k == 0 then 1 else 2 * Pow2(k - 1)
  }

  /** Bit `j` of `x`, bit 0 being the least significant. */
  function Bit(x: nat, j: nat): nat
  {
    (x / Pow2(j)) % 2
  }

  /** The address whose four octets, most significant first, are `a.b.c.d`. */
  function FromOctets(a: Octet, b: Octet, c: Octet, d: Octet): Addr
  {
    a * 16777216 + b * 65536 + c * 256 + d
  }

  /** The decimal text of an octet, without leading zeros. */
  function OctetText(v: Octet): (t: string)
    ensures 1 <= |t| <= 3 && AllDigits(t)
  {
    if v < 10 then [DigitChar(v)]
    else if v < 100 then [DigitChar(v / 10), DigitChar(v % 10)]
    else [DigitChar(v / 100), DigitChar((v / 10) % 10), DigitChar(v % 10)]
  }

  /** One part of a dotted-decimal address: decimal digits, at most 255,
      and no leading zero (ipaddr.js would read a leading zero as octal,
      a form this model does not accept). */
  function ParseOctet(t: string): Option<Octet>
  {
    if t != [] && AllDigits(t) && (|t| == 1 || t[0] != '0') && DecimalValue(t) < 256
    then Some(DecimalValue(t))
    else None
  }

  /** `ipaddr.parse` restricted to four-part dotted decimal. */
  function ParseAddress(s: string): Option<Addr>
  {
    var parts := Split(s, '.');
    if |parts| != 4 then None
    else
      match (ParseOctet(parts[0]), ParseOctet(parts[1]), ParseOctet(parts[2]), ParseOctet(parts[3]))
      case (Some(a), Some(b), Some(c), Some(d)) => Some(FromOctets(a, b, c, d))
      case _ => None
  }

  /** The dotted-decimal text of an address, as dns-packet writes the data
      of an A record. */
  function FormatAddress(a: Addr): string
  {
    FromOwnOctets(a);
    Join([OctetText(a / 16777216), OctetText((a / 65536) % 256),
          OctetText((a / 256) % 256), OctetText(a % 256)], '.')
  }

  /** `ipaddr.parseCIDR` restricted to IPv4: an address, one `/`, and a
      prefix length of decimal digits (leading zeros allowed, as `parseInt`
      reads them) that is at most 32. Anything else, the empty line
      included, is malformed. */
  function ParseCidr(s: string): Option<Cidr>
  {
    var parts := Split(s, '/');
    if |parts| != 2 || parts[1] == [] || !AllDigits(parts[1]) || DecimalValue(parts[1]) > 32 then None
    else
      match ParseAddress(parts[0])
      case None => None
      case Some(a) => Some(Cidr(a, DecimalValue(parts[1])))
  }

  /** The text `a.b.c.d/n` of a range. */
  function FormatCidr(c: Cidr): string
  {
    FormatAddress(c.network) + "/" + OctetText(c.prefix)
  }

  /** `addr.match(range)`: the top `prefix` bits of the address and of the
      network agree, that is, both have the same quotient by 2^(32 - prefix)
      (RFC 4632 section 3.1). */
  predicate InCidr(a: Addr, c: Cidr)
  {
    a / Pow2(32 - c.prefix) == c.network / Pow2(32 - c.prefix)
  }

  // ---------------------------------------------------------------------
  // Arithmetic helpers

  /** Quotient and remainder are determined by `x == q * d + r` with `0 <= r < d`. */
  lemma DivModUnique(x: int, d: int, q: int, r: int)
    requires d > 0 && 0 <= r < d && x == q * d + r
    ensures x / d == q && x % d == r
  {
    var q0, r0 := x / d, x % d;
    assert x == q0 * d + r0;
    var k := q - q0;
    assert k * d == q * d - q0 * d;
    assert k * d == r0 - r;
    if k >= 1 {
      MulAtLeast(k, d);
    } else if k <= -1 {
      MulAtLeast(-k, d);
    }
  }

  lemma MulAtLeast(k: int, d: int)
    requires k >= 1 && d > 0
    ensures k * d >= d
  {
  }

  /** The four octets of FromOctets(a, b, c, d) are a, b, c and d again. */
  lemma OctetsOf(a: Octet, b: Octet, c: Octet, d: Octet)
    ensures var r := FromOctets(a, b, c, d);
      r / 16777216 == a && (r / 65536) % 256 == b && (r / 256) % 256 == c && r % 256 == d
  {
    var r := FromOctets(a, b, c, d);
    DivModUnique(r, 16777216, a, b * 65536 + c * 256 + d);
    DivModUnique(r, 65536, a * 256 + b, c * 256 + d);
    DivModUnique(a * 256 + b, 256, a, b);
    DivModUnique(r, 256, a * 65536 + b * 256 + c, d);
    DivModUnique(a * 65536 + b * 256 + c, 256, a * 256 + b, c);
  }

  /** An address is rebuilt from its four octets. */
  lemma FromOwnOctets(x: Addr)
    ensures x / 16777216 < 256
    ensures FromOctets(x / 16777216, (x / 65536) % 256, (x / 256) % 256, x % 256) == x
  {
    var q1, o4 := x / 256, x % 256;
    var q2, o3 := q1 / 256, q1 % 256;
    var q3, o2 := q2 / 256, q2 % 256;
    assert x == q3 * 16777216 + o2 * 65536 + o3 * 256 + o4;
    DivModUnique(x, 16777216, q3, o2 * 65536 + o3 * 256 + o4);
    DivModUnique(x, 65536, q2, o3 * 256 + o4);
    assert q3 < 256;
  }

  /** The value of a digit string of length one to four, written out. */
  lemma DecimalShort(t: string)
    requires AllDigits(t) && 1 <= |t| <= 4
    ensures |t| == 1 ==> DecimalValue(t) == DigitValue(t[0])
    ensures |t| == 2 ==> DecimalValue(t) == 10 * DigitValue(t[0]) + DigitValue(t[1])
    ensures |t| == 3 ==> DecimalValue(t) == 100 * DigitValue(t[0]) + 10 * DigitValue(t[1]) + DigitValue(t[2])
    ensures |t| == 4 ==> DecimalValue(t) >= 1000 * DigitValue(t[0])
  {
    assert DecimalValue(t[..1]) == DigitValue(t[0]) by { assert t[..1][..0] == []; }
    if |t| >= 2 {
      assert DecimalValue(t[..2]) == 10 * DigitValue(t[0]) + DigitValue(t[1]) by { assert t[..2][..1] == t[..1]; }
    }
    if |t| >= 3 {
      assert DecimalValue(t[..3]) == 100 * DigitValue(t[0]) + 10 * DigitValue(t[1]) + DigitValue(t[2])
      by { assert t[..3][..2] == t[..2]; }
    }
    if |t| == 4 {
      assert t[..4][..3] == t[..3];
    }
    assert t[..|t|] == t;
  }

  lemma DigitCharValue(c: char)
    requires IsDigit(c)
    ensures DigitChar(DigitValue(c)) == c
  {
  }

  // ---------------------------------------------------------------------
  // Text round trips

  lemma OctetRoundTrip(v: Octet)
    ensures ParseOctet(OctetText(v)) == Some(v)
  {
    var t := OctetText(v);
    DecimalShort(t);
    if v >= 100 {
      DivModUnique(v / 10, 10, v / 100, (v / 10) % 10);
    }
  }

  /** A prefix of a digit string never has a larger value than the string. */
  lemma {:induction false} DecimalPrefixAtMost(t: string, k: nat)
    requires AllDigits(t) && k <= |t|
    ensures DecimalValue(t[..k]) <= DecimalValue(t)
    decreases |t| - k
  {
    if k < |t| {
      var u := t[..|t| - 1];
      DecimalPrefixAtMost(u, k);
      assert u[..k] == t[..k];
    } else {
      assert t[..k] == t;
    }
  }

  /** The only text ParseOctet accepts for a value is that value's OctetText. */
  lemma OctetCanonical(t: string)
    requires ParseOctet(t).Some?
    ensures OctetText(ParseOctet(t).value) == t
  {
    var v := DecimalValue(t);
    if |t| >= 4 {
      DecimalPrefixAtMost(t, 4);
      DecimalShort(t[..4]);
      assert false;
    }
    DecimalShort(t);
    DigitCharValue(t[0]);
    DigitCharValue(t[|t| - 1]);
    if |t| == 2 {
      DivModUnique(v, 10, DigitValue(t[0]), DigitValue(t[1]));
      assert [DigitChar(v / 10), DigitChar(v % 10)] == t;
    } else if |t| == 3 {
      DigitCharValue(t[1]);
      DivModUnique(v, 100, DigitValue(t[0]), 10 * DigitValue(t[1]) + DigitValue(t[2]));
      DivModUnique(v, 10, 10 * DigitValue(t[0]) + DigitValue(t[1]), DigitValue(t[2]));
      DivModUnique(v / 10, 10, DigitValue(t[0]), DigitValue(t[1]));
      assert [DigitChar(v / 100), DigitChar((v / 10) % 10), DigitChar(v % 10)] == t;
    } else {
      assert [DigitChar(v)] == t;
    }
  }

  lemma DigitsAvoid(t: string, c: char)
    requires AllDigits(t) && !IsDigit(c)
    ensures c !in t
  {
  }

  /** Every address text that dns-packet writes parses back to the address. */
  lemma AddressRoundTrip(a: Addr)
    ensures ParseAddress(FormatAddress(a)) == Some(a)
  {
    var parts := [OctetText(a / 16777216), OctetText((a / 65536) % 256),
                  OctetText((a / 256) % 256), OctetText(a % 256)];
    forall k | 0 <= k < 4 ensures '.' !in parts[k] {
      DigitsAvoid(parts[k], '.');
    }
    SplitJoin(parts, '.');
    FromOwnOctets(a);
    OctetRoundTrip(a / 16777216);
    OctetRoundTrip((a / 65536) % 256);
    OctetRoundTrip((a / 256) % 256);
    OctetRoundTrip(a % 256);
  }

  /** ParseAddress accepts only the canonical text of the address it returns. */
  lemma AddressCanonical(s: string)
    requires ParseAddress(s).Some?
    ensures FormatAddress(ParseAddress(s).value) == s
  {
    var parts := Split(s, '.');
    var o0, o1, o2, o3 := ParseOctet(parts[0]).value, ParseOctet(parts[1]).value,
                          ParseOctet(parts[2]).value, ParseOctet(parts[3]).value;
    OctetsOf(o0, o1, o2, o3);
    OctetCanonical(parts[0]);
    OctetCanonical(parts[1]);
    OctetCanonical(parts[2]);
    OctetCanonical(parts[3]);
    assert parts == [parts[0], parts[1], parts[2], parts[3]];
  }

  /** Every range text `a.b.c.d/n` parses back to the range. */
  lemma CidrRoundTrip(c: Cidr)
    ensures ParseCidr(FormatCidr(c)) == Some(c)
  {
    var addr := FormatAddress(c.network);
    var octets := [OctetText(c.network / 16777216), OctetText((c.network / 65536) % 256),
                   OctetText((c.network / 256) % 256), OctetText(c.network % 256)];
    forall k | 0 <= k < 4 ensures '/' !in octets[k] {
      DigitsAvoid(octets[k], '/');
    }
    JoinAvoids(octets, '.', '/');
    DigitsAvoid(OctetText(c.prefix), '/');
    var parts := [addr, OctetText(c.prefix)];
    assert Join(parts, '/') == FormatCidr(c);
    SplitJoin(parts, '/');
    AddressRoundTrip(c.network);
    OctetRoundTrip(c.prefix);
  }

  // ---------------------------------------------------------------------
  // CIDR containment

  lemma {:induction false} Pow2Add(a: nat, b: nat)
    ensures Pow2(a + b) == Pow2(a) * Pow2(b)
    decreases a
  {
    if a > 0 {
      Pow2Add(a - 1, b);
    }
  }

  lemma Pow2Of32()
    ensures Pow2(8) == 256 && Pow2(16) == 65536 && Pow2(20) == 1048576
    ensures Pow2(32) == 0x1_0000_0000
  {
    assert Pow2(4) == 16;
    Pow2Add(4, 4);
    Pow2Add(8, 8);
    Pow2Add(16, 4);
    Pow2Add(16, 16);
  }

  /** Dividing by 2^(m + 1) is dividing by 2^m and then by 2. */
  lemma DivPow2Succ(x: nat, m: nat)
    ensures x / Pow2(m + 1) == (x / Pow2(m)) / 2
  {
    var p := Pow2(m);
    var q, r := x / p, x % p;
    var q2, r2 := q / 2, q % 2;
    assert x == q2 * (2 * p) + (r2 * p + r) by {
      assert x == q * p + r;
      assert q == 2 * q2 + r2;
      assert q * p == (2 * q2 + r2) * p == q2 * (2 * p) + r2 * p;
    }
    assert r2 * p + r < 2 * p by {
      assert r2 * p <= p;
    }
    DivModUnique(x, 2 * p, q2, r2 * p + r);
  }

  /** Numbers below 2^(m + k) have the same quotient by 2^m exactly when
      their bits m .. m + k - 1 agree. */
  lemma {:induction false} QuotientIffHighBits(x: nat, y: nat, m: nat, k: nat)
    requires x < Pow2(m + k) && y < Pow2(m + k)
    ensures x / Pow2(m) == y / Pow2(m) <==> forall j :: m <= j < m + k ==> Bit(x, j) == Bit(y, j)
    decreases k
  {
    if k == 0 {
      DivModUnique(x, Pow2(m), 0, x);
      DivModUnique(y, Pow2(m), 0, y);
    } else {
      QuotientIffHighBits(x, y, m + 1, k - 1);
      DivPow2Succ(x, m);
      DivPow2Succ(y, m);
      var qx, qy := x / Pow2(m), y / Pow2(m);
      assert qx == qy <==> qx % 2 == qy % 2 && qx / 2 == qy / 2;
      assert Bit(x, m) == qx % 2 && Bit(y, m) == qy % 2;
      assert (forall j :: m <= j < m + k ==> Bit(x, j) == Bit(y, j)) <==>
             Bit(x, m) == Bit(y, m) && forall j :: m + 1 <= j < m + k ==> Bit(x, j) == Bit(y, j);
    }
  }

  /** The bits `32 - n` .. 31 of `x` and `y` (the top `n`) agree. */
  predicate TopBitsAgree(x: Addr, y: Addr, n: PrefixLength)
  {
    forall j :: 32 - n <= j < 32 ==> Bit(x, j) == Bit(y, j)
  }

  /** `match` is prefix equality on the top n bits, bit by bit. */
  lemma InCidrIffTopBitsAgree(a: Addr, c: Cidr)
    ensures InCidr(a, c) <==> TopBitsAgree(a, c.network, c.prefix)
  {
    Pow2Of32();
    QuotientIffHighBits(a, c.network, 32 - c.prefix, c.prefix);
  }

  /** `/0` contains every address. */
  lemma SlashZeroContainsAll(a: Addr, network: Addr)
    ensures InCidr(a, Cidr(network, 0))
  {
    Pow2Of32();
    DivModUnique(a, Pow2(32), 0, a);
    DivModUnique(network, Pow2(32), 0, network);
  }

  /** `/32` contains its own network address and nothing else. */
  lemma SlashThirtyTwoIsEquality(a: Addr, network: Addr)
    ensures InCidr(a, Cidr(network, 32)) <==> a == network
  {
  }

  /** Shortening the prefix of a range only widens it. */
  lemma ShorterPrefixWidens(a: Addr, network: Addr, n: PrefixLength, m: PrefixLength)
    requires m <= n
    requires InCidr(a, Cidr(network, n))
    ensures InCidr(a, Cidr(network, m))
  {
    InCidrIffTopBitsAgree(a, Cidr(network, n));
    InCidrIffTopBitsAgree(a, Cidr(network, m));
  }

  /** The text of the address with octets a.b.c.d. */
  lemma FormatOfOctets(x: Addr, a: Octet, b: Octet, c: Octet, d: Octet)
    requires x == FromOctets(a, b, c, d)
    ensures FormatAddress(x) == OctetText(a) + "." + OctetText(b) + "." + OctetText(c) + "." + OctetText(d)
  {
    OctetsOf(a, b, c, d);
    JoinFour(OctetText(a), OctetText(b), OctetText(c), OctetText(d), '.');
  }

  lemma FormatExample1234()
    ensures FormatAddress(0x01020304) == "1.2.3.4"
  {
    FormatOfOctets(0x01020304, 1, 2, 3, 4);
    assert OctetText(1) == "1" && OctetText(2) == "2" && OctetText(3) == "3" && OctetText(4) == "4";
    assert "1" + "." + "2" + "." + "3" + "." + "4" == "1.2.3.4";
  }

  lemma FormatExample1230()
    ensures FormatCidr(Cidr(0x01020300, 24)) == "1.2.3.0/24"
  {
    FormatOfOctets(0x01020300, 1, 2, 3, 0);
    assert OctetText(1) == "1" && OctetText(2) == "2" && OctetText(3) == "3" && OctetText(0) == "0";
    assert OctetText(24) == "24";
    assert "1" + "." + "2" + "." + "3" + "." + "0" + "/" + "24" == "1.2.3.0/24";
  }

  lemma FormatExample1240()
    ensures FormatCidr(Cidr(0x01020400, 24)) == "1.2.4.0/24"
  {
    FormatOfOctets(0x01020400, 1, 2, 4, 0);
    assert OctetText(1) == "1" && OctetText(2) == "2" && OctetText(4) == "4" && OctetText(0) == "0";
    assert OctetText(24) == "24";
    assert "1" + "." + "2" + "." + "4" + "." + "0" + "/" + "24" == "1.2.4.0/24";
  }

  /** The text examples used below parse to the values they spell. */
  lemma ExampleTexts()
    ensures ParseAddress("1.2.3.4") == Some(0x01020304)
    ensures ParseCidr("1.2.3.0/24") == Some(Cidr(0x01020300, 24))
    ensures ParseCidr("1.2.4.0/24") == Some(Cidr(0x01020400, 24))
  {
    FormatExample1234();
    FormatExample1230();
    FormatExample1240();
    AddressRoundTrip(0x01020304);
    CidrRoundTrip(Cidr(0x01020300, 24));
    CidrRoundTrip(Cidr(0x01020400, 24));
  }

  /** 1.2.3.4 is in 1.2.3.0/24 and not in 1.2.4.0/24. */
  lemma ContainmentExamples()
    ensures InCidr(0x01020304, Cidr(0x01020300, 24))
    ensures !InCidr(0x01020304, Cidr(0x01020400, 24))
  {
    Pow2Of32();
  }
}

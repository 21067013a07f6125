/**
 * IPv4 addresses and CIDR networks as the access middleware uses them: the
 * parse of a dotted-quad address (`ipaddr.IPAddress`) and of a network written
 * "a.b.c.d" or "a.b.c.d/n" (`ipaddr.IPNetwork`, host bits allowed), and the
 * containment test `network.Contains(address)`.
 */
module IPv4 {
  import opened Results
  import opened Strings

  const ADDRESS_COUNT: nat := 0x1_0000_0000
  const MAX_PREFIXLEN: nat := 32

  /** An address is a 32-bit unsigned number. */
  type Address = n: nat | n < 0x1_0000_0000

  type PrefixLen = n: nat | n <= 32

  /** A network as parsed: the address written before the "/" and the prefix length. */
  datatype Network = Network(ip: Address, prefixLen: PrefixLen)

  function Pow2(n: nat): (r: nat)
    ensures r >= 1
  {
    if n == 0 then 1 else 2 * Pow2(n - 1)
  }

  /** Number of addresses in the network: 2^(32 - prefix length). */
  function HostCount(net: Network): nat {
    Pow2(MAX_PREFIXLEN - net.prefixLen)
  }

  /** The first address of the network (the address with its host bits cleared). */
  function NetworkAddress(net: Network): int {
    (net.ip / HostCount(net)) * HostCount(net)
  }

  /** The last address of the network (the address with its host bits set). */
  function BroadcastAddress(net: Network): int {
    NetworkAddress(net) + HostCount(net) - 1
  }

  /** Containment as ipaddr decides it: between network and broadcast address. */
  predicate Contains(net: Network, a: Address) {
    NetworkAddress(net) <= a <= BroadcastAddress(net)
  }

  lemma MulMono(x: int, y: int, h: nat)
    requires x <= y
    ensures x * h <= y * h
  {
    var d := y - x;
    assert y * h == x * h + d * h;
  }

  lemma DivRange(a: nat, h: nat, q: nat)
    requires h > 0
    ensures a / h == q <==> q * h <= a < q * h + h
  {
    var r := a / h;
    var m := a % h;
    assert a == r * h + m && 0 <= m < h;
    if q * h <= a < q * h + h {
      if r < q {
        MulMono(r + 1, q, h);
      } else if q < r {
        MulMono(q + 1, r, h);
      }
    }
  }

  lemma SamePrefixIff(ip: nat, a: nat, h: nat)
    requires h > 0
    ensures (ip / h) * h <= a <= (ip / h) * h + h - 1 <==> a / h == ip / h
  {
    DivRange(a, h, ip / h);
  }

  /** Containment means the address and the network agree on the first
      prefix-length bits. */
  lemma ContainsIffSamePrefix(net: Network, a: Address)
    ensures Contains(net, a) <==> a / HostCount(net) == net.ip / HostCount(net)
  {
    SamePrefixIff(net.ip, a, HostCount(net));
  }

  /** A /32 network holds exactly its own address. */
  lemma Prefix32IsExact(b: Address, a: Address)
    ensures Contains(Network(b, 32), a) <==> a == b
  {
    ContainsIffSamePrefix(Network(b, 32), a);
  }

  lemma {:induction false} Pow2Add(m: nat, n: nat)
    ensures Pow2(m + n) == Pow2(m) * Pow2(n)
    decreases m
  {
    if m > 0 {
      Pow2Add(m - 1, n);
    }
  }

  lemma Pow2Values()
    ensures Pow2(8) == 256
    ensures Pow2(16) == 65536
    ensures Pow2(32) == ADDRESS_COUNT
  {
    Pow2Add(8, 8);
    Pow2Add(16, 16);
  }

  /** A /0 network holds every address. */
  lemma Prefix0HoldsAll(b: Address, a: Address)
    ensures Contains(Network(b, 0), a)
  {
    Pow2Values();
    ContainsIffSamePrefix(Network(b, 0), a);
  }

  /** A /24 network holds exactly the addresses that differ from its address
      only in the last octet. */
  lemma Prefix24IsLastOctet(b: Address, a: Address)
    ensures Contains(Network(b, 24), a) <==> a / 256 == b / 256
  {
    Pow2Values();
    ContainsIffSamePrefix(Network(b, 24), a);
  }

  // Decimal digits.

  predicate IsDigit(c: char) {
    '0' <= c <= '9'
  }

  predicate AllDigits(s: string) {
    forall i :: 0 <= i < |s| ==> IsDigit(s[i])
  }

  function DecimalValue(s: string): nat
    requires AllDigits(s)
    decreases |s|
  {
    if s == [] then 0
    else DecimalValue(s[..|s| - 1]) * 10 + (s[|s| - 1] as int - '0' as int)
  }

  /** A digit string as ipaddr accepts an octet: non-empty, no leading zero. */
  predicate Canonical(s: string) {
    s != [] && AllDigits(s) && !(s[0] == '0' && |s| > 1)
  }

  /** An octet as ipaddr accepts it: decimal digits only, no leading zero, at
      most 255. */
  function ParseOctet(s: string): (r: Option<nat>)
    ensures r.Some? ==> r.value <= 255
  {
    if Canonical(s) && DecimalValue(s) <= 255
    then Some(DecimalValue(s))
    else None
  }

  /** The address with the given four octets, most significant first. */
  function FromOctets(a: nat, b: nat, c: nat, d: nat): Address
    requires a <= 255 && b <= 255 && c <= 255 && d <= 255
  {
    ((a * 256 + b) * 256 + c) * 256 + d
  }

  /** `ipaddr.IPAddress(s)` for an IPv4 address: four octets separated by ".". */
  function ParseAddress(s: string): (r: Option<Address>)
  {
    var parts := Split(s, '.');
    if |parts| != 4 then None
    else
      var a, b, c, d := ParseOctet(parts[0]), ParseOctet(parts[1]),
                        ParseOctet(parts[2]), ParseOctet(parts[3]);
      if a.Some? && b.Some? && c.Some? && d.Some?
      then Some(FromOctets(a.value, b.value, c.value, d.value))
      else None
  }

  /** `ipaddr.IPNetwork(s)`: an address, optionally followed by "/" and a prefix
      length from 0 to 32; without one the network is the single address. */
  function ParseNetwork(s: string): (r: Option<Network>)
    ensures r.Some? ==> '/' !in s ==> r.value.prefixLen == 32
  {
    var parts := Split(s, '/');
    if |parts| > 2 then None
    else
      var ip := ParseAddress(parts[0]);
      if ip.None? then None
      else if |parts| == 1 then Some(Network(ip.value, 32))
      else
        var p := parts[1];
        if p != [] && AllDigits(p) && DecimalValue(p) <= 32
        then Some(Network(ip.value, DecimalValue(p)))
        else None
  }

  // Writing an address, used only to state that the parser reads back what an
  // address prints as.

  function Digit(d: nat): (c: char)
    requires d < 10
    ensures IsDigit(c) && c as int - '0' as int == d
  {
    ('0' as int + d) as char
  }

  /** The decimal form of `n`, without leading zeros. */
  ghost function FormatDecimal(n: nat): (s: string)
    ensures s != [] && AllDigits(s)
    decreases n
  {
    if n < 10 then [Digit(n)] else FormatDecimal(n / 10) + [Digit(n % 10)]
  }

  lemma {:induction false} DecimalValueOfFormat(n: nat)
    ensures DecimalValue(FormatDecimal(n)) == n
    decreases n
  {
    if n >= 10 {
      var s := FormatDecimal(n);
      assert s[..|s| - 1] == FormatDecimal(n / 10);
      DecimalValueOfFormat(n / 10);
    }
  }

  lemma {:induction false} FormatDecimalNoLeadingZero(n: nat)
    requires n >= 1
    ensures FormatDecimal(n)[0] != '0'
    decreases n
  {
    if n >= 10 {
      FormatDecimalNoLeadingZero(n / 10);
    }
  }

  lemma ParseFormattedOctet(n: nat)
    requires n <= 255
    ensures ParseOctet(FormatDecimal(n)) == Some(n)
    ensures '.' !in FormatDecimal(n)
  {
    DecimalValueOfFormat(n);
    if n >= 1 {
      FormatDecimalNoLeadingZero(n);
    } else {
      assert FormatDecimal(n) == ['0'];
    }
  }

  /** The four octets of an address, most significant first. */
  function Octets(a: Address): (r: seq<nat>)
    ensures |r| == 4 && forall i :: 0 <= i < 4 ==> r[i] <= 255
  {
    [a / 16777216, (a / 65536) % 256, (a / 256) % 256, a % 256]
  }

  lemma FromOctetsOfOctets(a: Address)
    ensures FromOctets(Octets(a)[0], Octets(a)[1], Octets(a)[2], Octets(a)[3]) == a
  {
    var q1 := a / 256;
    var q2 := q1 / 256;
    var q3 := q2 / 256;
    assert a / 65536 == q2;
    assert a / 16777216 == q3;
    assert q2 == q3 * 256 + q2 % 256;
    assert q1 == q2 * 256 + q1 % 256;
    assert a == q1 * 256 + a % 256;
  }

  /** The dotted-quad text of an address. */
  ghost function FormatAddress(a: Address): string {
    var o := Octets(a);
    Join([FormatDecimal(o[0]), FormatDecimal(o[1]), FormatDecimal(o[2]), FormatDecimal(o[3])], '.')
  }

  /** Reading an address's dotted-quad text gives the address back. */
  lemma ParseFormatAddress(a: Address)
    ensures ParseAddress(FormatAddress(a)) == Some(a)
  {
    var o := Octets(a);
    var parts := [FormatDecimal(o[0]), FormatDecimal(o[1]), FormatDecimal(o[2]), FormatDecimal(o[3])];
    ParseFormattedOctet(o[0]);
    ParseFormattedOctet(o[1]);
    ParseFormattedOctet(o[2]);
    ParseFormattedOctet(o[3]);
    SplitJoin(parts, '.');
    FromOctetsOfOctets(a);
  }

  lemma {:induction false} DecimalValuePositive(s: string)
    requires s != [] && AllDigits(s) && s[0] != '0'
    ensures DecimalValue(s) >= 1
    decreases |s|
  {
    if |s| > 1 {
      DecimalValuePositive(s[..|s| - 1]);
    }
  }

  /** Writing the value of a canonical digit string gives the string back. */
  lemma {:induction false} FormatDecimalValue(s: string)
    requires Canonical(s)
    ensures FormatDecimal(DecimalValue(s)) == s
    decreases |s|
  {
    var q := s[..|s| - 1];
    var d := s[|s| - 1] as int - '0' as int;
    if |s| == 1 {
      assert DecimalValue(s) == d;
      assert [Digit(d)] == s;
    } else {
      DecimalValuePositive(q);
      FormatDecimalValue(q);
      var n := DecimalValue(s);
      assert n == DecimalValue(q) * 10 + d;
      assert n / 10 == DecimalValue(q) && n % 10 == d;
      assert q + [s[|s| - 1]] == s;
    }
  }

  lemma DivMod256(q: nat, r: nat)
    requires r < 256
    ensures (q * 256 + r) / 256 == q && (q * 256 + r) % 256 == r
  {
  }

  /** Splitting an address back into octets gives the octets it was built from. */
  lemma OctetsOfFromOctets(a: nat, b: nat, c: nat, d: nat)
    requires a <= 255 && b <= 255 && c <= 255 && d <= 255
    ensures Octets(FromOctets(a, b, c, d)) == [a, b, c, d]
  {
    var x := FromOctets(a, b, c, d);
    var q1 := a * 256 + b;
    var q2 := q1 * 256 + c;
    DivMod256(q2, d);
    DivMod256(q1, c);
    DivMod256(a, b);
    assert x / 256 == q2 && x % 256 == d;
    assert x / 65536 == q1 by {
      assert x == q1 * 65536 + (c * 256 + d);
    }
    assert x / 16777216 == a by {
      assert x == a * 16777216 + (b * 65536 + c * 256 + d);
    }
  }

  /** The converse round trip: an address text that parses is exactly the
      dotted-quad text of the address it parses to. */
  lemma PrintParsedAddress(s: string)
    requires ParseAddress(s).Some?
    ensures FormatAddress(ParseAddress(s).value) == s
  {
    var p := Split(s, '.');
    FormatDecimalValue(p[0]);
    FormatDecimalValue(p[1]);
    FormatDecimalValue(p[2]);
    FormatDecimalValue(p[3]);
    OctetsOfFromOctets(DecimalValue(p[0]), DecimalValue(p[1]), DecimalValue(p[2]), DecimalValue(p[3]));
    assert [p[0], p[1], p[2], p[3]] == p;
    JoinSplit(s, '.');
  }

  // Reading written-out addresses.

  /** Splitting a dotted quad on "." gives its four fields. */
  lemma SplitDotted(a: string, b: string, c: string, d: string)
    requires '.' !in a && '.' !in b && '.' !in c && '.' !in d
    ensures Split(a + "." + b + "." + c + "." + d, '.') == [a, b, c, d]
  {
    SplitCons(c, d, '.');
    assert b + "." + c + "." + d == b + ['.'] + (c + "." + d);
    SplitCons(b, c + "." + d, '.');
    assert a + "." + b + "." + c + "." + d == a + ['.'] + (b + "." + c + "." + d);
    SplitCons(a, b + "." + c + "." + d, '.');
  }

  /** A dotted quad of valid octets parses to the address of those octets. */
  lemma ParseDotted(a: string, b: string, c: string, d: string)
    requires ParseOctet(a).Some? && ParseOctet(b).Some? && ParseOctet(c).Some? && ParseOctet(d).Some?
    ensures ParseAddress(a + "." + b + "." + c + "." + d)
         == Some(FromOctets(ParseOctet(a).value, ParseOctet(b).value, ParseOctet(c).value, ParseOctet(d).value))
  {
    assert '.' !in a && '.' !in b && '.' !in c && '.' !in d by {
      NoDotInDigits(a);
      NoDotInDigits(b);
      NoDotInDigits(c);
      NoDotInDigits(d);
    }
    SplitDotted(a, b, c, d);
  }

  lemma NoDotInDigits(s: string)
    requires AllDigits(s)
    ensures '.' !in s && '/' !in s
  {
  }

  /** A network without "/" is the single address. */
  lemma ParseHostNetwork(s: string)
    requires '/' !in s
    ensures ParseNetwork(s) == if ParseAddress(s).Some? then Some(Network(ParseAddress(s).value, 32)) else None
  {
  }

  /** "address/prefix" with a prefix from 0 to 32 parses to that network. */
  lemma ParseCidrNetwork(addr: string, prefix: string)
    requires '/' !in addr && '/' !in prefix
    requires ParseAddress(addr).Some?
    requires prefix != [] && AllDigits(prefix) && DecimalValue(prefix) <= 32
    ensures ParseNetwork(addr + "/" + prefix) == Some(Network(ParseAddress(addr).value, DecimalValue(prefix)))
  {
    var s := addr + "/" + prefix;
    assert s == addr + ['/'] + prefix;
    SplitCons(addr, prefix, '/');
    assert Split(prefix, '/') == [prefix];
    var parts := Split(s, '/');
    assert parts == [addr, prefix];
    assert |parts| == 2 && parts[0] == addr && parts[1] == prefix;
  }

  /** Text with "/" parses exactly when the part before the first "/" is an
      address and the rest is one prefix length from 0 to 32; an empty,
      non-digit or too long prefix, or a second "/", is rejected. */
  lemma CidrNetworkShape(s: string)
    requires '/' in s
    ensures var a, b := Partition(s, '/').0, Partition(s, '/').1;
      ParseNetwork(s) ==
        if '/' !in b && ParseAddress(a).Some? && b != [] && AllDigits(b) && DecimalValue(b) <= 32
        then Some(Network(ParseAddress(a).value, DecimalValue(b)))
        else None
  {
    var a, b := Partition(s, '/').0, Partition(s, '/').1;
    PartitionSplits(s, '/');
    SplitCons(a, b, '/');
    var parts := Split(s, '/');
    assert parts == [a] + Split(b, '/');
    if '/' in b {
      var a2, b2 := Partition(b, '/').0, Partition(b, '/').1;
      PartitionSplits(b, '/');
      SplitCons(a2, b2, '/');
      assert |parts| > 2;
    } else {
      assert parts == [a, b];
      assert |parts| == 2 && parts[0] == a && parts[1] == b;
    }
  }
}

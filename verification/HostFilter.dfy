/** Host rules over parsed addresses and address blocks (CIDR, section 3.1 of RFC 4632). */
module HostFilter {
  import opened Common
  import opened Addresses

  function Pow2(n: nat): (r: nat)
    ensures r >= 1
  {
    if n == 0 then 1 else 2 * Pow2(n - 1)
  }

  /** The start of the block of `n` addresses that holds `x`. */
  function BlockStart(x: nat, n: nat): (r: nat)
    requires n > 0
    ensures r <= x < r + n && r == n * (x / n)
  {
    assert x == n * (x / n) + x % n;
    x - x % n
  }

  // ---- Special addresses ----

  predicate SpecialV4(ip: Bits32) {
    ip == 0 || 0xE000_0000 <= ip < 0xF000_0000 || ip == 0xFFFF_FFFF
  }

  /** Multicast is `ff00::/8` (section 2.7 of RFC 4291). */
  predicate SpecialV6(ip: Bits128) {
    ip == 0 || ip >= 0xFF00_0000_0000_0000_0000_0000_0000_0000
    || (ToV4Mapped(ip).Some? && SpecialV4(ToV4Mapped(ip).value))
  }

  /** Unspecified, multicast or broadcast, in plain or IPv4-mapped form. */
  predicate IsSpecial(ip: IpAddr) {
    match ip
    case V4(x) => SpecialV4(x)
    case V6(x) => SpecialV6(x)
  }

  // ---- Address blocks ----

  datatype Cidr = Cidr4(ip4: Bits32, prefix4: nat) | Cidr6(ip6: Bits128, prefix6: nat) {
    predicate Valid() {
      if Cidr4? then prefix4 <= 32 else prefix6 <= 128
    }

    /** How many addresses the block holds. */
    function Size(): nat
      requires Valid()
    {
      if Cidr4? then Pow2(32 - prefix4) else Pow2(128 - prefix6)
    }

    function Bits(): nat {
      if Cidr4? then ip4 else ip6
    }

    function First(): nat
      requires Valid()
    {
      BlockStart(Bits(), Size())
    }

    function Last(): nat
      requires Valid()
    {
      First() + Size() - 1
    }

    predicate Fits(x: nat) {
      x < if Cidr4? then TWO_32 else TWO_128
    }

    function Address(x: nat): IpAddr
      requires Fits(x)
    {
      if Cidr4? then V4(x) else V6(x)
    }

    predicate Contains(ip: IpAddr)
      requires Valid()
    {
      if Cidr4? then ip.V4? && First() <= ip.v4 <= Last() else ip.V6? && First() <= ip.v6 <= Last()
    }
  }

  lemma {:induction false} Pow2Add(a: nat, b: nat)
    ensures Pow2(a + b) == Pow2(a) * Pow2(b)
  {
    if a > 0 {
      Pow2Add(a - 1, b);
      Regroup(2, Pow2(a - 1), Pow2(b));
    }
  }

  lemma MulLe(n: nat, a: nat, b: nat)
    ensures a <= b ==> n * a <= n * b
    ensures n * (a + 1) == n * a + n
  {
    if a <= b {
      assert n * b == n * a + n * (b - a);
    }
  }

  /** A multiple of the block size at or below an address is at or below its block. */
  lemma AlignedBelow(n: nat, m: nat, x: nat)
    requires n > 0 && n * m <= x
    ensures n * m <= BlockStart(x, n)
  {
    MulLe(n, x / n, m);
    MulLe(n, x / n + 1, m);
    assert m <= x / n;
    MulLe(n, m, x / n);
  }

  /** A multiple of the block size above an address is above its block. */
  lemma AlignedAbove(n: nat, m: nat, x: nat)
    requires n > 0 && x < n * m
    ensures BlockStart(x, n) + n <= n * m
  {
    MulLe(n, m, x / n);
    assert x / n + 1 <= m;
    MulLe(n, x / n, m);
    MulLe(n, x / n + 1, m);
  }

  /** Everything in a block has the same block start. */
  lemma SameBlock(n: nat, a: nat, x: nat)
    requires n > 0 && BlockStart(a, n) <= x < BlockStart(a, n) + n
    ensures BlockStart(x, n) == BlockStart(a, n)
  {
    var q := a / n;
    MulLe(n, q, q);
    AlignedBelow(n, q, x);
    AlignedAbove(n, q + 1, x);
  }

  /** `2^k * c` is a multiple of every smaller power of two. */
  lemma Multiple(h: nat, k: nat, c: nat) returns (m: nat)
    requires h <= k
    ensures Pow2(k) * c == Pow2(h) * m
  {
    Pow2Add(h, k - h);
    m := Pow2(k - h) * c;
    Regroup(Pow2(h), Pow2(k - h), c);
  }

  lemma Regroup(u: nat, v: nat, c: nat)
    ensures u * v * c == u * (v * c)
  {
  }

  /** `v` is a multiple of `2^k`, and so of the size of the block. */
  lemma Below(h: nat, k: nat, c: nat, v: nat, x: nat)
    requires h <= k && v == Pow2(k) * c && v <= x
    ensures v <= BlockStart(x, Pow2(h))
  {
    var m := Multiple(h, k, c);
    AlignedBelow(Pow2(h), m, x);
  }

  lemma Above(h: nat, k: nat, d: nat, v: nat, x: nat)
    requires h <= k && v == Pow2(k) * d && x < v
    ensures BlockStart(x, Pow2(h)) + Pow2(h) <= v
  {
    var m := Multiple(h, k, d);
    AlignedAbove(Pow2(h), m, x);
  }

  lemma BlockEnd(n: nat, u: nat, v: nat, x: nat) returns (w: nat)
    requires n > 0 && n == u * v
    ensures BlockStart(x, n) + n == u * w
  {
    var q := x / n;
    MulLe(n, q, q);
    w := v * (q + 1);
    Regroup(u, v, q + 1);
  }

  lemma NextMultiple(u: nat, c: nat, w: nat, x: nat)
    requires u * c <= x < u * w
    ensures u * (c + 1) <= u * w
  {
    MulLe(u, w, c);
    MulLe(u, c + 1, w);
  }

  /** A block of size at least `2^k` that goes past a multiple `v` of `2^k` reaches the next one. */
  lemma Reaches(h: nat, k: nat, c: nat, v: nat, next: nat, x: nat)
    requires k <= h && v == Pow2(k) * c && next == Pow2(k) * (c + 1) && v <= x
    ensures next <= BlockStart(x, Pow2(h)) + Pow2(h)
  {
    Pow2Add(k, h - k);
    var w := BlockEnd(Pow2(h), Pow2(k), Pow2(h - k), x);
    NextMultiple(Pow2(k), c, w, x);
  }

  /** A block at least as large as the addresses below `2^k` starts at zero for each of them. */
  lemma StartsAtZero(h: nat, k: nat, x: nat)
    requires k <= h && x < Pow2(k)
    ensures BlockStart(x, Pow2(h)) == 0
  {
    Pow2Add(k, h - k);
    MulLe(Pow2(k), 1, Pow2(h - k));
    Quotient(x, Pow2(h));
  }

  lemma Quotient(x: nat, n: nat)
    requires x < n
    ensures x / n == 0
  {
  }

  lemma SmallPowers()
    ensures Pow2(12) == 0x1000 && Pow2(16) == 0x1_0000
  {
    assert Pow2(8) == 0x100;
  }

  lemma Powers()
    ensures Pow2(28) == 0x1000_0000 && Pow2(29) == 0x2000_0000
    ensures Pow2(32) == TWO_32 && Pow2(33) == 0x2_0000_0000 && Pow2(48) == 0x1_0000_0000_0000
  {
    SmallPowers();
    Pow2Add(16, 16);
    Pow2Add(32, 16);
    Pow2Add(16, 12);
  }

  lemma WidePower()
    ensures Pow2(128) == TWO_128
  {
    Powers();
    Pow2Add(32, 32);
    Pow2Add(64, 64);
  }

  // ---- The endpoints of a block tell whether it holds a special address ----

  lemma MulticastV4(h: nat, x: Bits32, last: nat)
    requires h <= 32 && 0xE000_0000 <= x < 0xF000_0000
    requires last == BlockStart(x, Pow2(h)) + Pow2(h) - 1 < TWO_32
    ensures SpecialV4(last)
  {
    Powers();
    if h <= 28 {
      Above(h, 28, 15, 0xF000_0000, x);
    } else {
      Reaches(h, 29, 7, 0xE000_0000, TWO_32, x);
    }
  }

  lemma EndpointsV4(h: nat, x: Bits32, first: nat, last: nat)
    requires h <= 32 && SpecialV4(x)
    requires first == BlockStart(x, Pow2(h)) && last == first + Pow2(h) - 1 < TWO_32
    ensures SpecialV4(first) || SpecialV4(last)
  {
    if x != 0 && x != 0xFFFF_FFFF {
      MulticastV4(h, x, last);
    }
  }

  lemma MappedValue(x: Bits128)
    requires 0xFFFF_0000_0000 <= x < 0x1_0000_0000_0000
    ensures ToV4Mapped(x) == Some(x - 0xFFFF_0000_0000)
  {
  }

  lemma MappedEnd(h: nat, x: Bits128, last: nat)
    requires h <= 48 && x < 0x1_0000_0000_0000 && last == BlockStart(x, Pow2(h)) + Pow2(h) - 1
    ensures last < 0x1_0000_0000_0000
  {
    Powers();
    Above(h, 48, 1, 0x1_0000_0000_0000, x);
  }

  lemma MappedUnspecified(h: nat, x: Bits128, last: nat)
    requires h <= 48 && x == 0xFFFF_0000_0000 && last == BlockStart(x, Pow2(h)) + Pow2(h) - 1
    ensures BlockStart(x, Pow2(h)) == x || last >= 0xFFFF_FFFF_FFFF
  {
    Powers();
    if h <= 32 {
      Below(h, 32, 0xFFFF, x, x);
    } else {
      Reaches(h, 33, 0x7FFF, 0xFFFE_0000_0000, 0x1_0000_0000_0000, x);
    }
  }

  lemma MappedMulticast(h: nat, x: Bits128, last: nat)
    requires h <= 48 && 0xFFFF_E000_0000 <= x < 0xFFFF_F000_0000
    requires last == BlockStart(x, Pow2(h)) + Pow2(h) - 1
    ensures last < 0xFFFF_F000_0000 || last >= 0xFFFF_FFFF_FFFF
  {
    Powers();
    if h <= 28 {
      Above(h, 28, 0xFFFFF, 0xFFFF_F000_0000, x);
    } else {
      Reaches(h, 29, 0x7FFFF, 0xFFFF_E000_0000, 0x1_0000_0000_0000, x);
    }
  }

  /** Blocks that stay below `1:0:0:0`, where the mapped addresses end. */
  lemma MappedBlock(h: nat, x: Bits128, last: nat)
    requires h <= 48 && 0xFFFF_0000_0000 <= x < 0x1_0000_0000_0000 && SpecialV4(x - 0xFFFF_0000_0000)
    requires last == BlockStart(x, Pow2(h)) + Pow2(h) - 1
    ensures last < 0x1_0000_0000_0000
    ensures BlockStart(x, Pow2(h)) == x
      || (last >= 0xFFFF_0000_0000 && SpecialV4(last - 0xFFFF_0000_0000))
  {
    MappedEnd(h, x, last);
    if x == 0xFFFF_0000_0000 {
      MappedUnspecified(h, x, last);
    } else if x != 0xFFFF_FFFF_FFFF {
      MappedMulticast(h, x, last);
    }
  }

  lemma MappedRange(x: Bits128)
    requires ToV4Mapped(x).Some?
    ensures 0xFFFF_0000_0000 <= x < 0x1_0000_0000_0000 && ToV4Mapped(x).value == x - 0xFFFF_0000_0000
  {
    assert x == TWO_32 * (x / TWO_32) + x % TWO_32;
  }

  lemma MappedZero(h: nat, x: Bits128)
    requires h > 48 && x < 0x1_0000_0000_0000
    ensures BlockStart(x, Pow2(h)) == 0
  {
    Powers();
    StartsAtZero(h, 48, x);
  }

  lemma EndpointsMapped(h: nat, x: Bits128, first: nat, last: nat)
    requires h <= 128 && ToV4Mapped(x).Some? && SpecialV4(ToV4Mapped(x).value)
    requires first == BlockStart(x, Pow2(h)) && last == first + Pow2(h) - 1 < TWO_128
    ensures SpecialV6(first) || SpecialV6(last)
  {
    MappedRange(x);
    if h > 48 {
      MappedZero(h, x);
    } else {
      MappedBlock(h, x, last);
      if first != x {
        MappedValue(last);
      }
    }
  }

  lemma EndpointsV6(h: nat, x: Bits128, first: nat, last: nat)
    requires h <= 128 && SpecialV6(x)
    requires first == BlockStart(x, Pow2(h)) && last == first + Pow2(h) - 1 < TWO_128
    ensures SpecialV6(first) || SpecialV6(last)
  {
    if x != 0 && x < 0xFF00_0000_0000_0000_0000_0000_0000_0000 {
      EndpointsMapped(h, x, first, last);
    }
  }

  lemma BlockFits4(c: Cidr)
    requires c.Cidr4? && c.Valid()
    ensures c.Last() < TWO_32
  {
    Powers();
    Above(32 - c.prefix4, 32, 1, TWO_32, c.ip4);
  }

  lemma BlockFits6(c: Cidr)
    requires c.Cidr6? && c.Valid()
    ensures c.Last() < TWO_128
  {
    WidePower();
    Above(128 - c.prefix6, 128, 1, TWO_128, c.ip6);
  }

  lemma BlockFits(c: Cidr)
    requires c.Valid()
    ensures c.Fits(c.First()) && c.Fits(c.Last())
  {
    if c.Cidr4? {
      BlockFits4(c);
    } else {
      BlockFits6(c);
    }
  }

  predicate IsSpecialCidr(c: Cidr)
    requires c.Valid()
  {
    BlockFits(c);
    IsSpecial(c.Address(c.First())) || IsSpecial(c.Address(c.Last()))
  }

  lemma SpecialInside(c: Cidr, ip: IpAddr)
    requires c.Valid() && c.Contains(ip) && IsSpecial(ip)
    ensures IsSpecialCidr(c)
  {
    BlockFits(c);
    if c.Cidr4? {
      SameBlock(c.Size(), c.ip4, ip.v4);
      EndpointsV4(32 - c.prefix4, ip.v4, c.First(), c.Last());
    } else {
      SameBlock(c.Size(), c.ip6, ip.v6);
      EndpointsV6(128 - c.prefix6, ip.v6, c.First(), c.Last());
    }
  }

  /** Testing the two ends of a block decides whether any address in it is special. */
  lemma CidrExact(c: Cidr)
    requires c.Valid()
    ensures IsSpecialCidr(c) <==> exists ip :: c.Contains(ip) && IsSpecial(ip)
  {
    BlockFits(c);
    var first, last := c.Address(c.First()), c.Address(c.Last());
    assert c.Contains(first) && c.Contains(last);
    if ip :| c.Contains(ip) && IsSpecial(ip) {
      SpecialInside(c, ip);
    }
  }

  // ---- Rules and hosts ----

  datatype HostRule =
    | ExactIp(ip: IpAddr)
    | Block(net: Cidr)
    | Hostname(hostname: string, addresses: seq<IpAddr>)

  /** A rule after parsing, with the addresses a name resolved to. */
  datatype Parsed =
    | ParsedCidr(net: Cidr)
    | ParsedIp(ip: IpAddr)
    | ParsedName(hostname: string, resolved: seq<IpAddr>)

  /** A host after parsing: its literal address, if it is one, and the name it may stand for. */
  datatype Host = Host(ip: Option<IpAddr>, name: Option<string>)

  predicate IsUnspecified(ip: IpAddr) {
    match ip
    case V4(x) => x == 0
    case V6(x) => x == 0 || ToV4Mapped(x) == Some(0)
  }

  /** The filter on resolved addresses. */
  predicate IsUsable(ip: IpAddr) {
    && !IsUnspecified(ip)
    && match ip
       case V4(x) => !(0xE000_0000 <= x < 0xF000_0000) && x != 0xFFFF_FFFF
       case V6(x) =>
         var mapped := ToV4Mapped(x);
         && x < 0xFF00_0000_0000_0000_0000_0000_0000_0000
         && (mapped.None? || (!(0xE000_0000 <= mapped.value < 0xF000_0000) && mapped.value != 0xFFFF_FFFF))
  }

  predicate AddressLess(a: IpAddr, b: IpAddr) {
    match (a, b)
    case (V4(x), V4(y)) => x < y
    case (V4(_), V6(_)) => true
    case (V6(_), V4(_)) => false
    case (V6(x), V6(y)) => x < y
  }

  ghost predicate Ascending(s: seq<IpAddr>) {
    forall i, j :: 0 <= i < j < |s| ==> AddressLess(s[i], s[j])
  }

  function InsertOnce(ip: IpAddr, s: seq<IpAddr>): (r: seq<IpAddr>)
    requires Ascending(s)
    ensures Ascending(r) && forall x :: x in r <==> x == ip || x in s
  {
    if s == [] || AddressLess(ip, s[0]) then [ip] + s
    else if ip == s[0] then s
    else
      var rest := InsertOnce(ip, s[1..]);
      assert AddressLess(s[0], ip);
      assert forall x :: x in s[1..] ==> AddressLess(s[0], x);
      assert forall i :: 0 <= i < |rest| ==> rest[i] in rest;
      [s[0]] + rest
  }

  /** Sorted and free of repeats. */
  function SortDedup(s: seq<IpAddr>): (r: seq<IpAddr>)
    ensures Ascending(r) && forall x :: x in r <==> x in s
  {
    if s == [] then [] else InsertOnce(s[0], SortDedup(s[1..]))
  }

  function Usable(s: seq<IpAddr>): (r: seq<IpAddr>)
    ensures forall x :: x in r <==> x in s && !IsSpecial(x)
  {
    if s == [] then [] else (if IsUsable(s[0]) then [s[0]] else []) + Usable(s[1..])
  }

  function Compile(p: Parsed): Option<HostRule>
    requires p.ParsedCidr? ==> p.net.Valid()
  {
    match p
    case ParsedCidr(net) => if IsSpecialCidr(net) then None else Some(Block(net))
    case ParsedIp(ip) => if IsSpecial(ip) then None else Some(ExactIp(ip))
    case ParsedName(hostname, resolved) =>
      var addresses := SortDedup(Usable(resolved));
      if addresses == [] then None else Some(Hostname(hostname, addresses))
  }

  /** The address as written and in the other family, when it has a form there. */
  function Candidates(ip: IpAddr): seq<IpAddr> {
    match ip
    case V4(x) => [ip, V6(ToV6Mapped(x))]
    case V6(x) => if ToV4Mapped(x).Some? then [ip, V4(ToV4Mapped(x).value)] else [ip]
  }

  predicate Covers(rule: HostRule, ip: IpAddr)
    requires rule.Block? ==> rule.net.Valid()
  {
    match rule
    case ExactIp(expected) => ip == expected
    case Block(net) => net.Contains(ip)
    case Hostname(_, addresses) => ip in addresses
  }

  predicate AddressMatches(rule: HostRule, ip: IpAddr)
    requires rule.Block? ==> rule.net.Valid()
  {
    exists i :: 0 <= i < |Candidates(ip)| && Covers(rule, Candidates(ip)[i])
  }

  predicate Matches(rule: HostRule, host: Host)
    requires rule.Block? ==> rule.net.Valid()
  {
    || (rule.Hostname? && host.name == Some(rule.hostname))
    || (host.ip.Some? && AddressMatches(rule, host.ip.value))
  }

  ghost predicate ValidRules(rules: seq<HostRule>) {
    forall i :: 0 <= i < |rules| ==> rules[i].Block? ==> rules[i].net.Valid()
  }

  predicate AnyMatches(rules: seq<HostRule>, host: Host)
    requires ValidRules(rules)
  {
    exists i :: 0 <= i < |rules| && Matches(rules[i], host)
  }

  predicate IsAllowed(host: Host, whitelist: seq<HostRule>, blacklist: seq<HostRule>)
    requires ValidRules(whitelist) && ValidRules(blacklist)
  {
    (whitelist == [] || AnyMatches(whitelist, host)) && (blacklist == [] || !AnyMatches(blacklist, host))
  }

  /** Both spellings of an address have the same set of candidates. */
  lemma CandidatesAlike(x: Bits32)
    ensures multiset(Candidates(V4(x))) == multiset(Candidates(V6(ToV6Mapped(x))))
    ensures forall ip :: ip in Candidates(V4(x)) <==> ip in Candidates(V6(ToV6Mapped(x)))
  {
    MappedRoundTrip(x, ToV6Mapped(x));
  }

  lemma CandidatesSpecial(ip: IpAddr, other: IpAddr)
    requires other in Candidates(ip)
    ensures IsSpecial(other) <==> IsSpecial(ip)
  {
    match ip
    case V4(x) => MappedRoundTrip(x, ToV6Mapped(x));
    case V6(x) =>
      if ToV4Mapped(x).Some? {
        MappedRange(x);
      }
  }

  lemma MatchesByCandidate(rule: HostRule, ip: IpAddr)
    requires rule.Block? ==> rule.net.Valid()
    ensures AddressMatches(rule, ip) <==> exists c :: c in Candidates(ip) && Covers(rule, c)
  {
  }

  /** An IPv4 host and its mapped IPv6 spelling match exactly the same rules. */
  lemma MappedHostsAlike(rule: HostRule, x: Bits32)
    requires rule.Block? ==> rule.net.Valid()
    ensures AddressMatches(rule, V4(x)) <==> AddressMatches(rule, V6(ToV6Mapped(x)))
  {
    CandidatesAlike(x);
    MatchesByCandidate(rule, V4(x));
    MatchesByCandidate(rule, V6(ToV6Mapped(x)));
  }

  /** No accepted rule covers a special address, in either family. */
  lemma CompiledNeverSpecial(p: Parsed, ip: IpAddr)
    requires p.ParsedCidr? ==> p.net.Valid()
    requires Compile(p).Some? && IsSpecial(ip)
    ensures !AddressMatches(Compile(p).value, ip)
  {
    var rule := Compile(p).value;
    forall i | 0 <= i < |Candidates(ip)|
      ensures !Covers(rule, Candidates(ip)[i])
    {
      CandidatesSpecial(ip, Candidates(ip)[i]);
      if p.ParsedCidr? {
        CidrExact(p.net);
      }
    }
  }

  /** A block is refused for any special address in it, an address for being one, a name for having no other. */
  lemma CompileRefuses(p: Parsed)
    requires p.ParsedCidr? ==> p.net.Valid()
    ensures Compile(p).None? <==>
            match p
            case ParsedCidr(net) => exists ip :: net.Contains(ip) && IsSpecial(ip)
            case ParsedIp(ip) => IsSpecial(ip)
            case ParsedName(_, resolved) => forall ip :: ip in resolved ==> IsSpecial(ip)
  {
    match p
    case ParsedCidr(net) => CidrExact(net);
    case ParsedIp(ip) =>
    case ParsedName(_, resolved) =>
      var addresses := SortDedup(Usable(resolved));
      assert addresses != [] ==> addresses[0] in Usable(resolved);
      assert addresses == [] <==> forall ip :: ip !in addresses;
  }

  /** With a whitelist, a special address is turned away unless its text is a listed name. */
  lemma SpecialTurnedAway(whitelist: seq<Parsed>, rules: seq<HostRule>, blacklist: seq<HostRule>, host: Host)
    requires |rules| == |whitelist| > 0
    requires forall i :: 0 <= i < |rules| ==>
               (whitelist[i].ParsedCidr? ==> whitelist[i].net.Valid()) && Compile(whitelist[i]) == Some(rules[i])
    requires ValidRules(rules) && ValidRules(blacklist)
    requires host.ip.Some? && IsSpecial(host.ip.value)
    requires forall i :: 0 <= i < |rules| && rules[i].Hostname? ==> host.name != Some(rules[i].hostname)
    ensures !IsAllowed(host, rules, blacklist)
  {
    forall i | 0 <= i < |rules|
      ensures !Matches(rules[i], host)
    {
      CompiledNeverSpecial(whitelist[i], host.ip.value);
    }
  }
}

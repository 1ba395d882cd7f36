/** Which hosts a list of rules lets in, said on the rules as they were parsed. */
module HostDecisions {
  import opened Common
  import opened Addresses
  import opened HostFilter

  /** The address has the leading bits of the block. */
  predicate InNet(net: Cidr, ip: IpAddr)
    requires net.Valid()
  {
    if net.Cidr4? then ip.V4? && ip.v4 / Pow2(32 - net.prefix4) == net.ip4 / Pow2(32 - net.prefix4)
    else ip.V6? && ip.v6 / Pow2(128 - net.prefix6) == net.ip6 / Pow2(128 - net.prefix6)
  }

  lemma SameQuotient(a: nat, x: nat, n: nat)
    requires n > 0
    ensures BlockStart(a, n) <= x <= BlockStart(a, n) + n - 1 <==> x / n == a / n
  {
    if BlockStart(a, n) <= x < BlockStart(a, n) + n {
      SameBlock(n, a, x);
      SameMultiple(n, x / n, a / n);
    }
  }

  lemma SameMultiple(n: nat, q: nat, r: nat)
    requires n > 0 && n * q == n * r
    ensures q == r
  {
    if q < r {
      MulLe(n, q + 1, r);
      MulLe(n, q, r);
    } else if r < q {
      MulLe(n, r + 1, q);
      MulLe(n, r, q);
    }
  }

  /** A block holds exactly the addresses with its leading bits. */
  lemma ContainsExactly(net: Cidr, ip: IpAddr)
    requires net.Valid()
    ensures net.Contains(ip) <==> InNet(net, ip)
  {
    var n := net.Size();
    if net.Cidr4? && ip.V4? {
      SameQuotient(net.ip4, ip.v4, n);
    } else if net.Cidr6? && ip.V6? {
      SameQuotient(net.ip6, ip.v6, n);
    }
  }

  /** For instance, `/32` is one address and `/24` the addresses that differ in the last byte only. */
  lemma SomePrefixes(a: Bits32, b: Bits32, host: nat, byte: nat)
    requires host == 32 && byte == 24
    ensures Cidr4(a, host).Contains(V4(b)) <==> a == b
    ensures Cidr4(a, byte).Contains(V4(b)) <==> a / 256 == b / 256
  {
    ContainsExactly(Cidr4(a, host), V4(b));
    ContainsExactly(Cidr4(a, byte), V4(b));
    EightBits(32 - byte, 32 - host);
  }

  lemma EightBits(eight: nat, zero: nat)
    requires eight == 8 && zero == 0
    ensures Pow2(eight) == 256 && Pow2(zero) == 1
  {
    assert Pow2(4) == 16;
    Pow2Add(4, 4);
  }

  lemma CandidatesAre(ip: IpAddr, x: IpAddr)
    ensures x in Candidates(ip) <==> SameHost(x, ip)
  {
    if ip.V6? {
      MappedBits(ip.v6);
    }
    if x.V6? {
      MappedBits(x.v6);
    }
  }

  /** What a parsed rule says of a host. */
  ghost predicate Says(p: Parsed, host: Host)
    requires p.ParsedCidr? ==> p.net.Valid()
  {
    match p
    case ParsedCidr(net) => host.ip.Some? && exists x :: SameHost(x, host.ip.value) && InNet(net, x)
    case ParsedIp(ip) => host.ip.Some? && SameHost(ip, host.ip.value)
    case ParsedName(hostname, resolved) =>
      host.name == Some(hostname)
      || (host.ip.Some? && exists x :: x in resolved && !IsSpecial(x) && SameHost(x, host.ip.value))
  }

  lemma AddressSays(rule: HostRule, ip: IpAddr)
    requires rule.Block? ==> rule.net.Valid()
    ensures AddressMatches(rule, ip) <==> exists x :: SameHost(x, ip) && Covers(rule, x)
  {
    MatchesByCandidate(rule, ip);
    forall x: IpAddr
      ensures x in Candidates(ip) <==> SameHost(x, ip)
    {
      CandidatesAre(ip, x);
    }
  }

  /** An accepted rule matches exactly the hosts it speaks of. */
  lemma MatchesExactly(p: Parsed, rule: HostRule, host: Host)
    requires (p.ParsedCidr? ==> p.net.Valid()) && Compile(p) == Some(rule)
    ensures (rule.Block? ==> rule.net.Valid()) && (Matches(rule, host) <==> Says(p, host))
  {
    if host.ip.Some? {
      AddressSays(rule, host.ip.value);
      if p.ParsedCidr? {
        forall x: IpAddr
          ensures Covers(rule, x) <==> InNet(p.net, x)
        {
          ContainsExactly(p.net, x);
        }
      }
    }
  }

  /** `rules` are the compiled `ps`, none refused. */
  ghost predicate Compiled(ps: seq<Parsed>, rules: seq<HostRule>) {
    && |rules| == |ps|
    && forall i :: 0 <= i < |ps| ==> (ps[i].ParsedCidr? ==> ps[i].net.Valid()) && Compile(ps[i]) == Some(rules[i])
  }

  lemma CompiledValid(ps: seq<Parsed>, rules: seq<HostRule>, host: Host)
    requires Compiled(ps, rules)
    ensures ValidRules(rules) && forall i :: 0 <= i < |ps| ==> (Matches(rules[i], host) <==> Says(ps[i], host))
  {
    forall i | 0 <= i < |ps|
      ensures (rules[i].Block? ==> rules[i].net.Valid()) && (Matches(rules[i], host) <==> Says(ps[i], host))
    {
      MatchesExactly(ps[i], rules[i], host);
    }
  }

  /** A host is let in if and only if no rule of the blacklist speaks of it and, with a whitelist, one of that does. */
  lemma AllowedExactly(
    whitelist: seq<Parsed>, white: seq<HostRule>, blacklist: seq<Parsed>, black: seq<HostRule>, host: Host)
    requires Compiled(whitelist, white) && Compiled(blacklist, black)
    ensures ValidRules(white) && ValidRules(black)
    ensures IsAllowed(host, white, black) <==>
            && (whitelist == [] || exists i :: 0 <= i < |whitelist| && Says(whitelist[i], host))
            && !exists i :: 0 <= i < |blacklist| && Says(blacklist[i], host)
  {
    CompiledValid(whitelist, white, host);
    CompiledValid(blacklist, black, host);
  }
}

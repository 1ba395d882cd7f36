/** Which registrations are the same session, said on their inputs. */
module SessionKeys {
  import opened Common
  import opened Addresses
  import opened Sessions

  // ---- Addresses ----

  /** An IPv4 peer, whichever form its address has. */
  predicate IsV4Peer(ip: IpAddr) {
    ip.V4? || 0xFFFF_0000_0000 <= ip.v6 <= 0xFFFF_FFFF_FFFF
  }

  /** The address a session goes to; the unspecified one of the peer's family when the text was none. */
  function Target(src: SocketAddr, dst: Destination): IpAddr {
    if dst.ip.Some? then dst.ip.value else if IsV4Peer(src.ip) then V4(0) else V6(0)
  }

  lemma NormalizeSame(a: IpAddr, b: IpAddr)
    ensures NormalizeIp(a) == NormalizeIp(b) <==> SameHost(a, b)
    ensures SameHost(NormalizeIp(a), a) && (NormalizeIp(a).V4? <==> IsV4Peer(a))
  {
    if a.V6? {
      MappedBits(a.v6);
    }
    if b.V6? {
      MappedBits(b.v6);
    }
  }

  lemma TargetIs(src: SocketAddr, dst: Destination)
    ensures DestinationIp(src, dst.ip) == NormalizeIp(Target(src, dst))
  {
    NormalizeSame(src.ip, src.ip);
    MappedBits(0);
  }

  // ---- Protocols ----

  /** `core` is `s` without the blanks and tabs around it. */
  ghost predicate IsCore(s: string, core: string) {
    exists i, j :: 0 <= i <= j <= |s| && CoreAt(s, core, i, j)
  }

  predicate CoreAt(s: string, core: string, i: nat, j: nat)
    requires i <= j <= |s|
  {
    && core == s[i..j]
    && (forall k :: 0 <= k < |s| && (k < i || j <= k) ==> s[k] == ' ' || s[k] == '\t')
    && (core != "" ==> core[0] != ' ' && core[0] != '\t' && core[|core| - 1] != ' ' && core[|core| - 1] != '\t')
  }

  /** `tcp` and `udp`, each letter in either case. */
  predicate SaysTcp(s: string) {
    |s| == 3 && s[0] in "tT" && s[1] in "cC" && s[2] in "pP"
  }

  predicate SaysUdp(s: string) {
    |s| == 3 && s[0] in "uU" && s[1] in "dD" && s[2] in "pP"
  }

  predicate SameName(a: string, b: string) {
    (SaysTcp(a) && SaysTcp(b)) || (SaysUdp(a) && SaysUdp(b)) || a == b
  }

  ghost predicate SameProtocol(p: string, q: string) {
    exists a, b :: IsCore(p, a) && IsCore(q, b) && SameName(a, b)
  }

  /** How a protocol is written in a key. */
  function KeyName(core: string): string {
    if SaysTcp(core) then "TCP" else if SaysUdp(core) then "UDP" else core
  }

  lemma KeyNameSame(a: string, b: string)
    ensures KeyName(a) == KeyName(b) <==> SameName(a, b)
  {
    assert SaysTcp("TCP") && SaysUdp("UDP");
  }

  lemma {:induction false} TrimStartIs(s: string) returns (i: nat)
    ensures i <= |s| && TrimStart(s) == s[i..] && (forall k :: 0 <= k < i ==> IsPad(s[k]))
    ensures i < |s| ==> !IsPad(s[i])
  {
    if s != "" && IsPad(s[0]) {
      var j := TrimStartIs(s[1..]);
      i := j + 1;
      assert forall k :: 1 <= k < i ==> s[k] == s[1..][k - 1];
    } else {
      i := 0;
    }
  }

  lemma {:induction false} TrimEndIs(s: string) returns (j: nat)
    ensures j <= |s| && TrimEnd(s) == s[..j] && (forall k :: j <= k < |s| ==> IsPad(s[k]))
    ensures j > 0 ==> !IsPad(s[j - 1])
  {
    if s != "" && IsPad(s[|s| - 1]) {
      j := TrimEndIs(s[..|s| - 1]);
    } else {
      j := |s|;
    }
  }

  function Trim(s: string): string {
    TrimEnd(TrimStart(s))
  }

  lemma TrimIs(s: string)
    ensures IsCore(s, Trim(s))
  {
    var i := TrimStartIs(s);
    var t := s[i..];
    var j := TrimEndIs(t);
    var core := t[..j];
    assert core == s[i..i + j];
    assert forall k :: i + j <= k < |s| ==> s[k] == t[k - i];
    assert core != "" ==> core[0] == s[i] && core[|core| - 1] == t[j - 1];
    assert CoreAt(s, core, i, i + j);
  }

  lemma CoreUnique(s: string, a: string, b: string)
    requires IsCore(s, a) && IsCore(s, b)
    ensures a == b
  {
    var i, j :| 0 <= i <= j <= |s| && CoreAt(s, a, i, j);
    var x, y :| 0 <= x <= y <= |s| && CoreAt(s, b, x, y);
    if a != "" {
      CoreWithin(s, a, i, j, b, x, y);
    }
    if b != "" {
      CoreWithin(s, b, x, y, a, i, j);
    }
  }

  lemma CoreWithin(s: string, a: string, i: nat, j: nat, b: string, x: nat, y: nat)
    requires i <= j <= |s| && CoreAt(s, a, i, j) && x <= y <= |s| && CoreAt(s, b, x, y) && a != ""
    ensures x <= i < j <= y
  {
    assert s[i] == a[0] && s[j - 1] == a[|a| - 1];
  }

  lemma UpperIs(c: char, lower: char, upper: char)
    requires 'a' <= lower <= 'z' && upper == lower - 'a' + 'A'
    ensures UpperAscii(c) == UpperAscii(upper) <==> c == lower || c == upper
  {
  }

  lemma SaysIs(s: string)
    ensures EqIgnoreCase(s, "TCP") <==> SaysTcp(s)
    ensures EqIgnoreCase(s, "UDP") <==> SaysUdp(s)
  {
    if |s| == 3 {
      UpperIs(s[0], 't', 'T');
      UpperIs(s[1], 'c', 'C');
      UpperIs(s[2], 'p', 'P');
      UpperIs(s[0], 'u', 'U');
      UpperIs(s[1], 'd', 'D');
    }
  }

  /** The protocol of a key: `TCP`, `UDP`, or the text itself without surrounding blanks. */
  lemma ProtocolIs(p: string, core: string)
    requires IsCore(p, core)
    ensures NormalizeProtocol(p) == KeyName(core)
  {
    TrimIs(p);
    CoreUnique(p, core, Trim(p));
    SaysIs(core);
  }

  lemma ProtocolSame(p: string, q: string)
    ensures NormalizeProtocol(p) == NormalizeProtocol(q) <==> SameProtocol(p, q)
  {
    TrimIs(p);
    TrimIs(q);
    CoresSame(p, Trim(p), q, Trim(q));
    if a, b :| IsCore(p, a) && IsCore(q, b) && SameName(a, b) {
      CoresSame(p, a, q, b);
    }
  }

  lemma CoresSame(p: string, a: string, q: string, b: string)
    requires IsCore(p, a) && IsCore(q, b)
    ensures NormalizeProtocol(p) == NormalizeProtocol(q) <==> SameName(a, b)
  {
    ProtocolIs(p, a);
    ProtocolIs(q, b);
    KeyNameSame(a, b);
  }

  // ---- Keys ----

  ghost predicate SameSession(
    src: SocketAddr, dst: Destination, protocol: string, src': SocketAddr, dst': Destination, protocol': string)
  {
    && SameHost(src.ip, src'.ip) && src.port == src'.port
    && SameHost(Target(src, dst), Target(src', dst')) && dst.port == dst'.port
    && SameProtocol(protocol, protocol')
  }

  /**
   Two registrations have one key if and only if they are between the same hosts and ports, up to
   the IPv4-mapped form, and over the same protocol, up to blanks around it and the case of TCP and UDP.
   */
  lemma KeysExactly(
    src: SocketAddr, dst: Destination, protocol: string, src': SocketAddr, dst': Destination, protocol': string)
    ensures KeyOf(src, dst, protocol) == KeyOf(src', dst', protocol')
       <==> SameSession(src, dst, protocol, src', dst', protocol')
  {
    NormalizeSame(src.ip, src'.ip);
    TargetIs(src, dst);
    TargetIs(src', dst');
    NormalizeSame(Target(src, dst), Target(src', dst'));
    ProtocolSame(protocol, protocol');
  }

  /** What a key says: the peer is its source, the destination its target. */
  lemma KeyDescribes(src: SocketAddr, dst: Destination, protocol: string, core: string)
    requires IsCore(protocol, core)
    ensures var key := KeyOf(src, dst, protocol);
      && SameHost(key.srcIp, src.ip) && (key.srcIp.V4? <==> IsV4Peer(src.ip)) && key.srcPort == src.port
      && SameHost(key.dstIp, Target(src, dst)) && (key.dstIp.V4? <==> IsV4Peer(Target(src, dst)))
      && key.dstPort == dst.port
      && key.protocol == KeyName(core)
  {
    NormalizeSame(src.ip, src.ip);
    TargetIs(src, dst);
    NormalizeSame(Target(src, dst), src.ip);
    ProtocolIs(protocol, core);
  }
}

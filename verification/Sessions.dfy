/**
 Session tracking: what the tracker does, with lazy expiry, and a reference tracker that
 drops every session the moment its time to live has passed.
 */
module Sessions {
  import opened Common
  import opened Addresses

  // ---- Keys ----

  datatype SocketAddr = SocketAddr(ip: IpAddr, port: nat)

  /** A destination; its address is `None` when its text does not parse. */
  datatype Destination = Destination(ip: Option<IpAddr>, port: nat)

  datatype SessionKey = SessionKey(srcIp: IpAddr, srcPort: nat, dstIp: IpAddr, dstPort: nat, protocol: string)

  function NormalizeIp(ip: IpAddr): IpAddr {
    match ip
    case V4(_) => ip
    case V6(bits) => var mapped := ToV4Mapped(bits); if mapped.Some? then V4(mapped.value) else ip
  }

  function DestinationIp(peer: SocketAddr, ip: Option<IpAddr>): IpAddr {
    if ip.Some? then NormalizeIp(ip.value)
    else if NormalizeIp(peer.ip).V4? then V4(0)
    else V6(0)
  }

  predicate IsPad(c: char) {
    c == ' ' || c == '\t'
  }

  function TrimStart(s: string): string {
    if s != "" && IsPad(s[0]) then TrimStart(s[1..]) else s
  }

  function TrimEnd(s: string): string {
    if s != "" && IsPad(s[|s| - 1]) then TrimEnd(s[..|s| - 1]) else s
  }

  function UpperAscii(c: char): char {
    if 'a' <= c <= 'z' then c - 'a' + 'A' else c
  }

  predicate EqIgnoreCase(s: string, t: string) {
    |s| == |t| && forall i :: 0 <= i < |s| ==> UpperAscii(s[i]) == UpperAscii(t[i])
  }

  function NormalizeProtocol(protocol: string): string {
    var p := TrimEnd(TrimStart(protocol));
    if EqIgnoreCase(p, "TCP") then "TCP" else if EqIgnoreCase(p, "UDP") then "UDP" else p
  }

  function KeyOf(src: SocketAddr, dst: Destination, protocol: string): SessionKey {
    SessionKey(NormalizeIp(src.ip), src.port, DestinationIp(src, dst.ip), dst.port, NormalizeProtocol(protocol))
  }

  /** A peer seen as an IPv4-mapped IPv6 address, on either side, is the same session. */
  lemma MappedPeersShareKey(a: Bits32, b: Bits32, srcPort: nat, dstPort: nat, protocol: string)
    ensures KeyOf(SocketAddr(V6(ToV6Mapped(a)), srcPort), Destination(Some(V6(ToV6Mapped(b))), dstPort), protocol)
         == KeyOf(SocketAddr(V4(a), srcPort), Destination(Some(V4(b)), dstPort), protocol)
    ensures KeyOf(SocketAddr(V6(ToV6Mapped(a)), srcPort), Destination(None, dstPort), protocol)
         == KeyOf(SocketAddr(V4(a), srcPort), Destination(None, dstPort), protocol)
  {
    MappedRoundTrip(a, 0);
    MappedRoundTrip(b, 0);
  }

  // ---- Sessions ----

  datatype Info = Info(
    dstIp: IpAddr, dstPort: nat, listener: string, processName: Option<string>, processPid: Option<nat>,
    startedAt: string, lastActivity: nat, bytesSent: nat, bytesReceived: nat, packets: nat)

  type Table = map<SessionKey, Info>

  datatype Config = Config(ttl: nat, cleanupInterval: nat, maxSessions: nat)

  datatype Tracker = Tracker(sessions: Table, lastCleanup: nat)

  predicate Live(c: Config, info: Info, now: nat) {
    Elapsed(now, info.lastActivity) < c.ttl
  }

  /** The sessions that are live at `now`. */
  function Alive(c: Config, m: Table, now: nat): Table {
    map k | k in m && Live(c, m[k], now) :: m[k]
  }

  ghost predicate IsOldest(m: Table, key: SessionKey) {
    key in m && forall k :: k in m ==> m[key].lastActivity <= m[k].lastActivity
  }

  function Fresh(key: SessionKey, listener: string, startedAt: string, now: nat): Info {
    Info(key.dstIp, key.dstPort, listener, None, None, startedAt, now, 0, 0, 0)
  }

  function Touch(info: Info, listener: string, now: nat): Info {
    info.(listener := listener, lastActivity := now)
  }

  function AddTraffic(info: Info, received: nat, sent: nat, now: nat): Info {
    info.(bytesReceived := SaturatingAdd(info.bytesReceived, received, U64_MAX),
          bytesSent := SaturatingAdd(info.bytesSent, sent, U64_MAX),
          packets := SaturatingAdd(info.packets, 1, U64_MAX),
          lastActivity := now)
  }

  predicate Matches(key: SessionKey, srcIp: IpAddr, srcPort: nat, protocol: string, dstPort: nat) {
    key.srcIp == srcIp && key.srcPort == srcPort && key.protocol == protocol && key.dstPort == dstPort
  }

  function Matching(m: Table, srcIp: IpAddr, srcPort: nat, protocol: string, dstPort: nat): set<SessionKey> {
    set k | k in m && Matches(k, srcIp, srcPort, protocol, dstPort)
  }

  // ---- Operations and their answers ----

  datatype Op =
    | Register(key: SessionKey, listener: string, startedAt: string)
    | UpdateBytes(key: SessionKey, received: nat, sent: nat)
    | SetProcess(key: SessionKey, name: Option<string>, pid: Option<nat>)
    | Remove(key: SessionKey)
    | Cleanup
    | GetProcess(key: SessionKey)
    | GetOriginal(key: SessionKey)
    | GetDestination(srcIp: IpAddr, srcPort: nat, protocol: string, dstPort: nat)
    | ActiveCount

  datatype Answer =
    | Done
    | IsNew(isNew: bool)
    | Process(process: Option<(Option<string>, Option<nat>)>)
    | Target(target: Option<(IpAddr, nat)>)
    | Number(count: nat)
    // The keys of the sessions a cleanup removed.
    | Gone(keys: set<SessionKey>)

  /** A call: its operation, its clock reading, the session it evicts if it evicts one, and its answer. */
  datatype Call = Call(op: Op, now: nat, victim: SessionKey, answer: Answer)

  /** What a read answers from a table of live sessions. */
  ghost predicate Answers(m: Table, op: Op, answer: Answer) {
    match op
    case GetProcess(key) =>
      answer == Process(if key in m then Some((m[key].processName, m[key].processPid)) else None)
    case GetOriginal(key) => answer == Target(if key in m then Some((m[key].dstIp, m[key].dstPort)) else None)
    case GetDestination(srcIp, srcPort, protocol, dstPort) =>
      var ks := Matching(m, srcIp, srcPort, protocol, dstPort);
      && answer.Target?
      && (|ks| != 1 ==> answer.target == None)
      && (|ks| == 1 ==> exists k :: k in ks && answer.target == Some((m[k].dstIp, m[k].dstPort)))
    case ActiveCount => answer == Number(|m|)
    case _ => false
  }

  // ---- The tracker ----

  function AfterPeriodicCleanup(c: Config, s: Tracker, now: nat): Tracker {
    if Elapsed(now, s.lastCleanup) > c.cleanupInterval then Tracker(Alive(c, s.sessions, now), now) else s
  }

  /** The table a new session is inserted into, if it is not full. */
  function BeforeInsert(c: Config, s: Tracker, key: SessionKey, now: nat): Table {
    AfterPeriodicCleanup(c, s, now).sessions - {key}
  }

  predicate IsFull(c: Config, m: Table) {
    c.maxSessions != 0 && |m| >= c.maxSessions
  }

  function Evict(c: Config, m: Table, victim: SessionKey): Table {
    if IsFull(c, m) then m - {victim} else m
  }

  /** The session with `key`, if it is there and live, changed by `f`; an expired one is dropped. */
  function Change(c: Config, m: Table, key: SessionKey, now: nat, f: Info -> Info): Table {
    if key !in m then m else if Live(c, m[key], now) then m[key := f(m[key])] else m - {key}
  }

  ghost predicate TrackerStep(c: Config, s: Tracker, call: Call, s': Tracker) {
    var now := call.now;
    match call.op
    case Register(key, listener, startedAt) =>
      var cleaned := AfterPeriodicCleanup(c, s, now);
      if key in cleaned.sessions && Live(c, cleaned.sessions[key], now) then
        && call.answer == IsNew(false)
        && s' == cleaned.(sessions := cleaned.sessions[key := Touch(cleaned.sessions[key], listener, now)])
      else
        var m := BeforeInsert(c, s, key, now);
        && call.answer == IsNew(true)
        && (IsFull(c, m) ==> IsOldest(m, call.victim))
        && s' == cleaned.(sessions := Evict(c, m, call.victim)[key := Fresh(key, listener, startedAt, now)])
    case UpdateBytes(key, received, sent) =>
      && call.answer == Done
      && s' == s.(sessions := Change(c, s.sessions, key, now, (i: Info) => AddTraffic(i, received, sent, now)))
    case SetProcess(key, name, pid) =>
      && call.answer == Done
      && s' == s.(sessions := Change(c, s.sessions, key, now, (i: Info) => i.(processName := name, processPid := pid)))
    case Remove(key) => call.answer == Done && s' == s.(sessions := s.sessions - {key})
    case Cleanup =>
      s' == s.(sessions := Alive(c, s.sessions, now)) && call.answer == Gone(s.sessions.Keys - s'.sessions.Keys)
    case _ => s' == s.(sessions := Alive(c, s.sessions, now)) && Answers(s'.sessions, call.op, call.answer)
  }

  // ---- The reference: sessions disappear the moment they expire ----

  /** One call on a table that holds live sessions only and knows nothing of expiry. */
  ghost predicate ReferenceStep(c: Config, m: Table, call: Call, m': Table) {
    match call.op
    case Register(key, listener, startedAt) =>
      if key in m then call.answer == IsNew(false) && m' == m[key := Touch(m[key], listener, call.now)]
      else
        && call.answer == IsNew(true)
        && (IsFull(c, m) ==> IsOldest(m, call.victim))
        && m' == Evict(c, m, call.victim)[key := Fresh(key, listener, startedAt, call.now)]
    case UpdateBytes(key, received, sent) =>
      call.answer == Done && m' == if key in m then m[key := AddTraffic(m[key], received, sent, call.now)] else m
    case SetProcess(key, name, pid) =>
      call.answer == Done && m' == if key in m then m[key := m[key].(processName := name, processPid := pid)] else m
    case Remove(key) => call.answer == Done && m' == m - {key}
    case Cleanup => call.answer == Gone({}) && m' == m
    case _ => m' == m && Answers(m, call.op, call.answer)
  }

  /** The call as the eager tracker answers it: a cleanup finds nothing to remove. */
  function Eagerly(call: Call): Call {
    if call.op.Cleanup? then call.(answer := Gone({})) else call
  }

  /** Expiry comes first and last, so that the table never holds an expired session. */
  ghost predicate EagerStep(c: Config, m: Table, call: Call, m': Table) {
    exists r: Table :: ReferenceStep(c, Alive(c, m, call.now), call, r) && m' == Alive(c, r, call.now)
  }

  // ---- Executions ----

  ghost predicate Monotone(calls: seq<Call>) {
    forall i, j :: 0 <= i < j < |calls| ==> calls[i].now <= calls[j].now
  }

  ghost predicate TrackerRun(c: Config, run: seq<Tracker>, calls: seq<Call>) {
    && |run| == |calls| + 1 && run[0].sessions == map[] && Monotone(calls)
    && forall i :: 0 <= i < |calls| ==> TrackerStep(c, run[i], calls[i], run[i + 1])
  }

  ghost predicate EagerRun(c: Config, run: seq<Table>, calls: seq<Call>) {
    && |run| == |calls| + 1 && run[0] == map[]
    && forall i :: 0 <= i < |calls| ==> EagerStep(c, run[i], calls[i], run[i + 1])
  }
}

/** The tracker object: every method is a step of the model in `Sessions`. */
module SessionTracking {
  import opened Common
  import opened Addresses
  import opened Sessions

  class SessionTracker {
    const config: Config
    var sessions: Table
    var lastCleanup: nat

    function State(): Tracker
      reads this
    {
      Tracker(sessions, lastCleanup)
    }

    constructor (ttl: nat, cleanupInterval: nat, maxSessions: nat, now: nat)
      ensures config == Config(ttl, cleanupInterval, maxSessions)
      ensures State() == Tracker(map[], now)
    {
      config := Config(ttl, cleanupInterval, maxSessions);
      sessions, lastCleanup := map[], now;
    }

    /** Whether the session is new. `victim` is the session evicted, if one had to be. */
    method Register(src: SocketAddr, dst: Destination, listener: string, protocol: string, startedAt: string, now: nat)
      returns (isNew: bool, ghost victim: SessionKey)
      modifies this
      ensures TrackerStep(config, old(State()),
                          Call(Op.Register(KeyOf(src, dst, protocol), listener, startedAt), now, victim, IsNew(isNew)),
                          State())
    {
      var key := KeyOf(src, dst, protocol);
      victim := key;
      if Elapsed(now, lastCleanup) > config.cleanupInterval {
        var expired := CleanupExpiredKeys(now);
        lastCleanup := now;
      }
      assert State() == AfterPeriodicCleanup(config, old(State()), now);
      var expired := key in sessions && !Live(config, sessions[key], now);
      if expired {
        sessions := sessions - {key};
      } else if key in sessions {
        sessions := sessions[key := Touch(sessions[key], listener, now)];
        return false, victim;
      } else {
        assert sessions - {key} == sessions;
      }
      victim := EnforceSessionCapacity(key);
      var ip := DestinationIp(src, dst.ip);
      sessions := sessions[key := Info(ip, dst.port, listener, None, None, startedAt, now, 0, 0, 0)];
      isNew := true;
    }

    method EnforceSessionCapacity(ghost ifNone: SessionKey) returns (ghost victim: SessionKey)
      modifies this`sessions
      ensures sessions == Evict(config, old(sessions), victim)
      ensures IsFull(config, old(sessions)) ==> IsOldest(old(sessions), victim)
    {
      victim := ifNone;
      if config.maxSessions == 0 || |sessions| < config.maxSessions {
        return;
      }
      var oldest := OldestKey();
      victim := oldest;
      sessions := sessions - {oldest};
    }

    /** `min_by_key` over the table, visited in any order. */
    method OldestKey() returns (oldest: SessionKey)
      requires |sessions| > 0
      ensures IsOldest(sessions, oldest)
    {
      var rest := sessions.Keys;
      assert rest != {};
      oldest :| oldest in rest;
      rest := rest - {oldest};
      while rest != {}
        invariant rest <= sessions.Keys && oldest in sessions
        invariant forall k :: k in sessions && k !in rest ==> sessions[oldest].lastActivity <= sessions[k].lastActivity
        decreases |rest|
      {
        var k :| k in rest;
        if sessions[k].lastActivity < sessions[oldest].lastActivity {
          oldest := k;
        }
        rest := rest - {k};
      }
    }

    method CleanupExpiredKeys(now: nat) returns (expired: set<SessionKey>)
      modifies this`sessions
      ensures sessions == Alive(config, old(sessions), now)
      ensures expired == old(sessions).Keys - sessions.Keys
    {
      expired := set k | k in sessions && !Live(config, sessions[k], now);
      sessions := map k | k in sessions && k !in expired :: sessions[k];
    }

    /** Cleanup at once, and what was removed. */
    method CleanupExpiredSessions(now: nat) returns (expired: set<SessionKey>)
      modifies this
      ensures forall victim :: TrackerStep(config, old(State()), Call(Cleanup, now, victim, Gone(expired)), State())
    {
      expired := CleanupExpiredKeys(now);
    }

    method UpdateBytes(src: SocketAddr, protocol: string, dst: Destination, received: nat, sent: nat, now: nat)
      modifies this
      ensures forall victim :: TrackerStep(config, old(State()),
                Call(Op.UpdateBytes(KeyOf(src, dst, protocol), received, sent), now, victim, Done), State())
    {
      var key := KeyOf(src, dst, protocol);
      if key in sessions && !Live(config, sessions[key], now) {
        sessions := sessions - {key};
        return;
      }
      if key in sessions {
        var session := sessions[key];
        session := session.(bytesReceived := SaturatingAdd(session.bytesReceived, received, U64_MAX));
        session := session.(bytesSent := SaturatingAdd(session.bytesSent, sent, U64_MAX));
        session := session.(packets := SaturatingAdd(session.packets, 1, U64_MAX));
        session := session.(lastActivity := now);
        sessions := sessions[key := session];
      }
    }

    /** `name` is the process name after sanitizing. */
    method SetProcess(
      src: SocketAddr, protocol: string, dst: Destination, name: Option<string>, pid: Option<nat>, now: nat)
      modifies this
      ensures forall victim :: TrackerStep(config, old(State()),
                Call(Op.SetProcess(KeyOf(src, dst, protocol), name, pid), now, victim, Done), State())
    {
      var key := KeyOf(src, dst, protocol);
      if key in sessions && !Live(config, sessions[key], now) {
        sessions := sessions - {key};
        return;
      }
      if key in sessions {
        sessions := sessions[key := sessions[key].(processName := name, processPid := pid)];
      }
    }

    method GetProcess(src: SocketAddr, protocol: string, dst: Destination, now: nat)
      returns (r: Option<(Option<string>, Option<nat>)>)
      modifies this
      ensures forall victim :: TrackerStep(config, old(State()),
                Call(Op.GetProcess(KeyOf(src, dst, protocol)), now, victim, Process(r)), State())
    {
      var expired := CleanupExpiredKeys(now);
      var key := KeyOf(src, dst, protocol);
      r := if key in sessions then Some((sessions[key].processName, sessions[key].processPid)) else None;
    }

    method GetOriginalDest(src: SocketAddr, protocol: string, dst: Destination, now: nat)
      returns (r: Option<(IpAddr, nat)>)
      modifies this
      ensures forall victim :: TrackerStep(config, old(State()),
                Call(Op.GetOriginal(KeyOf(src, dst, protocol)), now, victim, Target(r)), State())
    {
      var expired := CleanupExpiredKeys(now);
      var key := KeyOf(src, dst, protocol);
      r := if key in sessions then Some((sessions[key].dstIp, sessions[key].dstPort)) else None;
    }

    method GetDestinationForPort(src: SocketAddr, protocol: string, dstPort: nat, now: nat)
      returns (r: Option<(IpAddr, nat)>)
      modifies this
      ensures forall victim :: TrackerStep(config, old(State()),
                Call(GetDestination(NormalizeIp(src.ip), src.port, NormalizeProtocol(protocol), dstPort),
                     now, victim, Target(r)),
                State())
    {
      var expired := CleanupExpiredKeys(now);
      var matches := Matching(sessions, NormalizeIp(src.ip), src.port, NormalizeProtocol(protocol), dstPort);
      if matches == {} {
        return None;
      }
      var key :| key in matches;
      if matches - {key} != {} {
        assert |matches| == |matches - {key}| + 1;
        return None;
      }
      assert matches == {key};
      r := Some((sessions[key].dstIp, sessions[key].dstPort));
    }

    method Remove(src: SocketAddr, protocol: string, dst: Destination, now: nat)
      modifies this
      ensures forall victim :: TrackerStep(config, old(State()),
                Call(Op.Remove(KeyOf(src, dst, protocol)), now, victim, Done), State())
    {
      sessions := sessions - {KeyOf(src, dst, protocol)};
    }

    method ActiveCount(now: nat) returns (n: nat)
      modifies this
      ensures forall victim :: TrackerStep(config, old(State()), Call(Op.ActiveCount, now, victim, Number(n)), State())
    {
      var expired := CleanupExpiredKeys(now);
      n := |sessions|;
    }
  }
}

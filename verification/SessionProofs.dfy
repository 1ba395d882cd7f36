/**
 Lazy expiry cannot be told from eager expiry, except by the list of keys that a cleanup
 returns; `SessionCleanup` says what that list holds.
 */
module SessionProofs {
  import opened Common
  import opened Addresses
  import opened Sessions

  /** What every call leaves behind, with `now` its clock reading. */
  ghost predicate Inv(c: Config, m: Table, now: nat) {
    && (c.maxSessions != 0 ==> |m| <= c.maxSessions)
    && forall k :: k in m ==> m[k].lastActivity <= now && m[k].dstIp == k.dstIp && m[k].dstPort == k.dstPort
  }

  lemma AliveLater(c: Config, m: Table, now: nat, later: nat)
    requires now <= later
    ensures Alive(c, Alive(c, m, now), later) == Alive(c, m, later)
  {
  }

  lemma AliveUpdate(c: Config, m: Table, key: SessionKey, info: Info, now: nat)
    ensures Alive(c, m[key := info], now)
         == if Live(c, info, now) then Alive(c, m, now)[key := info] else Alive(c, m, now) - {key}
  {
  }

  lemma AliveRemove(c: Config, m: Table, key: SessionKey, now: nat)
    ensures Alive(c, m - {key}, now) == Alive(c, m, now) - {key}
    ensures key in m && !Live(c, m[key], now) ==> Alive(c, m, now) - {key} == Alive(c, m, now)
  {
  }

  lemma AliveSize(c: Config, m: Table, now: nat)
    ensures |Alive(c, m, now)| <= |m|
    ensures |Alive(c, m, now)| == |m| ==> Alive(c, m, now) == m
  {
    var a := Alive(c, m, now);
    var gone := m.Keys - a.Keys;
    assert m.Keys == a.Keys + gone;
    assert |m.Keys| == |m| && |a.Keys| == |a|;
    if |a| == |m| {
      assert gone == {};
    }
  }

  /** The oldest session is live only when all are. */
  lemma OldestLive(c: Config, m: Table, victim: SessionKey, now: nat)
    requires IsOldest(m, victim)
    ensures Live(c, m[victim], now) ==> Alive(c, m, now) == m
  {
  }

  /** Capacity never costs a live session while an expired one is in the table. */
  lemma EvictsExpiredFirst(c: Config, m: Table, victim: SessionKey, now: nat)
    requires IsOldest(m, victim) && exists k :: k in m && !Live(c, m[k], now)
    ensures !Live(c, m[victim], now) && Alive(c, m - {victim}, now) == Alive(c, m, now)
  {
    OldestLive(c, m, victim, now);
    AliveRemove(c, m, victim, now);
  }

  /** Evicting from the table and evicting from its live part agree. */
  lemma EvictAgrees(c: Config, m: Table, victim: SessionKey, now: nat)
    requires c.maxSessions != 0 ==> |m| <= c.maxSessions
    requires IsFull(c, m) ==> IsOldest(m, victim)
    ensures IsFull(c, Alive(c, m, now)) ==> IsOldest(Alive(c, m, now), victim)
    ensures Alive(c, Evict(c, m, victim), now) == Evict(c, Alive(c, m, now), victim)
    ensures c.maxSessions != 0 ==> |Evict(c, m, victim)| < c.maxSessions
  {
    AliveSize(c, m, now);
    if IsFull(c, m) {
      AliveRemove(c, m, victim, now);
      assert (m - {victim}).Keys == m.Keys - {victim};
      assert |(m - {victim}).Keys| == |m - {victim}|;
      OldestLive(c, m, victim, now);
      if !Live(c, m[victim], now) {
        assert victim !in Alive(c, m, now);
      }
    }
  }

  lemma PeriodicCleanup(c: Config, s: Tracker, now: nat)
    ensures Alive(c, AfterPeriodicCleanup(c, s, now).sessions, now) == Alive(c, s.sessions, now)
    ensures Inv(c, s.sessions, now) ==> Inv(c, AfterPeriodicCleanup(c, s, now).sessions, now)
  {
    AliveLater(c, s.sessions, now, now);
    AliveSize(c, s.sessions, now);
  }

  lemma InsertSize(m: Table, key: SessionKey, info: Info)
    ensures |m[key := info]| <= |m| + 1
    ensures key in m ==> |m[key := info]| == |m|
  {
    assert m[key := info].Keys == m.Keys + {key};
    assert |m[key := info].Keys| == |m[key := info]| && |m.Keys| == |m|;
    if key in m {
      assert m.Keys + {key} == m.Keys;
    }
  }

  lemma RemoveSize(m: Table, key: SessionKey)
    ensures |m - {key}| <= |m|
  {
    assert (m - {key}).Keys == m.Keys - {key};
    assert |(m - {key}).Keys| == |m - {key}| && |m.Keys| == |m|;
  }

  // ---- Each operation ----

  /** A registration of a session that is live. */
  lemma TouchAgrees(c: Config, s: Tracker, call: Call, s': Tracker)
    requires Inv(c, s.sessions, call.now) && TrackerStep(c, s, call, s') && call.op.Register?
    requires call.op.key in Alive(c, s.sessions, call.now)
    ensures Inv(c, s'.sessions, call.now)
    ensures EagerStep(c, Alive(c, s.sessions, call.now), call, Alive(c, s'.sessions, call.now))
  {
    var now, key := call.now, call.op.key;
    var m, a := AfterPeriodicCleanup(c, s, now).sessions, Alive(c, s.sessions, now);
    PeriodicCleanup(c, s, now);
    AliveLater(c, s.sessions, now, now);
    var info := Touch(a[key], call.op.listener, now);
    assert key in Alive(c, m, now) && m[key] == a[key];
    AliveUpdate(c, m, key, info, now);
    AliveUpdate(c, a, key, info, now);
    InsertSize(m, key, info);
    assert ReferenceStep(c, a, call, a[key := info]);
  }

  lemma BeforeInsertAgrees(c: Config, s: Tracker, key: SessionKey, now: nat)
    requires Inv(c, s.sessions, now) && key !in Alive(c, s.sessions, now)
    ensures Alive(c, BeforeInsert(c, s, key, now), now) == Alive(c, s.sessions, now)
    ensures Inv(c, BeforeInsert(c, s, key, now), now)
    ensures var m := AfterPeriodicCleanup(c, s, now).sessions; !(key in m && Live(c, m[key], now))
  {
    var m, a := AfterPeriodicCleanup(c, s, now).sessions, Alive(c, s.sessions, now);
    PeriodicCleanup(c, s, now);
    assert key !in Alive(c, m, now);
    AliveRemove(c, m, key, now);
    assert a - {key} == a;
    RemoveSize(m, key);
  }

  lemma InsertedInv(c: Config, e: Table, key: SessionKey, info: Info, now: nat)
    requires Inv(c, e, now) && (c.maxSessions != 0 ==> |e| < c.maxSessions)
    requires info.lastActivity <= now && info.dstIp == key.dstIp && info.dstPort == key.dstPort
    ensures Inv(c, e[key := info], now)
  {
    InsertSize(e, key, info);
  }

  lemma InsertedAlive(c: Config, e: Table, a: Table, key: SessionKey, info: Info, now: nat)
    requires a == Alive(c, e, now)
    ensures Alive(c, e[key := info], now) == Alive(c, a[key := info], now)
  {
    AliveUpdate(c, e, key, info, now);
    AliveUpdate(c, a, key, info, now);
    AliveLater(c, e, now, now);
  }

  lemma InsertedAgrees(c: Config, m: Table, victim: SessionKey, key: SessionKey, info: Info, now: nat)
    requires Inv(c, m, now) && (IsFull(c, m) ==> IsOldest(m, victim))
    requires info.lastActivity <= now && info.dstIp == key.dstIp && info.dstPort == key.dstPort
    ensures Inv(c, Evict(c, m, victim)[key := info], now)
    ensures Alive(c, Evict(c, m, victim)[key := info], now)
         == Alive(c, Evict(c, Alive(c, m, now), victim)[key := info], now)
    ensures IsFull(c, Alive(c, m, now)) ==> IsOldest(Alive(c, m, now), victim)
  {
    EvictAgrees(c, m, victim, now);
    InsertedInv(c, Evict(c, m, victim), key, info, now);
    InsertedAlive(c, Evict(c, m, victim), Evict(c, Alive(c, m, now), victim), key, info, now);
  }

  lemma EagerIntro(c: Config, m: Table, call: Call, r: Table, m': Table)
    requires ReferenceStep(c, Alive(c, m, call.now), call, r) && m' == Alive(c, r, call.now)
    ensures EagerStep(c, Alive(c, m, call.now), call, m')
  {
    AliveLater(c, m, call.now, call.now);
  }

  /** A registration of a session that is unknown or has expired. */
  lemma InsertAgrees(c: Config, s: Tracker, call: Call, s': Tracker)
    requires Inv(c, s.sessions, call.now) && TrackerStep(c, s, call, s') && call.op.Register?
    requires call.op.key !in Alive(c, s.sessions, call.now)
    ensures Inv(c, s'.sessions, call.now)
    ensures EagerStep(c, Alive(c, s.sessions, call.now), call, Alive(c, s'.sessions, call.now))
  {
    var now, key := call.now, call.op.key;
    BeforeInsertAgrees(c, s, key, now);
    var m, a := BeforeInsert(c, s, key, now), Alive(c, s.sessions, now);
    var info := Fresh(key, call.op.listener, call.op.startedAt, now);
    assert s'.sessions == Evict(c, m, call.victim)[key := info];
    InsertedAgrees(c, m, call.victim, key, info, now);
    EagerIntro(c, s.sessions, call, Evict(c, a, call.victim)[key := info], Alive(c, s'.sessions, now));
  }

  lemma ChangeAgrees(c: Config, m: Table, key: SessionKey, now: nat, f: Info -> Info)
    requires Inv(c, m, now)
    requires key in m ==>
               && f(m[key]).lastActivity <= now
               && f(m[key]).dstIp == m[key].dstIp && f(m[key]).dstPort == m[key].dstPort
    ensures Inv(c, Change(c, m, key, now, f), now)
    ensures var a := Alive(c, m, now);
      Alive(c, Change(c, m, key, now, f), now) == Alive(c, if key in a then a[key := f(a[key])] else a, now)
  {
    var a := Alive(c, m, now);
    AliveLater(c, m, now, now);
    if key in m {
      AliveUpdate(c, m, key, f(m[key]), now);
      AliveUpdate(c, a, key, f(m[key]), now);
      AliveRemove(c, m, key, now);
      InsertSize(m, key, f(m[key]));
      RemoveSize(m, key);
    }
  }

  lemma UpdateAgrees(c: Config, s: Tracker, call: Call, s': Tracker)
    requires Inv(c, s.sessions, call.now) && TrackerStep(c, s, call, s') && call.op.UpdateBytes?
    ensures Inv(c, s'.sessions, call.now)
    ensures EagerStep(c, Alive(c, s.sessions, call.now), call, Alive(c, s'.sessions, call.now))
  {
    var now, key, a := call.now, call.op.key, Alive(c, s.sessions, call.now);
    var f := (i: Info) => AddTraffic(i, call.op.received, call.op.sent, now);
    ChangeAgrees(c, s.sessions, key, now, f);
    EagerIntro(c, s.sessions, call, if key in a then a[key := f(a[key])] else a, Alive(c, s'.sessions, now));
  }

  lemma SetProcessAgrees(c: Config, s: Tracker, call: Call, s': Tracker)
    requires Inv(c, s.sessions, call.now) && TrackerStep(c, s, call, s') && call.op.SetProcess?
    ensures Inv(c, s'.sessions, call.now)
    ensures EagerStep(c, Alive(c, s.sessions, call.now), call, Alive(c, s'.sessions, call.now))
  {
    var now, key, a := call.now, call.op.key, Alive(c, s.sessions, call.now);
    var f := (i: Info) => i.(processName := call.op.name, processPid := call.op.pid);
    ChangeAgrees(c, s.sessions, key, now, f);
    EagerIntro(c, s.sessions, call, if key in a then a[key := f(a[key])] else a, Alive(c, s'.sessions, now));
  }

  lemma OtherAgrees(c: Config, s: Tracker, call: Call, s': Tracker)
    requires Inv(c, s.sessions, call.now) && TrackerStep(c, s, call, s')
    requires !call.op.Register? && !call.op.UpdateBytes? && !call.op.SetProcess?
    ensures Inv(c, s'.sessions, call.now)
    ensures EagerStep(c, Alive(c, s.sessions, call.now), Eagerly(call), Alive(c, s'.sessions, call.now))
  {
    var now, m := call.now, s.sessions;
    var a := Alive(c, m, now);
    AliveLater(c, m, now, now);
    AliveSize(c, m, now);
    if call.op.Remove? {
      AliveRemove(c, m, call.op.key, now);
      AliveRemove(c, a, call.op.key, now);
      RemoveSize(m, call.op.key);
      assert ReferenceStep(c, a, call, a - {call.op.key});
    } else {
      assert ReferenceStep(c, a, Eagerly(call), a);
    }
  }

  /** One call of the tracker is one call of the eager tracker, with the same answer unless it is a cleanup. */
  lemma StepRefines(c: Config, s: Tracker, call: Call, s': Tracker)
    requires Inv(c, s.sessions, call.now) && TrackerStep(c, s, call, s')
    ensures Inv(c, s'.sessions, call.now)
    ensures EagerStep(c, Alive(c, s.sessions, call.now), Eagerly(call), Alive(c, s'.sessions, call.now))
  {
    if call.op.Register? {
      if call.op.key in Alive(c, s.sessions, call.now) {
        TouchAgrees(c, s, call, s');
      } else {
        InsertAgrees(c, s, call, s');
      }
    } else if call.op.UpdateBytes? {
      UpdateAgrees(c, s, call, s');
    } else if call.op.SetProcess? {
      SetProcessAgrees(c, s, call, s');
    } else {
      OtherAgrees(c, s, call, s');
    }
  }

  // ---- Every execution ----

  /** What an outside observer takes for the state: the live sessions. */
  ghost function Observed(c: Config, run: seq<Tracker>, calls: seq<Call>, i: nat): Table
    requires |run| == |calls| + 1 && i < |run|
  {
    if i == 0 then map[] else Alive(c, run[i].sessions, calls[i - 1].now)
  }

  lemma {:induction false} RunInv(c: Config, run: seq<Tracker>, calls: seq<Call>, i: nat)
    requires TrackerRun(c, run, calls) && i < |calls|
    ensures Inv(c, run[i].sessions, calls[i].now)
  {
    if i > 0 {
      RunInv(c, run, calls, i - 1);
      assert TrackerStep(c, run[i - 1], calls[i - 1], run[i - 1 + 1]);
      StepRefines(c, run[i - 1], calls[i - 1], run[i]);
    }
  }

  lemma EagerFrom(c: Config, m: Table, t: nat, call: Call, m': Table)
    requires t <= call.now && EagerStep(c, Alive(c, m, call.now), call, m')
    ensures EagerStep(c, Alive(c, m, t), call, m')
  {
    AliveLater(c, m, t, call.now);
    AliveLater(c, m, call.now, call.now);
  }

  lemma ObservedStep(c: Config, run: seq<Tracker>, calls: seq<Call>, i: nat)
    requires TrackerRun(c, run, calls) && i < |calls|
    ensures EagerStep(c, Observed(c, run, calls, i), Eagerly(calls[i]), Observed(c, run, calls, i + 1))
  {
    RunInv(c, run, calls, i);
    StepRefines(c, run[i], calls[i], run[i + 1]);
    if i == 0 {
      assert Alive(c, run[0].sessions, calls[0].now) == map[];
      assert Alive(c, map[], calls[0].now) == map[];
    } else {
      EagerFrom(c, run[i].sessions, calls[i - 1].now, Eagerly(calls[i]), Observed(c, run, calls, i + 1));
    }
  }

  /**
   Seen through its live sessions, every execution of the tracker is an execution of the eager
   tracker with the same calls and the same answers, the lists returned by cleanups aside.
   */
  lemma LazyRefinesEager(c: Config, run: seq<Tracker>, calls: seq<Call>)
    requires TrackerRun(c, run, calls)
    ensures EagerRun(c, seq(|run|, i requires 0 <= i < |run| => Observed(c, run, calls, i)),
                     seq(|calls|, i requires 0 <= i < |calls| => Eagerly(calls[i])))
  {
    forall i | 0 <= i < |calls|
      ensures EagerStep(c, Observed(c, run, calls, i), Eagerly(calls[i]), Observed(c, run, calls, i + 1))
    {
      ObservedStep(c, run, calls, i);
    }
  }

  /** The table never outgrows its maximum. */
  lemma TableBounded(c: Config, run: seq<Tracker>, calls: seq<Call>, i: nat)
    requires TrackerRun(c, run, calls) && i < |run| && c.maxSessions != 0
    ensures |run[i].sessions| <= c.maxSessions
  {
    if i > 0 {
      RunInv(c, run, calls, i - 1);
      assert TrackerStep(c, run[i - 1], calls[i - 1], run[i - 1 + 1]);
      StepRefines(c, run[i - 1], calls[i - 1], run[i]);
    }
  }

  /** A destination is answered exactly when one live session matches, and it is that session's. */
  lemma DestinationUnambiguous(c: Config, run: seq<Tracker>, calls: seq<Call>, i: nat, ip: IpAddr, port: nat)
    requires TrackerRun(c, run, calls) && i < |calls| && calls[i].op.GetDestination?
    ensures var live, op := Alive(c, run[i].sessions, calls[i].now), calls[i].op;
      var ks := set k | k in live && k.srcIp == op.srcIp && k.srcPort == op.srcPort
                                  && k.protocol == op.protocol && k.dstPort == op.dstPort;
      calls[i].answer == Target(Some((ip, port)))
      <==> port == calls[i].op.dstPort && exists k :: ks == {k} && k.dstIp == ip
  {
    RunInv(c, run, calls, i);
    assert TrackerStep(c, run[i], calls[i], run[i + 1]);
    var m := Alive(c, run[i].sessions, calls[i].now);
    var op := calls[i].op;
    var ks := Matching(m, op.srcIp, op.srcPort, op.protocol, op.dstPort);
    assert ks == set k | k in m && k.srcIp == op.srcIp && k.srcPort == op.srcPort
                                && k.protocol == op.protocol && k.dstPort == op.dstPort;
    if |ks| == 1 {
      var k :| k in ks;
      assert ks == {k} by {
        assert |ks - {k}| == 0;
      }
    }
  }
}

/**
 Which sessions a cleanup reports. The keys it returns are those it removes, so a session whose
 time has passed is reported only if nothing has removed it before; every read sweeps the table
 too, and tells nobody.
 */
module SessionCleanup {
  import opened Common
  import opened Sessions
  import opened SessionProofs

  /** The call makes `k` active: it registers it, or counts traffic for it while it is live. */
  predicate Renews(c: Config, s: Tracker, call: Call, k: SessionKey) {
    match call.op
    case Register(key, _, _) => key == k
    case UpdateBytes(key, _, _) => key == k && k in Alive(c, s.sessions, call.now)
    case _ => false
  }

  /** The call registers a new session into a full table. */
  predicate Evicts(c: Config, s: Tracker, call: Call) {
    && call.op.Register? && call.op.key !in Alive(c, s.sessions, call.now)
    && IsFull(c, BeforeInsert(c, s, call.op.key, call.now))
  }

  /** The reading at which the table was last swept by a registration, from the calls alone. */
  function SweptAt(c: Config, start: nat, calls: seq<Call>, n: nat): nat
    requires n <= |calls|
  {
    if n == 0 then start
    else
      var t := SweptAt(c, start, calls, n - 1);
      if calls[n - 1].op.Register? && Elapsed(calls[n - 1].now, t) > c.cleanupInterval then calls[n - 1].now else t
  }

  /** The call removes every session whose time has passed. `sweptAt` is the last such registration. */
  predicate Sweeps(c: Config, sweptAt: nat, op: Op, now: nat) {
    match op
    case Register(_, _, _) => Elapsed(now, sweptAt) > c.cleanupInterval
    case UpdateBytes(_, _, _) => false
    case SetProcess(_, _, _) => false
    case Remove(_) => false
    case _ => true
  }

  /** The call renews `k` or removes it, when the time of `k` passes at `deadline`. */
  predicate Ends(c: Config, s: Tracker, call: Call, k: SessionKey, deadline: nat) {
    || (Sweeps(c, s.lastCleanup, call.op, call.now) && call.now >= deadline)
    || (Evicts(c, s, call) && call.victim == k)
    || (match call.op
        case Register(key, _, _) => key == k
        case UpdateBytes(key, _, _) => key == k
        case SetProcess(key, _, _) => key == k && call.now >= deadline
        case Remove(key) => key == k
        case _ => false)
  }

  // ---- One call ----

  /** `k` is in the table, last active at `t`. */
  predicate ActiveAt(m: Table, k: SessionKey, t: nat) {
    k in m && m[k].lastActivity == t
  }

  lemma RenewedActive(c: Config, s: Tracker, call: Call, s': Tracker, k: SessionKey)
    requires TrackerStep(c, s, call, s') && Renews(c, s, call, k)
    ensures ActiveAt(s'.sessions, k, call.now)
  {
  }

  lemma LiveBefore(c: Config, s: Tracker, k: SessionKey, t: nat, now: nat)
    requires ActiveAt(s.sessions, k, t) && t <= now
    ensures k in Alive(c, s.sessions, now) <==> now < t + c.ttl
    ensures ActiveAt(AfterPeriodicCleanup(c, s, now).sessions, k, t)
       <==> !(Elapsed(now, s.lastCleanup) > c.cleanupInterval && now >= t + c.ttl)
  {
  }

  lemma RegisterKeeps(c: Config, s: Tracker, call: Call, s': Tracker, k: SessionKey, t: nat)
    requires TrackerStep(c, s, call, s') && call.op.Register? && call.op.key != k
    requires ActiveAt(s.sessions, k, t) && t <= call.now
    ensures ActiveAt(s'.sessions, k, t) <==> !Ends(c, s, call, k, t + c.ttl)
  {
    LiveBefore(c, s, k, t, call.now);
    var m := AfterPeriodicCleanup(c, s, call.now).sessions;
    assert call.op.key in Alive(c, s.sessions, call.now) <==> call.op.key in m && Live(c, m[call.op.key], call.now);
  }

  /** A session in the table stays as active as it was just when no call ends it. */
  lemma KeptActive(c: Config, s: Tracker, call: Call, s': Tracker, k: SessionKey, t: nat)
    requires TrackerStep(c, s, call, s') && ActiveAt(s.sessions, k, t) && t <= call.now
    requires !Renews(c, s, call, k)
    ensures ActiveAt(s'.sessions, k, t) <==> !Ends(c, s, call, k, t + c.ttl)
    ensures k in s'.sessions ==> ActiveAt(s'.sessions, k, t)
  {
    LiveBefore(c, s, k, t, call.now);
    if call.op.Register? {
      RegisterKeeps(c, s, call, s', k, t);
    }
  }

  lemma OnlyRenewalsAdd(c: Config, s: Tracker, call: Call, s': Tracker, k: SessionKey)
    requires TrackerStep(c, s, call, s') && k in s'.sessions && !Renews(c, s, call, k)
    ensures k in s.sessions
  {
  }

  // ---- Every run ----

  /** Call `i` made `k` active and no call before `j` has ended that. */
  ghost predicate LastActiveAt(c: Config, run: seq<Tracker>, calls: seq<Call>, i: nat, j: nat, k: SessionKey)
    requires |run| == |calls| + 1
  {
    && i < j <= |calls| && Renews(c, run[i], calls[i], k)
    && forall x :: i < x < j ==> !Ends(c, run[x], calls[x], k, calls[i].now + c.ttl)
  }

  lemma ActivePast(c: Config, run: seq<Tracker>, calls: seq<Call>, i: nat, k: SessionKey)
    requires TrackerRun(c, run, calls) && i < |calls| && k in run[i].sessions
    ensures run[i].sessions[k].lastActivity <= calls[i].now
  {
    RunInv(c, run, calls, i);
  }

  lemma {:induction false} ActiveStays(
    c: Config, run: seq<Tracker>, calls: seq<Call>, i: nat, j: nat, k: SessionKey)
    requires TrackerRun(c, run, calls) && LastActiveAt(c, run, calls, i, j, k)
    ensures ActiveAt(run[j].sessions, k, calls[i].now)
    decreases j
  {
    var n := j - 1;
    assert TrackerStep(c, run[n], calls[n], run[n + 1]);
    if n == i {
      RenewedActive(c, run[n], calls[n], run[j], k);
    } else {
      ActiveStays(c, run, calls, i, n, k);
      assert !Ends(c, run[n], calls[n], k, calls[i].now + c.ttl);
      KeptActive(c, run[n], calls[n], run[j], k, calls[i].now);
    }
  }

  lemma {:induction false} LastActivity(c: Config, run: seq<Tracker>, calls: seq<Call>, j: nat, k: SessionKey)
    returns (i: nat)
    requires TrackerRun(c, run, calls) && j < |run| && k in run[j].sessions
    ensures LastActiveAt(c, run, calls, i, j, k) && ActiveAt(run[j].sessions, k, calls[i].now)
    decreases j
  {
    assert j > 0;
    var n := j - 1;
    assert TrackerStep(c, run[n], calls[n], run[n + 1]);
    if Renews(c, run[n], calls[n], k) {
      i := n;
      RenewedActive(c, run[n], calls[n], run[j], k);
    } else {
      OnlyRenewalsAdd(c, run[n], calls[n], run[j], k);
      i := LastActivity(c, run, calls, n, k);
      ActiveLonger(c, run, calls, i, n, k);
    }
  }

  lemma ActiveLonger(c: Config, run: seq<Tracker>, calls: seq<Call>, i: nat, n: nat, k: SessionKey)
    requires TrackerRun(c, run, calls) && n < |calls| && LastActiveAt(c, run, calls, i, n, k)
    requires ActiveAt(run[n].sessions, k, calls[i].now) && k in run[n + 1].sessions
    requires !Renews(c, run[n], calls[n], k)
    ensures LastActiveAt(c, run, calls, i, n + 1, k) && ActiveAt(run[n + 1].sessions, k, calls[i].now)
  {
    StepAt(c, run, calls, i, n);
    KeptActive(c, run[n], calls[n], run[n + 1], k, calls[i].now);
    NotEnded(c, run, calls, i, n, k);
  }

  lemma StepAt(c: Config, run: seq<Tracker>, calls: seq<Call>, i: nat, n: nat)
    requires TrackerRun(c, run, calls) && i <= n < |calls|
    ensures TrackerStep(c, run[n], calls[n], run[n + 1]) && calls[i].now <= calls[n].now
  {
  }

  lemma NotEnded(c: Config, run: seq<Tracker>, calls: seq<Call>, i: nat, n: nat, k: SessionKey)
    requires |run| == |calls| + 1 && n < |calls| && LastActiveAt(c, run, calls, i, n, k)
    requires !Ends(c, run[n], calls[n], k, calls[i].now + c.ttl)
    ensures LastActiveAt(c, run, calls, i, n + 1, k)
  {
  }

  /**
   A cleanup reports a session if and only if its last activity is at least the time to live ago
   and no call since has removed it: no read, cleanup or periodic cleanup after its time had
   passed, no eviction, removal, or update that found it expired.
   */
  lemma ReportedExactly(c: Config, run: seq<Tracker>, calls: seq<Call>, j: nat, k: SessionKey)
    requires TrackerRun(c, run, calls) && j < |calls| && calls[j].op.Cleanup?
    ensures calls[j].answer.Gone?
    ensures k in calls[j].answer.keys
       <==> exists i: nat :: LastActiveAt(c, run, calls, i, j, k) && calls[j].now >= calls[i].now + c.ttl
  {
    assert TrackerStep(c, run[j], calls[j], run[j + 1]);
    if k in run[j].sessions {
      ActivePast(c, run, calls, j, k);
    }
    if k in calls[j].answer.keys {
      var i := LastActivity(c, run, calls, j, k);
    }
    if i: nat :| LastActiveAt(c, run, calls, i, j, k) && calls[j].now >= calls[i].now + c.ttl {
      ActiveStays(c, run, calls, i, j, k);
      ActivePast(c, run, calls, j, k);
    }
  }

  /** When registrations sweep depends on the clock readings of registrations only. */
  lemma {:induction false} SweptByCalls(c: Config, run: seq<Tracker>, calls: seq<Call>, n: nat)
    requires TrackerRun(c, run, calls) && n < |run|
    ensures run[n].lastCleanup == SweptAt(c, run[0].lastCleanup, calls, n)
  {
    if n > 0 {
      SweptByCalls(c, run, calls, n - 1);
      assert TrackerStep(c, run[n - 1], calls[n - 1], run[n - 1 + 1]);
    }
  }

  /** A session is reported at most once for one activity: whoever removes it first is the only one to see it. */
  lemma ReportedOnce(c: Config, run: seq<Tracker>, calls: seq<Call>, i: nat, j: nat, k: SessionKey)
    requires TrackerRun(c, run, calls) && i < j < |calls| && calls[i].op.Cleanup? && calls[j].op.Cleanup?
    requires calls[i].answer.Gone? && k in calls[i].answer.keys && calls[j].answer.Gone? && k in calls[j].answer.keys
    ensures exists x :: i < x < j && Renews(c, run[x], calls[x], k)
  {
    assert TrackerStep(c, run[i], calls[i], run[i + 1]) && TrackerStep(c, run[j], calls[j], run[j + 1]);
    var x := LastActivity(c, run, calls, j, k);
    if x < i {
      ActiveStays(c, run, calls, x, i + 1, k);
    }
  }

  // ---- The answer that tells ----

  function RegisterAt(k: SessionKey, listener: string, startedAt: string, now: nat): Call {
    Call(Register(k, listener, startedAt), now, k, IsNew(true))
  }

  lemma FirstRegistration(c: Config, k: SessionKey, listener: string, startedAt: string)
    ensures TrackerStep(c, Tracker(map[], 0), RegisterAt(k, listener, startedAt, 0),
                        Tracker(map[k := Fresh(k, listener, startedAt, 0)], 0))
  {
    assert BeforeInsert(c, Tracker(map[], 0), k, 0) == map[];
  }

  lemma AllExpired(c: Config, k: SessionKey, listener: string, startedAt: string)
    ensures Alive(c, map[k := Fresh(k, listener, startedAt, 0)], c.ttl) == map[]
  {
  }

  /**
   The same session and the same cleanup, with and without a read just before: the live sessions
   are the same throughout, and only one of the two cleanups reports the session.
   */
  lemma ReadHidesExpiry(c: Config, k: SessionKey, listener: string, startedAt: string)
    returns (run: seq<Tracker>, calls: seq<Call>, run': seq<Tracker>, calls': seq<Call>)
    ensures TrackerRun(c, run, calls) && TrackerRun(c, run', calls') && |calls| == 2 && |calls'| == 3
    ensures calls[0] == calls'[0] == RegisterAt(k, listener, startedAt, 0) && calls'[1].op.ActiveCount?
    ensures calls[1].op.Cleanup? && calls'[2].op.Cleanup? && calls[1].now == calls'[2].now
    ensures Observed(c, run, calls, 2) == Observed(c, run', calls', 3)
    ensures calls[1].answer == Gone({k}) && calls'[2].answer == Gone({})
  {
    var none, one := Tracker(map[], 0), Tracker(map[k := Fresh(k, listener, startedAt, 0)], 0);
    var first := RegisterAt(k, listener, startedAt, 0);
    FirstRegistration(c, k, listener, startedAt);
    AllExpired(c, k, listener, startedAt);
    var sweep, count := Call(Cleanup, c.ttl, k, Gone({k})), Call(ActiveCount, c.ttl, k, Number(0));
    var again := Call(Cleanup, c.ttl, k, Gone({}));
    SweptEmpty(c, one, none, k);
    RunOfTwo(c, none, first, one, sweep, none);
    RunOfThree(c, none, first, one, count, none, again, none);
    run, calls := [none, one, none], [first, sweep];
    run', calls' := [none, one, none, none], [first, count, again];
  }

  lemma SweptEmpty(c: Config, one: Tracker, none: Tracker, k: SessionKey)
    requires one.sessions.Keys == {k} && Alive(c, one.sessions, c.ttl) == map[] && none == one.(sessions := map[])
    ensures TrackerStep(c, one, Call(Cleanup, c.ttl, k, Gone({k})), none)
    ensures TrackerStep(c, one, Call(ActiveCount, c.ttl, k, Number(0)), none)
    ensures TrackerStep(c, none, Call(Cleanup, c.ttl, k, Gone({})), none)
  {
    assert Alive(c, map[], c.ttl) == map[];
  }

  lemma RunOfTwo(c: Config, s0: Tracker, a: Call, s1: Tracker, b: Call, s2: Tracker)
    requires s0.sessions == map[] && a.now <= b.now && TrackerStep(c, s0, a, s1) && TrackerStep(c, s1, b, s2)
    ensures TrackerRun(c, [s0, s1, s2], [a, b])
  {
  }

  lemma RunOfThree(c: Config, s0: Tracker, a: Call, s1: Tracker, b: Call, s2: Tracker, d: Call, s3: Tracker)
    requires s0.sessions == map[] && a.now <= b.now <= d.now
    requires TrackerStep(c, s0, a, s1) && TrackerStep(c, s1, b, s2) && TrackerStep(c, s2, d, s3)
    ensures TrackerRun(c, [s0, s1, s2, s3], [a, b, d])
  {
  }
}

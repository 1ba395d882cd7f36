/**
 What a session holds, told from the calls that were made: what it was registered with last, which
 process was set last, and the capped totals of all traffic since it began.
 */
module SessionContents {
  import opened Common
  import opened Addresses
  import opened Sessions
  import opened SessionProofs

  function Capped(x: nat): nat {
    if x <= 0xFFFF_FFFF_FFFF_FFFF then x else 0xFFFF_FFFF_FFFF_FFFF
  }

  // ---- The calls about a session, from the one that began it ----

  predicate Registers(call: Call, k: SessionKey) {
    call.op.Register? && call.op.key == k
  }

  predicate Counts(call: Call, k: SessionKey) {
    call.op.UpdateBytes? && call.op.key == k
  }

  predicate Attributes(call: Call, k: SessionKey) {
    call.op.SetProcess? && call.op.key == k
  }

  predicate Begins(call: Call, k: SessionKey) {
    Registers(call, k) && call.answer == IsNew(true)
  }

  function Listener(calls: seq<Call>, i: nat, n: nat, k: SessionKey): string
    requires i < n <= |calls| && Registers(calls[i], k)
  {
    if n == i + 1 then calls[i].op.listener
    else if Registers(calls[n - 1], k) then calls[n - 1].op.listener
    else Listener(calls, i, n - 1, k)
  }

  function ProcessOf(calls: seq<Call>, i: nat, n: nat, k: SessionKey): (Option<string>, Option<nat>)
    requires i < n <= |calls|
  {
    if n == i + 1 then (None, None)
    else if Attributes(calls[n - 1], k) then (calls[n - 1].op.name, calls[n - 1].op.pid)
    else ProcessOf(calls, i, n - 1, k)
  }

  function ActiveTime(calls: seq<Call>, i: nat, n: nat, k: SessionKey): nat
    requires i < n <= |calls|
  {
    if n == i + 1 then calls[i].now
    else if Registers(calls[n - 1], k) || Counts(calls[n - 1], k) then calls[n - 1].now
    else ActiveTime(calls, i, n - 1, k)
  }

  function Received(calls: seq<Call>, i: nat, n: nat, k: SessionKey): nat
    requires i < n <= |calls|
  {
    if n == i + 1 then 0
    else Received(calls, i, n - 1, k) + if Counts(calls[n - 1], k) then calls[n - 1].op.received else 0
  }

  function Sent(calls: seq<Call>, i: nat, n: nat, k: SessionKey): nat
    requires i < n <= |calls|
  {
    if n == i + 1 then 0
    else Sent(calls, i, n - 1, k) + if Counts(calls[n - 1], k) then calls[n - 1].op.sent else 0
  }

  function Packets(calls: seq<Call>, i: nat, n: nat, k: SessionKey): nat
    requires i < n <= |calls|
  {
    if n == i + 1 then 0 else Packets(calls, i, n - 1, k) + if Counts(calls[n - 1], k) then 1 else 0
  }

  /** Call `i` began the session of `k` that is in the table before call `n`. */
  ghost predicate Begun(run: seq<Tracker>, calls: seq<Call>, i: nat, n: nat, k: SessionKey)
    requires |run| == |calls| + 1
  {
    && i < n <= |calls| && Begins(calls[i], k) && (forall x :: i < x < n ==> !Begins(calls[x], k))
    && forall x :: i < x <= n ==> k in run[x].sessions
  }

  ghost predicate Holds(info: Info, calls: seq<Call>, i: nat, n: nat, k: SessionKey)
    requires i < n <= |calls| && Registers(calls[i], k)
  {
    && info.dstIp == k.dstIp && info.dstPort == k.dstPort && info.startedAt == calls[i].op.startedAt
    && info.listener == Listener(calls, i, n, k) && (info.processName, info.processPid) == ProcessOf(calls, i, n, k)
    && info.lastActivity == ActiveTime(calls, i, n, k)
    && info.bytesReceived == Capped(Received(calls, i, n, k)) && info.bytesSent == Capped(Sent(calls, i, n, k))
    && info.packets == Capped(Packets(calls, i, n, k))
  }

  // ---- One call ----

  lemma NewHolds(c: Config, s: Tracker, calls: seq<Call>, i: nat, s': Tracker, k: SessionKey)
    requires i < |calls| && TrackerStep(c, s, calls[i], s') && Begins(calls[i], k)
    ensures k in s'.sessions && Holds(s'.sessions[k], calls, i, i + 1, k)
  {
  }

  /** A session that a call neither begins nor drops is changed by the calls about it only. */
  lemma KeptAs(c: Config, s: Tracker, call: Call, s': Tracker, k: SessionKey)
    requires TrackerStep(c, s, call, s') && k in s'.sessions && !Begins(call, k)
    ensures k in s.sessions
    ensures var a, b := s.sessions[k], s'.sessions[k];
      && b.dstIp == a.dstIp && b.dstPort == a.dstPort && b.startedAt == a.startedAt
      && b.listener == (if Registers(call, k) then call.op.listener else a.listener)
      && b.processName == (if Attributes(call, k) then call.op.name else a.processName)
      && b.processPid == (if Attributes(call, k) then call.op.pid else a.processPid)
      && b.lastActivity == (if Registers(call, k) || Counts(call, k) then call.now else a.lastActivity)
      && b.bytesReceived == (if Counts(call, k) then Capped(a.bytesReceived + call.op.received) else a.bytesReceived)
      && b.bytesSent == (if Counts(call, k) then Capped(a.bytesSent + call.op.sent) else a.bytesSent)
      && b.packets == (if Counts(call, k) then Capped(a.packets + 1) else a.packets)
  {
  }

  /** Capping the total at every step is capping it once. */
  lemma AddCapped(a: nat, b: nat)
    ensures Capped(Capped(a) + b) == Capped(a + b)
  {
  }

  lemma StillHolds(c: Config, s: Tracker, calls: seq<Call>, i: nat, n: nat, s': Tracker, k: SessionKey)
    requires i < n < |calls| && Registers(calls[i], k) && k in s.sessions && Holds(s.sessions[k], calls, i, n, k)
    requires TrackerStep(c, s, calls[n], s') && k in s'.sessions && !Begins(calls[n], k)
    ensures Holds(s'.sessions[k], calls, i, n + 1, k)
  {
    var call := calls[n];
    KeptAs(c, s, call, s', k);
    if Counts(call, k) {
      AddCapped(Received(calls, i, n, k), call.op.received);
      AddCapped(Sent(calls, i, n, k), call.op.sent);
      AddCapped(Packets(calls, i, n, k), 1);
    }
  }

  // ---- Every run ----

  lemma StepOf(c: Config, run: seq<Tracker>, calls: seq<Call>, n: nat)
    requires TrackerRun(c, run, calls) && n < |calls|
    ensures TrackerStep(c, run[n], calls[n], run[n + 1])
  {
  }

  /** Every session in the table was begun by a call and has been there since. */
  lemma {:induction false} BegunBy(c: Config, run: seq<Tracker>, calls: seq<Call>, n: nat, k: SessionKey)
    returns (i: nat)
    requires TrackerRun(c, run, calls) && n < |run| && k in run[n].sessions
    ensures Begun(run, calls, i, n, k)
  {
    assert n > 0;
    var m := n - 1;
    if Begins(calls[m], k) {
      i := m;
    } else {
      ThereBefore(c, run, calls, m, k);
      i := BegunBy(c, run, calls, m, k);
      BegunLonger(run, calls, i, m, n, k);
    }
  }

  lemma ThereBefore(c: Config, run: seq<Tracker>, calls: seq<Call>, m: nat, k: SessionKey)
    requires TrackerRun(c, run, calls) && m < |calls| && k in run[m + 1].sessions && !Begins(calls[m], k)
    ensures k in run[m].sessions
  {
    StepOf(c, run, calls, m);
    KeptAs(c, run[m], calls[m], run[m + 1], k);
  }

  lemma BegunLonger(run: seq<Tracker>, calls: seq<Call>, i: nat, m: nat, n: nat, k: SessionKey)
    requires |run| == |calls| + 1 && n == m + 1 <= |calls| && Begun(run, calls, i, m, k)
    requires k in run[n].sessions && !Begins(calls[m], k)
    ensures Begun(run, calls, i, n, k)
  {
  }

  lemma BegunShorter(run: seq<Tracker>, calls: seq<Call>, i: nat, m: nat, n: nat, k: SessionKey)
    requires |run| == |calls| + 1 && i < m && n == m + 1 && Begun(run, calls, i, n, k)
    ensures Begun(run, calls, i, m, k) && !Begins(calls[m], k) && k in run[m].sessions && k in run[n].sessions
  {
  }

  /** Call `m` keeps the contents of the session in step with the calls. */
  ghost predicate InStep(run: seq<Tracker>, calls: seq<Call>, i: nat, m: nat, k: SessionKey)
    requires |run| == |calls| + 1 && i < m < |calls| && Registers(calls[i], k)
  {
    (&& k in run[m].sessions && Holds(run[m].sessions[k], calls, i, m, k)
     && k in run[m + 1].sessions && !Begins(calls[m], k))
    ==> Holds(run[m + 1].sessions[k], calls, i, m + 1, k)
  }

  lemma {:induction false} ContentsInStep(run: seq<Tracker>, calls: seq<Call>, i: nat, n: nat, k: SessionKey)
    requires |run| == |calls| + 1 && Begun(run, calls, i, n, k) && k in run[i + 1].sessions
    requires Holds(run[i + 1].sessions[k], calls, i, i + 1, k)
    requires forall m :: i < m < n ==> InStep(run, calls, i, m, k)
    ensures k in run[n].sessions && Holds(run[n].sessions[k], calls, i, n, k)
    decreases n
  {
    if n > i + 1 {
      var m := n - 1;
      BegunShorter(run, calls, i, m, n, k);
      ContentsInStep(run, calls, i, m, k);
      assert InStep(run, calls, i, m, k);
    }
  }

  /** In every run, the contents of a session are those of the calls about it since it began. */
  lemma ContentsExactly(c: Config, run: seq<Tracker>, calls: seq<Call>, i: nat, n: nat, k: SessionKey)
    requires TrackerRun(c, run, calls) && Begun(run, calls, i, n, k)
    ensures k in run[n].sessions && Holds(run[n].sessions[k], calls, i, n, k)
  {
    FirstContents(c, run, calls, i, k);
    forall m | i < m < n
      ensures InStep(run, calls, i, m, k)
    {
      StaysInStep(c, run, calls, i, m, k);
    }
    ContentsInStep(run, calls, i, n, k);
  }

  lemma StaysInStep(c: Config, run: seq<Tracker>, calls: seq<Call>, i: nat, m: nat, k: SessionKey)
    requires TrackerRun(c, run, calls) && i < m < |calls| && Registers(calls[i], k)
    ensures InStep(run, calls, i, m, k)
  {
    if k in run[m].sessions && Holds(run[m].sessions[k], calls, i, m, k) && k in run[m + 1].sessions
      && !Begins(calls[m], k) {
      OneMoreCall(c, run, calls, i, m, k);
    }
  }

  lemma FirstContents(c: Config, run: seq<Tracker>, calls: seq<Call>, i: nat, k: SessionKey)
    requires TrackerRun(c, run, calls) && i < |calls| && Begins(calls[i], k)
    ensures k in run[i + 1].sessions && Holds(run[i + 1].sessions[k], calls, i, i + 1, k)
  {
    StepOf(c, run, calls, i);
    NewHolds(c, run[i], calls, i, run[i + 1], k);
  }

  lemma OneMoreCall(c: Config, run: seq<Tracker>, calls: seq<Call>, i: nat, m: nat, k: SessionKey)
    requires TrackerRun(c, run, calls) && i < m < |calls| && Registers(calls[i], k)
    requires k in run[m].sessions && Holds(run[m].sessions[k], calls, i, m, k)
    requires k in run[m + 1].sessions && !Begins(calls[m], k)
    ensures Holds(run[m + 1].sessions[k], calls, i, m + 1, k)
  {
    StepOf(c, run, calls, m);
    StillHolds(c, run[m], calls, i, m, run[m + 1], k);
  }

  /** Before call `j` the session begun at `i` is there and its time has not passed. */
  ghost predicate LiveFrom(c: Config, run: seq<Tracker>, calls: seq<Call>, i: nat, j: nat, k: SessionKey)
    requires |run| == |calls| + 1 && j < |calls|
  {
    Begun(run, calls, i, j, k) && calls[j].now < ActiveTime(calls, i, j, k) + c.ttl
  }

  lemma AliveIs(c: Config, run: seq<Tracker>, calls: seq<Call>, j: nat, k: SessionKey)
    requires TrackerRun(c, run, calls) && j < |calls|
    ensures k in Alive(c, run[j].sessions, calls[j].now) <==> exists i: nat :: LiveFrom(c, run, calls, i, j, k)
  {
    RunInv(c, run, calls, j);
    if k in run[j].sessions {
      var i := BegunBy(c, run, calls, j, k);
      ContentsExactly(c, run, calls, i, j, k);
      assert k in Alive(c, run[j].sessions, calls[j].now) ==> LiveFrom(c, run, calls, i, j, k);
    }
    if i: nat :| LiveFrom(c, run, calls, i, j, k) {
      ContentsExactly(c, run, calls, i, j, k);
    }
  }

  /** A read answers about a session exactly while it is live, with the process set last and the key's destination. */
  lemma ReadsAnswer(c: Config, run: seq<Tracker>, calls: seq<Call>, j: nat, k: SessionKey)
    requires TrackerRun(c, run, calls) && j < |calls| && (calls[j].op == GetProcess(k) || calls[j].op == GetOriginal(k))
    ensures if calls[j].op.GetProcess? then calls[j].answer.Process? else calls[j].answer.Target?
    ensures (if calls[j].op.GetProcess? then calls[j].answer.process.Some? else calls[j].answer.target.Some?)
       <==> exists i: nat :: LiveFrom(c, run, calls, i, j, k)
    ensures forall i: nat :: LiveFrom(c, run, calls, i, j, k) ==>
              if calls[j].op.GetProcess? then calls[j].answer.process == Some(ProcessOf(calls, i, j, k))
              else calls[j].answer.target == Some((k.dstIp, k.dstPort))
  {
    StepOf(c, run, calls, j);
    AliveIs(c, run, calls, j, k);
    forall i: nat | LiveFrom(c, run, calls, i, j, k)
      ensures k in run[j].sessions && Holds(run[j].sessions[k], calls, i, j, k)
    {
      ContentsExactly(c, run, calls, i, j, k);
    }
  }

  /** The count is that of the live sessions. */
  lemma CountExactly(c: Config, run: seq<Tracker>, calls: seq<Call>, j: nat, ks: set<SessionKey>)
    requires TrackerRun(c, run, calls) && j < |calls| && calls[j].op.ActiveCount?
    requires forall k :: k in ks <==> exists i: nat :: LiveFrom(c, run, calls, i, j, k)
    ensures calls[j].answer == Number(|ks|)
  {
    StepOf(c, run, calls, j);
    forall k: SessionKey
      ensures k in Alive(c, run[j].sessions, calls[j].now) <==> k in ks
    {
      AliveIs(c, run, calls, j, k);
    }
    assert Alive(c, run[j].sessions, calls[j].now).Keys == ks;
  }

  /** A registration is answered as new exactly when its session is not live. */
  lemma NewExactly(c: Config, run: seq<Tracker>, calls: seq<Call>, j: nat)
    requires TrackerRun(c, run, calls) && j < |calls| && calls[j].op.Register?
    ensures calls[j].answer == IsNew(!exists i: nat :: LiveFrom(c, run, calls, i, j, calls[j].op.key))
  {
    StepOf(c, run, calls, j);
    AliveIs(c, run, calls, j, calls[j].op.key);
    PeriodicCleanup(c, run[j], calls[j].now);
    RegisteredNew(c, run[j], calls[j], run[j + 1]);
  }

  lemma RegisteredNew(c: Config, s: Tracker, call: Call, s': Tracker)
    requires TrackerStep(c, s, call, s') && call.op.Register?
    ensures call.answer == IsNew(call.op.key !in Alive(c, s.sessions, call.now))
  {
  }

  /**
   A registration costs a live session of another key only if as many sessions are live as may be
   kept and none of them is the registered one; the one lost is least recently active.
   */
  lemma LostOnlyForRoom(c: Config, run: seq<Tracker>, calls: seq<Call>, j: nat, k: SessionKey)
    requires TrackerRun(c, run, calls) && j < |calls| && calls[j].op.Register? && k != calls[j].op.key
    requires k in Alive(c, run[j].sessions, calls[j].now) && k !in run[j + 1].sessions
    ensures var live := Alive(c, run[j].sessions, calls[j].now);
      && calls[j].op.key !in live && c.maxSessions > 0 && |live| == c.maxSessions
      && forall x :: x in live ==> live[k].lastActivity <= live[x].lastActivity
  {
    StepOf(c, run, calls, j);
    RunInv(c, run, calls, j);
    EvictedLive(c, run[j], calls[j], run[j + 1], k);
  }

  lemma EvictedLive(c: Config, s: Tracker, call: Call, s': Tracker, k: SessionKey)
    requires Inv(c, s.sessions, call.now) && TrackerStep(c, s, call, s') && call.op.Register? && k != call.op.key
    requires k in Alive(c, s.sessions, call.now) && k !in s'.sessions
    ensures var live := Alive(c, s.sessions, call.now);
      && call.op.key !in live && c.maxSessions > 0 && |live| == c.maxSessions
      && forall x :: x in live ==> live[k].lastActivity <= live[x].lastActivity
  {
    var now, key, live := call.now, call.op.key, Alive(c, s.sessions, call.now);
    RegisteredNew(c, s, call, s');
    assert key !in live;
    BeforeInsertAgrees(c, s, key, now);
    var m := BeforeInsert(c, s, key, now);
    assert k in m && m[k] == live[k];
    assert call.victim == k && IsFull(c, m);
    OldestLive(c, m, k, now);
    assert m == live;
  }
}

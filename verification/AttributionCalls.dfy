/**
 Whole calls of the attribution cache: what clearing and cleaning up leave when they end, and that
 every time a call works with is the clock at the moment it read it.
 */
module AttributionCalls {
  import opened Common
  import opened AttributionCache
  import opened AttributionCleanup

  // ---- Clearing ----

  ghost predicate InClear(run: seq<State>, v: nat, i: nat, t: nat) {
    v <= i < |run| && forall n :: v <= n <= i ==> t < |run[n].threads| && run[n].threads[t].Clearing?
  }

  /** At step `v` the clearing that thread `t` is in at `i` empties the shard of `k`. */
  ghost predicate Empties(c: Config, run: seq<State>, actions: seq<Action>, v: nat, i: nat, t: nat, k: FlowKey) {
    && v < i && v < |actions| && InClear(run, v, i, t) && actions[v] == Advance(t)
    && run[v].threads[t].shard == c.shardOf(k)
  }

  lemma ClearAct(c: Config, s: State, a: Action, t: nat, k: FlowKey)
    requires ValidConfig(c) && Enabled(c, s, a) && t < |s.threads|
    requires Apply(c, s, a).threads[t].Clearing? && c.shardOf(k) < Apply(c, s, a).threads[t].shard
    ensures s.threads[t].Clearing?
    ensures c.shardOf(k) < s.threads[t].shard
         || (a == Advance(t) && s.threads[t].shard == c.shardOf(k) && k !in Apply(c, s, a).shared.cache)
  {
  }

  lemma {:induction false} EmptiedAt(c: Config, run: seq<State>, actions: seq<Action>, i: nat, t: nat, k: FlowKey)
    returns (v: nat)
    requires ValidConfig(c) && IsRun(c, run, actions) && i < |run| && t < |run[i].threads|
    requires run[i].threads[t].Clearing? && c.shardOf(k) < run[i].threads[t].shard
    ensures Empties(c, run, actions, v, i, t, k)
  {
    assert i > 0;
    var n := i - 1;
    assert Enabled(c, run[n], actions[n]) && run[n + 1] == Apply(c, run[n], actions[n]);
    ClearAct(c, run[n], actions[n], t, k);
    if c.shardOf(k) < run[n].threads[t].shard {
      v := EmptiedAt(c, run, actions, n, t, k);
    } else {
      v := n;
    }
  }

  lemma {:induction false} InsertedSinceEmptied(
    c: Config, run: seq<State>, actions: seq<Action>, i: nat, t: nat, k: FlowKey)
    returns (v: nat, m: nat)
    requires ValidConfig(c) && IsRun(c, run, actions) && i < |run| && t < |run[i].threads|
    requires run[i].threads[t].Clearing? && c.shardOf(k) < run[i].threads[t].shard && k in run[i].shared.cache
    ensures Empties(c, run, actions, v, i, t, k) && v < m < i && Inserts(run, actions, m, k, run[i].shared.cache[k])
  {
    assert i > 0;
    var n := i - 1;
    assert Enabled(c, run[n], actions[n]) && run[n + 1] == Apply(c, run[n], actions[n]);
    ClearAct(c, run[n], actions[n], t, k);
    if k in run[n].shared.cache && run[n].shared.cache[k] == run[i].shared.cache[k] {
      v, m := InsertedSinceEmptied(c, run, actions, n, t, k);
    } else {
      ActInserts(c, run[n], actions[n], k);
      v := EmptiedAt(c, run, actions, n, t, k);
      m := n;
    }
  }

  /** Thread `t` is in one call from the step after `i` until it is idle again at `e`. */
  ghost predicate CallOf(run: seq<State>, i: nat, e: nat, t: nat) {
    && i < e < |run| && t < |run[e].threads| && run[e].threads[t].Idle?
    && forall n :: i < n < e ==> t < |run[n].threads| && !run[n].threads[t].Idle?
  }

  lemma ClearPathAct(c: Config, s: State, a: Action, t: nat)
    requires Enabled(c, s, a) && t < |s.threads|
    requires s.threads[t].Clearing? || a == Clear(t)
    ensures Apply(c, s, a).threads[t].Clearing?
         || (a == Advance(t) && Apply(c, s, a).threads[t].Idle? && s.threads[t].shard >= c.shards
             && Apply(c, s, a).shared.cache == s.shared.cache)
  {
  }

  lemma {:induction false} ClearPath(c: Config, run: seq<State>, actions: seq<Action>, i: nat, n: nat, t: nat)
    requires IsRun(c, run, actions) && i < n < |run| && i < |actions| && actions[i] == Clear(t)
    requires forall x :: i < x <= n ==> t < |run[x].threads| && !run[x].threads[t].Idle?
    ensures run[n].threads[t].Clearing?
    decreases n
  {
    var x := n - 1;
    assert Enabled(c, run[x], actions[x]) && run[x + 1] == Apply(c, run[x], actions[x]);
    if x > i {
      ClearPath(c, run, actions, i, x, t);
    }
    ClearPathAct(c, run[x], actions[x], t);
  }

  /** In every run, an entry that is in the cache when a call that clears it ends was inserted during that call. */
  lemma ClearComplete(c: Config, run: seq<State>, actions: seq<Action>, i: nat, e: nat, t: nat, k: FlowKey)
    requires ValidConfig(c) && IsRun(c, run, actions) && i < |actions| && actions[i] == Clear(t)
    requires CallOf(run, i, e, t) && k in run[e].shared.cache
    ensures exists m :: i < m < e && Inserts(run, actions, m, k, run[e].shared.cache[k])
  {
    assert Enabled(c, run[i], actions[i]) && run[i + 1] == Apply(c, run[i], actions[i]);
    var n := e - 1;
    assert n > i;
    ClearPath(c, run, actions, i, n, t);
    assert Enabled(c, run[n], actions[n]) && run[n + 1] == Apply(c, run[n], actions[n]);
    ClearPathAct(c, run[n], actions[n], t);
    assert c.shardOf(k) < run[n].threads[t].shard;
    var v, m := InsertedSinceEmptied(c, run, actions, n, t, k);
    assert v > i;
    assert Inserts(run, actions, m, k, run[e].shared.cache[k]);
  }

  // ---- A cleanup, from call to end ----

  lemma CleanupPathAct(c: Config, s: State, a: Action, t: nat, now: nat)
    requires Enabled(c, s, a) && t < |s.threads|
    requires (InCleanup(s.threads[t]) && s.threads[t].now == now) || (a == Cleanup(t) && s.shared.clock == now)
    ensures var pc := Apply(c, s, a).threads[t];
      || (InCleanup(pc) && pc.now == now)
      || (a == Advance(t) && pc.Idle? && s.threads[t].Sweeping? && s.threads[t].found == []
          && Apply(c, s, a).shared.cache == s.shared.cache)
  {
  }

  lemma {:induction false} CleanupPath(c: Config, run: seq<State>, actions: seq<Action>, i: nat, n: nat, t: nat)
    requires IsRun(c, run, actions) && i < n < |run| && i < |actions| && actions[i] == Cleanup(t)
    requires forall x :: i < x <= n ==> t < |run[x].threads| && !run[x].threads[t].Idle?
    ensures InCleanup(run[n].threads[t]) && run[n].threads[t].now == run[i].shared.clock
    decreases n
  {
    var x := n - 1;
    assert Enabled(c, run[x], actions[x]) && run[x + 1] == Apply(c, run[x], actions[x]);
    if x > i {
      CleanupPath(c, run, actions, i, x, t);
    }
    CleanupPathAct(c, run[x], actions[x], t, run[i].shared.clock);
  }

  /**
   In every run, an entry that is in the cache when a cleanup ends, and had expired when the
   cleanup began, was inserted during that cleanup.
   */
  lemma CleanupCall(c: Config, run: seq<State>, actions: seq<Action>, i: nat, e: nat, t: nat, k: FlowKey)
    requires ValidConfig(c) && IsRun(c, run, actions) && i < |actions| && actions[i] == Cleanup(t)
    requires CallOf(run, i, e, t) && k in run[e].shared.cache
    requires IsExpired(c, run[i].shared.clock, run[e].shared.cache[k].timestamp)
    ensures exists m :: i < m < e && Inserts(run, actions, m, k, run[e].shared.cache[k])
  {
    assert Enabled(c, run[i], actions[i]) && run[i + 1] == Apply(c, run[i], actions[i]);
    var n := e - 1;
    assert n > i;
    CleanupPath(c, run, actions, i, n, t);
    assert Enabled(c, run[n], actions[n]) && run[n + 1] == Apply(c, run[n], actions[n]);
    CleanupPathAct(c, run[n], actions[n], t, run[i].shared.clock);
    var v, m := SurvivorsInsertedLate(c, run, actions, n, t, k);
    assert v > i by {
      assert InCleanup(run[v].threads[t]);
    }
    assert Inserts(run, actions, m, k, run[e].shared.cache[k]);
  }

  // ---- Clock readings ----

  /** The thread has read the clock in this call. */
  predicate HasRead(pc: Thread) {
    !pc.Idle? && !pc.Requested? && !pc.Unlocking? && !pc.Clearing?
  }

  /** Thread `t` read the clock at step `i` and still holds that reading at `j`. */
  ghost predicate ReadAt(run: seq<State>, actions: seq<Action>, i: nat, j: nat, t: nat) {
    && i < j < |run| && i < |actions| && t < |run[i].threads| && t < |run[j].threads| && HasRead(run[j].threads[t])
    && (actions[i] == Cleanup(t) || (actions[i] == Advance(t) && run[i].threads[t].Requested?))
    && run[j].threads[t].now == run[i].shared.clock
  }

  lemma ReadingKept(c: Config, s: State, a: Action, t: nat)
    requires Enabled(c, s, a) && t < |s.threads| && HasRead(Apply(c, s, a).threads[t])
    ensures (HasRead(s.threads[t]) && s.threads[t].now == Apply(c, s, a).threads[t].now)
         || ((a == Cleanup(t) || (a == Advance(t) && s.threads[t].Requested?))
             && Apply(c, s, a).threads[t].now == s.shared.clock)
  {
  }

  /** Every timestamp a call works with is the clock at the moment the call read it. */
  lemma {:induction false} ReadingsTrue(c: Config, run: seq<State>, actions: seq<Action>, j: nat, t: nat)
    returns (i: nat)
    requires IsRun(c, run, actions) && j < |run| && t < |run[j].threads| && HasRead(run[j].threads[t])
    ensures ReadAt(run, actions, i, j, t)
  {
    assert j > 0;
    var n := j - 1;
    assert Enabled(c, run[n], actions[n]) && run[n + 1] == Apply(c, run[n], actions[n]);
    ReadingKept(c, run[n], actions[n], t);
    if HasRead(run[n].threads[t]) && run[n].threads[t].now == run[j].threads[t].now {
      i := ReadingsTrue(c, run, actions, n, t);
    } else {
      i := n;
    }
  }

  lemma HistoryAct(c: Config, s: State, a: Action, h: Access, x: Computed)
    requires Enabled(c, s, a)
    ensures h in Apply(c, s, a).shared.hits && h !in s.shared.hits ==>
              a.Advance? && s.threads[a.t] == Found(h.key, h.now, h.entry)
    ensures x in Apply(c, s, a).shared.computed && x !in s.shared.computed ==>
              a.Attribute? && s.threads[a.t] == Missed(x.key, x.start)
  {
  }

  /** In every run, a hit's time is a clock reading of the call that hit. */
  lemma {:induction false} HitsReadTheClock(c: Config, run: seq<State>, actions: seq<Action>, n: nat, h: Access)
    returns (i: nat)
    requires IsRun(c, run, actions) && n < |run| && h in run[n].shared.hits
    ensures i < n && run[i].shared.clock == h.now
  {
    assert n > 0;
    var m := n - 1;
    assert Enabled(c, run[m], actions[m]) && run[m + 1] == Apply(c, run[m], actions[m]);
    if h in run[m].shared.hits {
      i := HitsReadTheClock(c, run, actions, m, h);
    } else {
      HistoryAct(c, run[m], actions[m], h, Computed(h.key, h.entry.attribution, 0));
      i := ReadingsTrue(c, run, actions, m, actions[m].t);
    }
  }

  /** And the start of a computation is a clock reading of the call that made it. */
  lemma {:induction false} StartsReadTheClock(c: Config, run: seq<State>, actions: seq<Action>, n: nat, x: Computed)
    returns (i: nat)
    requires IsRun(c, run, actions) && n < |run| && x in run[n].shared.computed
    ensures i < n && run[i].shared.clock == x.start
  {
    assert n > 0;
    var m := n - 1;
    assert Enabled(c, run[m], actions[m]) && run[m + 1] == Apply(c, run[m], actions[m]);
    if x in run[m].shared.computed {
      i := StartsReadTheClock(c, run, actions, m, x);
    } else {
      HistoryAct(c, run[m], actions[m], Access(x.key, Entry(x.attribution, 0), 0), x);
      i := ReadingsTrue(c, run, actions, m, actions[m].t);
    }
  }
}

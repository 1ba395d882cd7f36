/**
 What a cleanup leaves behind. It visits the shards one by one and then removes what it
 found, with other threads running in between, so an expired entry can survive it; but only
 one that was put in after the cleanup had passed its shard.
 */
module AttributionCleanup {
  import opened AttributionCache

  predicate InCleanup(pc: Thread) {
    pc.Cleaning? || pc.Sweeping? || pc.Swept?
  }

  /** The thread is in one cleanup, with one clock reading, from `v` to `i`. */
  ghost predicate SameCleanup(run: seq<State>, v: nat, i: nat, t: nat, now: nat) {
    && v <= i < |run|
    && forall j :: v <= j <= i ==> t < |run[j].threads| && InCleanup(run[j].threads[t]) && run[j].threads[t].now == now
  }

  /** At step `v` the cleanup that thread `t` is in at `i` visits the shard of `k`. */
  ghost predicate Visits(c: Config, run: seq<State>, actions: seq<Action>, v: nat, i: nat, t: nat, k: FlowKey) {
    && i < |run| && v < |actions| && v < i && t < |run[i].threads| && InCleanup(run[i].threads[t])
    && SameCleanup(run, v, i, t, run[i].threads[t].now)
    && actions[v].Collect? && actions[v].t == t
    && run[v].threads[t].Cleaning? && run[v].threads[t].shard == c.shardOf(k)
  }

  /** At step `m` some thread puts `entry` into the cache under `k`. */
  ghost predicate Inserts(run: seq<State>, actions: seq<Action>, m: nat, k: FlowKey, entry: Entry) {
    && m < |actions| && m < |run| && actions[m].Advance? && actions[m].t < |run[m].threads|
    && run[m].threads[actions[m].t] == Inserting(k, entry.timestamp, entry.attribution)
  }

  ghost predicate InsertedLate(
    c: Config, run: seq<State>, actions: seq<Action>, v: nat, m: nat, i: nat, t: nat, k: FlowKey, entry: Entry)
  {
    Visits(c, run, actions, v, i, t, k) && v < m < i && Inserts(run, actions, m, k, entry)
  }

  predicate Passed(c: Config, pc: Thread, k: FlowKey) {
    InCleanup(pc) && (pc.Cleaning? ==> c.shardOf(k) < pc.shard)
  }

  // ---- One step ----

  /** An entry that is new or changed was just inserted. */
  lemma StepInserts(c: Config, t: nat, g: Shared, pc: Thread, k: FlowKey)
    requires k in Step(c, t, g, pc).0.cache && !(k in g.cache && g.cache[k] == Step(c, t, g, pc).0.cache[k])
    ensures var entry := Step(c, t, g, pc).0.cache[k]; pc == Inserting(k, entry.timestamp, entry.attribution)
  {
  }

  lemma ActInserts(c: Config, s: State, a: Action, k: FlowKey)
    requires Enabled(c, s, a) && k in Apply(c, s, a).shared.cache
    requires !(k in s.shared.cache && s.shared.cache[k] == Apply(c, s, a).shared.cache[k])
    ensures var entry := Apply(c, s, a).shared.cache[k];
      a.Advance? && s.threads[a.t] == Inserting(k, entry.timestamp, entry.attribution)
  {
    if a.Advance? {
      StepInserts(c, a.t, s.shared, s.threads[a.t], k);
    }
  }

  /** A thread past the shard of `k` was past it before the step, in the same cleanup, or the step visits the shard. */
  lemma StepPassed(c: Config, t: nat, g: Shared, pc: Thread, k: FlowKey)
    requires ValidConfig(c) && Passed(c, Step(c, t, g, pc).1, k)
    ensures Passed(c, pc, k) && pc.now == Step(c, t, g, pc).1.now
  {
  }

  lemma ActPassed(c: Config, s: State, a: Action, t: nat, k: FlowKey)
    requires ValidConfig(c) && Enabled(c, s, a) && t < |s.threads| && Passed(c, Apply(c, s, a).threads[t], k)
    ensures InCleanup(s.threads[t]) && s.threads[t].now == Apply(c, s, a).threads[t].now
    ensures Passed(c, s.threads[t], k)
         || (a.Collect? && a.t == t && s.threads[t].Cleaning? && s.threads[t].shard == c.shardOf(k))
  {
    if a.Advance? && a.t == t {
      StepPassed(c, t, s.shared, s.threads[t], k);
    }
  }

  lemma HeadOrRest(found: seq<(FlowKey, nat)>, x: (FlowKey, nat))
    requires found != [] && x != found[0] && x !in found[1..]
    ensures x !in found
  {
    assert found == [found[0]] + found[1..];
  }

  /** The removals leave no entry behind that the scan had seen as it is. */
  lemma StepFound(c: Config, t: nat, g: Shared, pc: Thread, k: FlowKey)
    requires InCleanup(pc) && InCleanup(Step(c, t, g, pc).1) && k in g.cache
    requires k in Step(c, t, g, pc).0.cache && (k, g.cache[k].timestamp) !in Step(c, t, g, pc).1.found
    ensures (k, g.cache[k].timestamp) !in pc.found
  {
    if pc.Sweeping? && pc.found != [] {
      HeadOrRest(pc.found, (k, g.cache[k].timestamp));
    }
  }

  /** A visit collects every expired entry of its shard. */
  lemma CollectFound(c: Config, s: State, a: Action, k: FlowKey)
    requires Enabled(c, s, a) && a.Collect? && k in s.shared.cache
    requires (k, s.shared.cache[k].timestamp) !in s.threads[a.t].found + a.found
    requires IsExpired(c, s.threads[a.t].now, s.shared.cache[k].timestamp)
    ensures c.shardOf(k) != s.threads[a.t].shard && (k, s.shared.cache[k].timestamp) !in s.threads[a.t].found
  {
    assert c.shardOf(k) == s.threads[a.t].shard ==> k in Shard(c, s.shared.cache, s.threads[a.t].shard);
  }

  lemma ActFound(c: Config, s: State, a: Action, t: nat, k: FlowKey)
    requires ValidConfig(c) && Enabled(c, s, a) && t < |s.threads| && Passed(c, Apply(c, s, a).threads[t], k)
    requires k in s.shared.cache && k in Apply(c, s, a).shared.cache
    requires IsExpired(c, s.threads[t].now, s.shared.cache[k].timestamp)
    requires (k, s.shared.cache[k].timestamp) !in Apply(c, s, a).threads[t].found
    ensures Passed(c, s.threads[t], k) && (k, s.shared.cache[k].timestamp) !in s.threads[t].found
  {
    ActPassed(c, s, a, t, k);
    if a.Advance? && a.t == t {
      StepFound(c, t, s.shared, s.threads[t], k);
    } else if a.Collect? && a.t == t {
      CollectFound(c, s, a, k);
    }
  }

  // ---- Every run ----

  lemma VisitsLonger(c: Config, run: seq<State>, actions: seq<Action>, v: nat, i: nat, t: nat, k: FlowKey)
    requires Visits(c, run, actions, v, i, t, k) && i + 1 < |run|
    requires t < |run[i + 1].threads| && InCleanup(run[i + 1].threads[t])
    requires run[i + 1].threads[t].now == run[i].threads[t].now
    ensures Visits(c, run, actions, v, i + 1, t, k)
  {
  }

  lemma {:induction false} PassedVisited(c: Config, run: seq<State>, actions: seq<Action>, i: nat, t: nat, k: FlowKey)
    returns (v: nat)
    requires ValidConfig(c) && IsRun(c, run, actions) && i < |run| && t < |run[i].threads|
    requires Passed(c, run[i].threads[t], k)
    ensures Visits(c, run, actions, v, i, t, k)
  {
    assert i > 0;
    var s, a := run[i - 1], actions[i - 1];
    assert Enabled(c, s, a) && run[i - 1 + 1] == Apply(c, s, a);
    ActPassed(c, s, a, t, k);
    if Passed(c, s.threads[t], k) {
      v := PassedVisited(c, run, actions, i - 1, t, k);
      VisitsLonger(c, run, actions, v, i - 1, t, k);
    } else {
      v := i - 1;
    }
  }

  lemma {:induction false} SurvivorsInsertedLate(
    c: Config, run: seq<State>, actions: seq<Action>, i: nat, t: nat, k: FlowKey) returns (v: nat, m: nat)
    requires ValidConfig(c) && IsRun(c, run, actions) && i < |run| && t < |run[i].threads|
    requires Passed(c, run[i].threads[t], k) && k in run[i].shared.cache
    requires IsExpired(c, run[i].threads[t].now, run[i].shared.cache[k].timestamp)
    requires (k, run[i].shared.cache[k].timestamp) !in run[i].threads[t].found
    ensures InsertedLate(c, run, actions, v, m, i, t, k, run[i].shared.cache[k])
  {
    assert i > 0;
    var s, a := run[i - 1], actions[i - 1];
    assert Enabled(c, s, a) && run[i - 1 + 1] == Apply(c, s, a);
    ActPassed(c, s, a, t, k);
    if k in s.shared.cache && s.shared.cache[k] == run[i].shared.cache[k] {
      ActFound(c, s, a, t, k);
      v, m := SurvivorsInsertedLate(c, run, actions, i - 1, t, k);
    } else {
      ActInserts(c, s, a, k);
      v := PassedVisited(c, run, actions, i - 1, t, k);
      m := i - 1;
    }
    VisitsLonger(c, run, actions, v, i - 1, t, k);
  }

  /**
   When a cleanup has nothing left to remove, every entry in the cache that had expired at its
   clock reading was inserted after the cleanup had visited its shard.
   */
  lemma CleanupComplete(c: Config, run: seq<State>, actions: seq<Action>, i: nat, t: nat, k: FlowKey)
    requires ValidConfig(c) && IsRun(c, run, actions) && i < |run| && t < |run[i].threads|
    requires run[i].threads[t].Sweeping? && run[i].threads[t].found == []
    requires k in run[i].shared.cache && IsExpired(c, run[i].threads[t].now, run[i].shared.cache[k].timestamp)
    ensures exists v, m :: InsertedLate(c, run, actions, v, m, i, t, k, run[i].shared.cache[k])
  {
    var v, m := SurvivorsInsertedLate(c, run, actions, i, t, k);
  }
}

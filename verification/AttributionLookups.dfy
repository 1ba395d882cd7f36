/**
 What a lookup gets. A fresh entry is hit, a success is cached and hit again while it is fresh, and
 nothing but a few steps that name a key changes its entry.
 */
module AttributionLookups {
  import opened Common
  import opened AttributionCache

  // ---- Which steps change an entry ----

  /** The action may put, replace or remove the entry of `key`. */
  predicate Concerns(c: Config, s: State, a: Action, key: FlowKey)
    requires !a.Tick? ==> a.t < |s.threads|
  {
    match a
    case Invalidate(_, k) => k == key
    case Advance(t) =>
      (match s.threads[t]
       case Stale(k, _) => k == key
       case Evicting(_, _, _, victim) => victim == key
       case Inserting(k, _, _) => k == key
       case Sweeping(_, found) => found != [] && found[0].0 == key
       case Clearing(shard) => shard == c.shardOf(key)
       case _ => false)
    case _ => false
  }

  ghost predicate SameAt(cache: map<FlowKey, Entry>, cache': map<FlowKey, Entry>, key: FlowKey) {
    (key in cache <==> key in cache') && (key in cache ==> cache[key] == cache'[key])
  }

  /** Every other action leaves the entry as it is. */
  lemma EntryKept(c: Config, s: State, a: Action, key: FlowKey)
    requires Enabled(c, s, a) && !Concerns(c, s, a, key)
    ensures SameAt(s.shared.cache, Apply(c, s, a).shared.cache, key)
  {
    if a.Advance? {
      StepKeeps(c, a.t, s.shared, s.threads[a.t], s, key);
    }
  }

  lemma StepKeeps(c: Config, t: nat, g: Shared, pc: Thread, s: State, key: FlowKey)
    requires t < |s.threads| && g == s.shared && pc == s.threads[t] && !Concerns(c, s, Advance(t), key)
    ensures SameAt(g.cache, Step(c, t, g, pc).0.cache, key)
  {
  }

  /** Invalidation removes the entry of its key and nothing else. */
  lemma InvalidateExactly(c: Config, s: State, a: Action)
    requires Enabled(c, s, a) && a.Invalidate?
    ensures forall k :: k in Apply(c, s, a).shared.cache <==> k in s.shared.cache && k != a.key
    ensures forall k :: k in Apply(c, s, a).shared.cache ==> Apply(c, s, a).shared.cache[k] == s.shared.cache[k]
    ensures Apply(c, s, a).shared.stats == s.shared.stats
  {
  }

  // ---- One lookup ----

  /** In every run, a lookup finds an entry if and only if it is the one cached for the key and has not expired. */
  lemma LookupExactly(
    c: Config, run: seq<State>, actions: seq<Action>, j: nat, u: nat, key: FlowKey, now: nat, e: Entry)
    requires IsRun(c, run, actions) && j < |actions| && actions[j] == Advance(u)
    requires u < |run[j].threads| && run[j].threads[u] == Looking(key, now)
    ensures u < |run[j + 1].threads|
    ensures run[j + 1].threads[u] == Found(key, now, e)
       <==> key in run[j].shared.cache && run[j].shared.cache[key] == e && Elapsed(now, e.timestamp) < c.timeout
    ensures run[j + 1].threads[u].Absent? <==> key !in run[j].shared.cache
  {
    assert run[j + 1] == Apply(c, run[j], actions[j]);
  }

  /** A thread stays where it is while it does not act. */
  lemma {:induction false} ThreadWaits(c: Config, run: seq<State>, actions: seq<Action>, i: nat, j: nat, u: nat)
    requires IsRun(c, run, actions) && i <= j < |run| && u < |run[i].threads|
    requires forall x :: i <= x < j ==> actions[x].Tick? || actions[x].t != u
    ensures u < |run[j].threads| && run[j].threads[u] == run[i].threads[u]
    decreases j
  {
    if i < j {
      ThreadWaits(c, run, actions, i, j - 1, u);
      assert Enabled(c, run[j - 1], actions[j - 1]) && run[j - 1 + 1] == Apply(c, run[j - 1], actions[j - 1]);
    }
  }

  // ---- A success is cached ----

  /** The thread has a result for `key` to put into the cache. */
  predicate Carries(pc: Thread, key: FlowKey, now: nat, result: Attribution) {
    && (pc.Attributed? || pc.Locking? || pc.Locked? || pc.Measuring? || pc.Scanning? || pc.Evicting? || pc.Evicted?
        || pc.Inserting?)
    && pc.key == key && pc.now == now && pc.result == result
  }

  lemma CarriesOn(c: Config, s: State, a: Action, t: nat, key: FlowKey, now: nat, result: Attribution)
    requires Enabled(c, s, a) && t < |s.threads| && Carries(s.threads[t], key, now, result)
    requires !result.confidence.NoConfidence? && !(a == Advance(t) && s.threads[t].Inserting?)
    ensures Carries(Apply(c, s, a).threads[t], key, now, result)
  {
  }

  ghost predicate InsertedAt(
    run: seq<State>, actions: seq<Action>, m: nat, t: nat, key: FlowKey, now: nat, result: Attribution)
  {
    && m < |actions| && m < |run| && actions[m] == Advance(t) && t < |run[m].threads|
    && run[m].threads[t] == Inserting(key, now, result)
  }

  /** A call that found the process does not end before it has put the result into the cache. */
  lemma {:induction false} SuccessInserts(
    c: Config, run: seq<State>, actions: seq<Action>, i: nat, e: nat, t: nat,
    key: FlowKey, now: nat, result: Attribution)
    returns (m: nat)
    requires IsRun(c, run, actions) && i <= e < |run| && t < |run[i].threads| && t < |run[e].threads|
    requires Carries(run[i].threads[t], key, now, result) && !Carries(run[e].threads[t], key, now, result)
    requires !result.confidence.NoConfidence?
    ensures i <= m < e && InsertedAt(run, actions, m, t, key, now, result)
    decreases e - i
  {
    assert i < e;
    assert Enabled(c, run[i], actions[i]) && run[i + 1] == Apply(c, run[i], actions[i]);
    if actions[i] == Advance(t) && run[i].threads[t].Inserting? {
      m := i;
    } else {
      CarriesOn(c, run[i], actions[i], t, key, now, result);
      m := SuccessInserts(c, run, actions, i + 1, e, t, key, now, result);
    }
  }

  /** A lookup that found no process ends at once, counted as a failure, with nothing cached. */
  lemma FailureNotCached(c: Config, run: seq<State>, actions: seq<Action>, j: nat, t: nat)
    requires IsRun(c, run, actions) && j < |actions| && actions[j] == Advance(t)
    requires t < |run[j].threads| && run[j].threads[t].Attributed? && run[j].threads[t].result.confidence.NoConfidence?
    ensures run[j + 1].threads[t] == Idle && run[j + 1].shared.cache == run[j].shared.cache
    ensures run[j + 1].shared.stats == run[j].shared.stats.(failures := run[j].shared.stats.failures + 1)
  {
    assert run[j + 1] == Apply(c, run[j], actions[j]);
  }

  /** Whatever concerns `key` from `i` on is the insertion of this one result. */
  ghost predicate Undisturbed(
    c: Config, run: seq<State>, actions: seq<Action>, i: nat, j: nat, t: nat,
    key: FlowKey, now: nat, result: Attribution)
    requires IsRun(c, run, actions) && i <= j < |run|
  {
    forall x :: i <= x < j ==>
      (assert Enabled(c, run[x], actions[x]);
       Concerns(c, run[x], actions[x], key)) ==> InsertedAt(run, actions, x, t, key, now, result)
  }

  lemma InsertPuts(c: Config, s: State, t: nat, key: FlowKey, now: nat, result: Attribution)
    requires t < |s.threads| && s.threads[t] == Inserting(key, now, result) && Enabled(c, s, Advance(t))
    ensures key in Apply(c, s, Advance(t)).shared.cache
    ensures Apply(c, s, Advance(t)).shared.cache[key] == Entry(result, now)
  {
  }

  lemma {:induction false} StaysCached(
    c: Config, run: seq<State>, actions: seq<Action>, i: nat, m: nat, j: nat, t: nat,
    key: FlowKey, now: nat, result: Attribution)
    requires IsRun(c, run, actions) && i <= m < j < |run| && InsertedAt(run, actions, m, t, key, now, result)
    requires Undisturbed(c, run, actions, i, j, t, key, now, result)
    ensures key in run[j].shared.cache && run[j].shared.cache[key] == Entry(result, now)
    decreases j
  {
    var x := j - 1;
    assert Enabled(c, run[x], actions[x]) && run[x + 1] == Apply(c, run[x], actions[x]);
    if Concerns(c, run[x], actions[x], key) {
      InsertPuts(c, run[x], t, key, now, result);
    } else {
      assert x != m;
      StaysCached(c, run, actions, i, m, x, t, key, now, result);
      EntryKept(c, run[x], actions[x], key);
    }
  }

  // ---- The next call ----

  /** A call of thread `u` for `key`: it is counted at `r`, reads the clock at `r1`, looks up at `j` and ends at `n`. */
  ghost predicate Lookup(
    run: seq<State>, actions: seq<Action>, r: nat, r1: nat, j: nat, n: nat, u: nat, key: FlowKey)
  {
    && r < r1 < j < n < |actions| && n < |run| && actions[r] == Request(u, key)
    && actions[r1] == Advance(u) && actions[j] == Advance(u) && actions[n] == Advance(u)
    && forall x :: r < x < n && x != r1 && x != j ==> actions[x].Tick? || actions[x].t != u
  }

  lemma LookupStarts(
    c: Config, run: seq<State>, actions: seq<Action>, r: nat, r1: nat, j: nat, n: nat, u: nat, key: FlowKey)
    requires IsRun(c, run, actions) && Lookup(run, actions, r, r1, j, n, u, key)
    ensures u < |run[j].threads| && run[j].threads[u] == Looking(key, run[r1].shared.clock)
    ensures run[r + 1].shared.stats.requests == run[r].shared.stats.requests + 1
  {
    assert Enabled(c, run[r], actions[r]) && run[r + 1] == Apply(c, run[r], actions[r]);
    ThreadWaits(c, run, actions, r + 1, r1, u);
    assert Enabled(c, run[r1], actions[r1]) && run[r1 + 1] == Apply(c, run[r1], actions[r1]);
    ThreadWaits(c, run, actions, r1 + 1, j, u);
  }

  lemma HitEnds(c: Config, s: State, u: nat, key: FlowKey, now: nat, e: Entry)
    requires u < |s.threads| && s.threads[u] == Found(key, now, e) && Enabled(c, s, Advance(u))
    ensures var s' := Apply(c, s, Advance(u));
      && s'.threads[u] == Idle && Access(key, e, now) in s'.shared.hits
      && s'.shared.stats == s.shared.stats.(hits := s.shared.stats.hits + 1)
  {
  }

  /**
   In every run: once a call has attributed `key` with some confidence, a later call for it whose
   clock reading is within the timeout, with nothing else concerning `key` in between, is a hit
   that returns that attribution, and only the hits are counted up.
   */
  lemma HitAgain(
    c: Config, run: seq<State>, actions: seq<Action>, i: nat, t: nat, now: nat, result: Attribution,
    r: nat, r1: nat, j: nat, n: nat, u: nat, key: FlowKey)
    requires IsRun(c, run, actions) && Lookup(run, actions, r, r1, j, n, u, key) && i <= r
    requires t < |run[i].threads| && run[i].threads[t] == Attributed(key, now, result)
    requires !result.confidence.NoConfidence? && t < |run[r].threads| && run[r].threads[t].Idle?
    requires Undisturbed(c, run, actions, i, j, t, key, now, result)
    requires Elapsed(run[r1].shared.clock, now) < c.timeout
    ensures u < |run[n + 1].threads| && run[n + 1].threads[u] == Idle
    ensures Access(key, Entry(result, now), run[r1].shared.clock) in run[n + 1].shared.hits
    ensures run[n + 1].shared.stats == run[n].shared.stats.(hits := run[n].shared.stats.hits + 1)
  {
    var m := SuccessInserts(c, run, actions, i, r, t, key, now, result);
    StaysCached(c, run, actions, i, m, j, t, key, now, result);
    HitWhileCached(c, run, actions, r, r1, j, n, u, key, Entry(result, now));
  }

  lemma HitWhileCached(
    c: Config, run: seq<State>, actions: seq<Action>, r: nat, r1: nat, j: nat, n: nat, u: nat, key: FlowKey, e: Entry)
    requires IsRun(c, run, actions) && Lookup(run, actions, r, r1, j, n, u, key)
    requires key in run[j].shared.cache && run[j].shared.cache[key] == e
    requires Elapsed(run[r1].shared.clock, e.timestamp) < c.timeout
    ensures u < |run[n + 1].threads| && run[n + 1].threads[u] == Idle
    ensures Access(key, e, run[r1].shared.clock) in run[n + 1].shared.hits
    ensures run[n + 1].shared.stats == run[n].shared.stats.(hits := run[n].shared.stats.hits + 1)
  {
    LookupStarts(c, run, actions, r, r1, j, n, u, key);
    LookupExactly(c, run, actions, j, u, key, run[r1].shared.clock, e);
    ThreadWaits(c, run, actions, j + 1, n, u);
    assert Enabled(c, run[n], actions[n]) && run[n + 1] == Apply(c, run[n], actions[n]);
    HitEnds(c, run[n], u, key, run[r1].shared.clock, e);
  }
}

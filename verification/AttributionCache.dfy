/**
 The attribution cache under concurrency. Threads run `attribute_flow`, `cleanup_expired`,
 `clear_cache` and `invalidate` at the same time; each step below is one atomic access to
 the cache, to the insert lock or to the statistics. The cache is split into shards: its
 length, its iteration and its clearing visit one shard at a time, with other threads
 running in between.
 */
module AttributionCache {
  import opened Common

  const MAX_CACHE_ENTRIES: nat := 10000

  datatype FlowKey = FlowKey(id: nat)

  datatype Confidence = NoConfidence | Medium | High

  /** What a process lookup found; `subject` stands for the process and the method. */
  datatype Attribution = Attribution(subject: nat, confidence: Confidence)

  datatype Entry = Entry(attribution: Attribution, timestamp: nat)

  datatype Config = Config(timeout: nat, shards: nat, shardOf: FlowKey -> nat)

  ghost predicate ValidConfig(c: Config) {
    forall k :: c.shardOf(k) < c.shards
  }

  datatype Stats = Stats(
    requests: nat, hits: nat, misses: nat, successes: nat, failures: nat, evictions: nat)

  /** History: a lookup that produced `attribution` for `key`, by a call that read the clock at `start`. */
  datatype Computed = Computed(key: FlowKey, attribution: Attribution, start: nat)

  /** History: an entry taken from the cache, or removed from it, at the caller's clock reading `now`. */
  datatype Access = Access(key: FlowKey, entry: Entry, now: nat)

  datatype Shared = Shared(
    clock: nat,
    cache: map<FlowKey, Entry>,
    lock: Option<nat>,
    stats: Stats,
    // History, read by no step:
    computed: set<Computed>,
    hits: set<Access>,
    expired: set<Access>,
    inserted: nat,
    dropped: nat)

  /** Where a thread is: the name tells what was done last, the fields are its locals. */
  datatype Thread =
    | Idle
    | Requested(key: FlowKey)
    | Looking(key: FlowKey, now: nat)
    | Found(key: FlowKey, now: nat, entry: Entry)
    | Stale(key: FlowKey, now: nat)
    | Removed(key: FlowKey, now: nat)
    | Absent(key: FlowKey, now: nat)
    | Missed(key: FlowKey, now: nat)
    | Attributed(key: FlowKey, now: nat, result: Attribution)
    | Locking(key: FlowKey, now: nat, result: Attribution)
    | Locked(key: FlowKey, now: nat, result: Attribution)
    | Measuring(key: FlowKey, now: nat, result: Attribution, shard: nat, sum: nat)
    | Scanning(key: FlowKey, now: nat, result: Attribution, shard: nat, oldest: Option<(FlowKey, nat)>)
    | Evicting(key: FlowKey, now: nat, result: Attribution, victim: FlowKey)
    | Evicted(key: FlowKey, now: nat, result: Attribution)
    | Inserting(key: FlowKey, now: nat, result: Attribution)
    | Unlocking
    | Cleaning(now: nat, shard: nat, found: seq<(FlowKey, nat)>)
    | Sweeping(now: nat, found: seq<(FlowKey, nat)>)
    | Swept(now: nat, found: seq<(FlowKey, nat)>)
    | Clearing(shard: nat)

  datatype State = State(shared: Shared, threads: seq<Thread>)

  datatype Action =
    | Tick(elapsed: nat)
    | Request(t: nat, key: FlowKey)
    | Cleanup(t: nat)
    | Clear(t: nat)
    | Invalidate(t: nat, key: FlowKey)
    // The next step of a thread in the middle of a call.
    | Advance(t: nat)
    // The process lookup returns.
    | Attribute(t: nat, result: Attribution)
    // The search for the oldest entry visits a shard; ties may go either way.
    | Visit(t: nat, oldest: Option<(FlowKey, nat)>)
    // The cleanup visits a shard and collects its expired entries in some order.
    | Collect(t: nat, found: seq<(FlowKey, nat)>)

  predicate IsExpired(c: Config, now: nat, timestamp: nat) {
    Elapsed(now, timestamp) >= c.timeout
  }

  function Shard(c: Config, cache: map<FlowKey, Entry>, i: nat): set<FlowKey> {
    set k | k in cache && c.shardOf(k) == i
  }

  function Below(c: Config, cache: map<FlowKey, Entry>, i: nat): set<FlowKey> {
    set k | k in cache && c.shardOf(k) < i
  }

  /** `oldest` is the minimum of the best so far and of the entries of a shard. */
  ghost predicate OldestWith(
    c: Config, cache: map<FlowKey, Entry>, i: nat, before: Option<(FlowKey, nat)>, oldest: Option<(FlowKey, nat)>)
  {
    && (oldest.None? ==> before.None? && Shard(c, cache, i) == {})
    && (oldest.Some? ==>
          && (oldest == before
              || (oldest.value.0 in Shard(c, cache, i) && cache[oldest.value.0].timestamp == oldest.value.1))
          && (before.Some? ==> oldest.value.1 <= before.value.1)
          && forall k :: k in Shard(c, cache, i) ==> oldest.value.1 <= cache[k].timestamp)
  }

  /** `found` lists the expired entries of a shard with their timestamps, each once. */
  ghost predicate ExpiredIn(c: Config, cache: map<FlowKey, Entry>, i: nat, now: nat, found: seq<(FlowKey, nat)>) {
    && (forall n :: 0 <= n < |found| ==>
          && found[n].0 in Shard(c, cache, i) && cache[found[n].0].timestamp == found[n].1
          && IsExpired(c, now, found[n].1))
    && (forall m, n :: 0 <= m < n < |found| ==> found[m].0 != found[n].0)
    && (forall k :: k in Shard(c, cache, i) && IsExpired(c, now, cache[k].timestamp) ==>
          (k, cache[k].timestamp) in found)
  }

  // ---- Steps ----

  function Count(g: Shared, stats: Stats): Shared {
    g.(stats := stats)
  }

  function Remove(g: Shared, key: FlowKey): Shared {
    g.(cache := g.cache - {key})
  }

  /** An expired key found by the scan goes only if its entry is still the one the scan saw. */
  function Sweep(g: Shared, now: nat, key: FlowKey, timestamp: nat, rest: seq<(FlowKey, nat)>): (Shared, Thread) {
    if key in g.cache && g.cache[key].timestamp == timestamp
    then (Remove(g, key).(expired := g.expired + {Access(key, g.cache[key], now)}), Swept(now, rest))
    else (g, Sweeping(now, rest))
  }

  /** One step of a thread in the middle of a call: what it does to the shared state and where it goes. */
  function Step(c: Config, t: nat, g: Shared, pc: Thread): (Shared, Thread) {
    match pc
    case Requested(key) => (g, Looking(key, g.clock))
    case Looking(key, now) =>
      if key !in g.cache then (g, Absent(key, now))
      else if IsExpired(c, now, g.cache[key].timestamp) then (g, Stale(key, now))
      else (g, Found(key, now, g.cache[key]))
    case Found(key, now, entry) =>
      (Count(g, g.stats.(hits := g.stats.hits + 1)).(hits := g.hits + {Access(key, entry, now)}), Idle)
    case Stale(key, now) =>
      if key in g.cache && IsExpired(c, now, g.cache[key].timestamp)
      then (Remove(g, key).(expired := g.expired + {Access(key, g.cache[key], now)}), Removed(key, now))
      else (g, Absent(key, now))
    case Removed(key, now) => (Count(g, g.stats.(evictions := g.stats.evictions + 1)), Absent(key, now))
    case Absent(key, now) => (Count(g, g.stats.(misses := g.stats.misses + 1)), Missed(key, now))
    case Attributed(key, now, result) =>
      if result.confidence.NoConfidence?
      then (Count(g, g.stats.(failures := g.stats.failures + 1)), Idle)
      else (Count(g, g.stats.(successes := g.stats.successes + 1)), Locking(key, now, result))
    case Locking(key, now, result) =>
      if g.lock.None? then (g.(lock := Some(t)), Locked(key, now, result)) else (g, pc)
    case Locked(key, now, result) =>
      if key in g.cache then (g, Inserting(key, now, result)) else (g, Measuring(key, now, result, 0, 0))
    case Measuring(key, now, result, shard, sum) =>
      if shard < c.shards then (g, Measuring(key, now, result, shard + 1, sum + |Shard(c, g.cache, shard)|))
      else if sum >= MAX_CACHE_ENTRIES then (g, Scanning(key, now, result, 0, None))
      else (g, Inserting(key, now, result))
    case Scanning(key, now, result, shard, oldest) =>
      if shard < c.shards then (g, pc)
      else if oldest.None? then (g, Inserting(key, now, result))
      else (g, Evicting(key, now, result, oldest.value.0))
    case Evicting(key, now, result, victim) =>
      if victim in g.cache then (Remove(g, victim), Evicted(key, now, result)) else (g, Locked(key, now, result))
    case Evicted(key, now, result) =>
      (Count(g, g.stats.(evictions := g.stats.evictions + 1)), Locked(key, now, result))
    case Inserting(key, now, result) =>
      (g.(cache := g.cache[key := Entry(result, now)],
          inserted := if key in g.cache then g.inserted else g.inserted + 1), Unlocking)
    case Unlocking => (g.(lock := None), Idle)
    case Cleaning(now, shard, found) =>
      if shard < c.shards then (g, pc) else (g, Sweeping(now, found))
    case Sweeping(now, found) =>
      if found == [] then (g, Idle) else Sweep(g, now, found[0].0, found[0].1, found[1..])
    case Swept(now, found) => (Count(g, g.stats.(evictions := g.stats.evictions + 1)), Sweeping(now, found))
    case Clearing(shard) =>
      if shard < c.shards
      then (g.(cache := g.cache - Shard(c, g.cache, shard), dropped := g.dropped + |Shard(c, g.cache, shard)|),
            Clearing(shard + 1))
      else (g, Idle)
    case Idle => (g, pc)
    case Missed(_, _) => (g, pc)
  }

  ghost predicate Enabled(c: Config, s: State, a: Action) {
    match a
    case Tick(_) => true
    case Request(t, _) => t < |s.threads| && s.threads[t].Idle?
    case Cleanup(t) => t < |s.threads| && s.threads[t].Idle?
    case Clear(t) => t < |s.threads| && s.threads[t].Idle?
    case Invalidate(t, _) => t < |s.threads| && s.threads[t].Idle?
    case Advance(t) => t < |s.threads|
    case Attribute(t, _) => t < |s.threads| && s.threads[t].Missed?
    case Visit(t, oldest) =>
      && t < |s.threads| && s.threads[t].Scanning? && s.threads[t].shard < c.shards
      && OldestWith(c, s.shared.cache, s.threads[t].shard, s.threads[t].oldest, oldest)
    case Collect(t, found) =>
      && t < |s.threads| && s.threads[t].Cleaning? && s.threads[t].shard < c.shards
      && ExpiredIn(c, s.shared.cache, s.threads[t].shard, s.threads[t].now, found)
  }

  /** The shared state and the acting thread after an action of thread `a.t`. */
  ghost function Act(c: Config, s: State, a: Action): (Shared, Thread)
    requires Enabled(c, s, a) && !a.Tick?
  {
    var g, pc := s.shared, s.threads[a.t];
    match a
    case Request(_, key) => (Count(g, g.stats.(requests := g.stats.requests + 1)), Requested(key))
    case Cleanup(_) => (g, Cleaning(g.clock, 0, []))
    case Clear(_) => (g, Clearing(0))
    case Invalidate(_, key) => (Remove(g, key).(dropped := if key in g.cache then g.dropped + 1 else g.dropped), Idle)
    case Advance(t) => Step(c, t, g, pc)
    case Attribute(_, result) =>
      (g.(computed := g.computed + {Computed(pc.key, result, pc.now)}), Attributed(pc.key, pc.now, result))
    case Visit(_, oldest) => (g, pc.(shard := pc.shard + 1, oldest := oldest))
    case Collect(_, found) => (g, pc.(shard := pc.shard + 1, found := pc.found + found))
  }

  ghost function Apply(c: Config, s: State, a: Action): State
    requires Enabled(c, s, a)
  {
    if a.Tick? then s.(shared := s.shared.(clock := s.shared.clock + a.elapsed))
    else
      var (g, pc) := Act(c, s, a);
      State(g, s.threads[a.t := pc])
  }

  /** `run` is an execution: it starts empty and every state follows from the one before by an enabled action. */
  ghost predicate IsRun(c: Config, run: seq<State>, actions: seq<Action>) {
    && |run| == |actions| + 1 && Init(run[0])
    && forall i :: 0 <= i < |actions| ==> Enabled(c, run[i], actions[i]) && run[i + 1] == Apply(c, run[i], actions[i])
  }

  /** A new engine: an empty cache, zero statistics, and any number of threads not calling it. */
  ghost predicate Init(s: State) {
    && s.shared.cache == map[] && s.shared.lock == None && s.shared.stats == Stats(0, 0, 0, 0, 0, 0)
    && s.shared.computed == {} && s.shared.hits == {} && s.shared.expired == {}
    && s.shared.inserted == 0 && s.shared.dropped == 0
    && forall t :: 0 <= t < |s.threads| ==> s.threads[t].Idle?
  }
}

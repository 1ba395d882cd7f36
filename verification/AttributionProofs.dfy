/** What holds of the attribution cache in every state of every execution. */
module AttributionProofs {
  import opened Common
  import opened AttributionCache

  // ---- Capacity ----

  /** Between taking and releasing the insert lock. */
  predicate Critical(pc: Thread) {
    pc.Locked? || pc.Measuring? || pc.Scanning? || pc.Evicting? || pc.Evicted? || pc.Inserting? || pc.Unlocking?
  }

  ghost predicate IsOldest(cache: map<FlowKey, Entry>, key: FlowKey)
    requires key in cache
  {
    forall k :: k in cache ==> cache[key].timestamp <= cache[k].timestamp
  }

  /** No entry of the shards visited so far is older than `oldest`. */
  ghost predicate OldestBelow(c: Config, cache: map<FlowKey, Entry>, shard: nat, oldest: Option<(FlowKey, nat)>) {
    if oldest.None? then Below(c, cache, shard) == {}
    else
      && (oldest.value.0 in cache ==> cache[oldest.value.0].timestamp == oldest.value.1)
      && forall k :: k in Below(c, cache, shard) ==> oldest.value.1 <= cache[k].timestamp
  }

  /** Entries were removed, none was added or changed. */
  ghost predicate OnlyRemoved(cache: map<FlowKey, Entry>, cache': map<FlowKey, Entry>) {
    forall k :: k in cache' ==> k in cache && cache'[k] == cache[k]
  }

  /** What a thread inside the insert lock knows about the cache, whatever others have removed since. */
  ghost predicate Knows(c: Config, cache: map<FlowKey, Entry>, pc: Thread) {
    match pc
    case Measuring(_, _, _, shard, sum) => shard <= c.shards && |Below(c, cache, shard)| <= sum
    case Scanning(_, _, _, shard, oldest) => shard <= c.shards && OldestBelow(c, cache, shard, oldest)
    case Evicting(_, _, _, victim) => victim in cache ==> IsOldest(cache, victim)
    case Inserting(key, _, _) => |cache.Keys + {key}| <= MAX_CACHE_ENTRIES
    case _ => true
  }

  ghost predicate CapacityInv(c: Config, s: State) {
    && |s.shared.cache| <= MAX_CACHE_ENTRIES
    && forall t :: 0 <= t < |s.threads| && Critical(s.threads[t]) ==>
         s.shared.lock == Some(t) && Knows(c, s.shared.cache, s.threads[t])
  }

  /** Removals by others never invalidate what the lock holder knows. */
  lemma KnowsShrinks(c: Config, cache: map<FlowKey, Entry>, cache': map<FlowKey, Entry>, pc: Thread)
    requires OnlyRemoved(cache, cache') && Knows(c, cache, pc)
    ensures Knows(c, cache', pc)
  {
    if pc.Measuring? {
      SubsetSize(Below(c, cache', pc.shard), Below(c, cache, pc.shard));
    } else if pc.Scanning? {
      assert Below(c, cache', pc.shard) <= Below(c, cache, pc.shard);
    } else if pc.Inserting? {
      SubsetSize(cache'.Keys + {pc.key}, cache.Keys + {pc.key});
    }
  }

  lemma BelowNext(c: Config, cache: map<FlowKey, Entry>, i: nat)
    ensures Below(c, cache, i + 1) == Below(c, cache, i) + Shard(c, cache, i)
    ensures |Below(c, cache, i + 1)| == |Below(c, cache, i)| + |Shard(c, cache, i)|
  {
    assert Below(c, cache, i) !! Shard(c, cache, i);
    assert Below(c, cache, i + 1) == Below(c, cache, i) + Shard(c, cache, i);
  }

  /** Only the thread that inserts can add a key. */
  lemma StepShrinks(c: Config, t: nat, g: Shared, pc: Thread)
    requires !pc.Inserting?
    ensures OnlyRemoved(g.cache, Step(c, t, g, pc).0.cache)
    ensures |Step(c, t, g, pc).0.cache| <= |g.cache|
  {
    SubsetSize(Step(c, t, g, pc).0.cache.Keys, g.cache.Keys);
  }

  lemma ActShrinks(c: Config, s: State, a: Action)
    requires Enabled(c, s, a) && !a.Tick? && !(a.Advance? && s.threads[a.t].Inserting?)
    ensures OnlyRemoved(s.shared.cache, Act(c, s, a).0.cache)
    ensures |Act(c, s, a).0.cache| <= |s.shared.cache|
  {
    if a.Advance? {
      StepShrinks(c, a.t, s.shared, s.threads[a.t]);
    } else {
      SubsetSize(Act(c, s, a).0.cache.Keys, s.shared.cache.Keys);
    }
  }

  lemma SizeWithKey(cache: map<FlowKey, Entry>, key: FlowKey)
    ensures |cache.Keys + {key}| <= |cache| + 1
    ensures key in cache ==> |cache.Keys + {key}| == |cache|
  {
    if key in cache {
      assert cache.Keys + {key} == cache.Keys;
    }
  }

  lemma BelowAll(c: Config, cache: map<FlowKey, Entry>)
    requires ValidConfig(c)
    ensures Below(c, cache, c.shards) == cache.Keys && Below(c, cache, 0) == {}
  {
  }

  /** The lock holder's knowledge after its own step: there is room for the key when it goes on to insert. */
  lemma KnowsStep(c: Config, t: nat, g: Shared, pc: Thread)
    requires ValidConfig(c) && |g.cache| <= MAX_CACHE_ENTRIES && Knows(c, g.cache, pc)
    requires pc.Locked? || pc.Measuring? || pc.Scanning?
    ensures Knows(c, Step(c, t, g, pc).0.cache, Step(c, t, g, pc).1)
  {
    if pc.Locked? {
      KnowsLocked(c, t, g, pc);
    } else if pc.Measuring? {
      KnowsMeasured(c, t, g, pc);
    } else {
      KnowsScanned(c, t, g, pc);
    }
  }

  lemma KnowsLocked(c: Config, t: nat, g: Shared, pc: Thread)
    requires ValidConfig(c) && |g.cache| <= MAX_CACHE_ENTRIES && pc.Locked?
    ensures Knows(c, Step(c, t, g, pc).0.cache, Step(c, t, g, pc).1)
  {
    BelowAll(c, g.cache);
    SizeWithKey(g.cache, pc.key);
  }

  lemma KnowsMeasured(c: Config, t: nat, g: Shared, pc: Thread)
    requires ValidConfig(c) && pc.Measuring? && Knows(c, g.cache, pc)
    ensures Knows(c, Step(c, t, g, pc).0.cache, Step(c, t, g, pc).1)
  {
    if pc.shard < c.shards {
      MeasureStep(c, g.cache, pc.shard, pc.sum, pc.shard + 1, pc.sum + |Shard(c, g.cache, pc.shard)|);
    } else {
      BelowAll(c, g.cache);
      SizeWithKey(g.cache, pc.key);
    }
  }

  lemma KnowsScanned(c: Config, t: nat, g: Shared, pc: Thread)
    requires ValidConfig(c) && pc.Scanning? && Knows(c, g.cache, pc)
    ensures Knows(c, Step(c, t, g, pc).0.cache, Step(c, t, g, pc).1)
  {
    BelowAll(c, g.cache);
    SizeWithKey(g.cache, pc.key);
  }

  lemma MeasureStep(c: Config, cache: map<FlowKey, Entry>, shard: nat, sum: nat, shard': nat, sum': nat)
    requires |Below(c, cache, shard)| <= sum
    requires shard' == shard + 1 && sum' == sum + |Shard(c, cache, shard)|
    ensures |Below(c, cache, shard')| <= sum'
  {
    BelowNext(c, cache, shard);
  }

  lemma VisitStep(
    c: Config, cache: map<FlowKey, Entry>,
    shard: nat, oldest: Option<(FlowKey, nat)>, shard': nat, oldest': Option<(FlowKey, nat)>)
    requires shard' == shard + 1 && OldestBelow(c, cache, shard, oldest) && OldestWith(c, cache, shard, oldest, oldest')
    ensures OldestBelow(c, cache, shard', oldest')
  {
    BelowNext(c, cache, shard);
  }

  lemma InsertFits(c: Config, t: nat, g: Shared, pc: Thread)
    requires pc.Inserting? && Knows(c, g.cache, pc)
    ensures |Step(c, t, g, pc).0.cache| <= MAX_CACHE_ENTRIES
  {
    assert Step(c, t, g, pc).0.cache.Keys == g.cache.Keys + {pc.key};
  }

  lemma SizeAct(c: Config, s: State, a: Action)
    requires ValidConfig(c) && CapacityInv(c, s) && Enabled(c, s, a) && !a.Tick?
    ensures |Act(c, s, a).0.cache| <= MAX_CACHE_ENTRIES
  {
    var pc := s.threads[a.t];
    if a.Advance? && pc.Inserting? {
      InsertFits(c, a.t, s.shared, pc);
    } else {
      ActShrinks(c, s, a);
    }
  }

  /** From elsewhere a thread gets only to places of the insert section where there is nothing to know. */
  lemma EntersKnowingNothing(c: Config, t: nat, g: Shared, pc: Thread)
    requires !pc.Locked? && !pc.Measuring? && !pc.Scanning? && Critical(Step(c, t, g, pc).1)
    ensures Step(c, t, g, pc).1.Locked? || Step(c, t, g, pc).1.Evicted? || Step(c, t, g, pc).1.Unlocking?
  {
  }

  lemma KnowsAct(c: Config, s: State, a: Action)
    requires ValidConfig(c) && CapacityInv(c, s) && Enabled(c, s, a) && !a.Tick?
    ensures Critical(Act(c, s, a).1) ==> Knows(c, Act(c, s, a).0.cache, Act(c, s, a).1)
  {
    var pc := s.threads[a.t];
    if a.Advance? && (pc.Locked? || pc.Measuring? || pc.Scanning?) {
      KnowsStep(c, a.t, s.shared, pc);
    } else if a.Advance? && Critical(Act(c, s, a).1) {
      EntersKnowingNothing(c, a.t, s.shared, pc);
    } else if a.Visit? {
      VisitStep(c, s.shared.cache, pc.shard, pc.oldest, pc.shard + 1, a.oldest);
    }
  }

  lemma CapacityAct(c: Config, s: State, a: Action)
    requires ValidConfig(c) && CapacityInv(c, s) && Enabled(c, s, a) && !a.Tick?
    ensures |Act(c, s, a).0.cache| <= MAX_CACHE_ENTRIES
    ensures Critical(Act(c, s, a).1) ==> Knows(c, Act(c, s, a).0.cache, Act(c, s, a).1)
  {
    SizeAct(c, s, a);
    KnowsAct(c, s, a);
  }

  /** Mutual exclusion: the lock is held by the one thread inside. */
  lemma LockStep(c: Config, t: nat, g: Shared, pc: Thread)
    requires Critical(pc) ==> g.lock == Some(t)
    ensures Critical(Step(c, t, g, pc).1) ==> Step(c, t, g, pc).0.lock == Some(t)
    ensures Step(c, t, g, pc).0.lock == g.lock || g.lock == None || Critical(pc)
  {
  }

  lemma LockAct(c: Config, s: State, a: Action)
    requires CapacityInv(c, s) && Enabled(c, s, a) && !a.Tick?
    ensures Critical(Act(c, s, a).1) ==> Act(c, s, a).0.lock == Some(a.t)
    ensures Act(c, s, a).0.lock == s.shared.lock || s.shared.lock == None || Critical(s.threads[a.t])
  {
    if a.Advance? {
      LockStep(c, a.t, s.shared, s.threads[a.t]);
    }
  }

  lemma CapacityStep(c: Config, s: State, a: Action)
    requires ValidConfig(c) && CapacityInv(c, s) && Enabled(c, s, a)
    ensures CapacityInv(c, Apply(c, s, a))
  {
    if !a.Tick? {
      var (g, pc) := Act(c, s, a);
      CapacityAct(c, s, a);
      LockAct(c, s, a);
      forall u | 0 <= u < |s.threads| && u != a.t && Critical(s.threads[u])
        ensures g.lock == Some(u) && Knows(c, g.cache, s.threads[u])
      {
        ActShrinks(c, s, a);
        KnowsShrinks(c, s.shared.cache, g.cache, s.threads[u]);
      }
    }
  }

  // ---- Statistics ----

  /** A request counted as neither hit nor miss yet. */
  function Undecided(pc: Thread): nat {
    if pc.Requested? || pc.Looking? || pc.Found? || pc.Stale? || pc.Removed? || pc.Absent? then 1 else 0
  }

  /** A miss counted as neither success nor failure yet. */
  function Unresolved(pc: Thread): nat {
    if pc.Missed? || pc.Attributed? then 1 else 0
  }

  /** A removed entry not counted as an eviction yet. */
  function Uncounted(pc: Thread): nat {
    if pc.Removed? || pc.Evicted? || pc.Swept? then 1 else 0
  }

  function Sum(f: Thread -> nat, threads: seq<Thread>): nat {
    if threads == [] then 0 else f(threads[0]) + Sum(f, threads[1..])
  }

  lemma {:induction false} SumUpdate(f: Thread -> nat, threads: seq<Thread>, t: nat, pc: Thread)
    requires t < |threads|
    ensures Sum(f, threads[t := pc]) - f(pc) == Sum(f, threads) - f(threads[t])
  {
    if t == 0 {
      assert threads[0 := pc][1..] == threads[1..];
    } else {
      SumUpdate(f, threads[1..], t - 1, pc);
      assert threads[t := pc][1..] == threads[1..][t - 1 := pc];
    }
  }

  lemma {:induction false} SumZero(f: Thread -> nat, threads: seq<Thread>)
    requires forall t :: 0 <= t < |threads| ==> f(threads[t]) == 0
    ensures Sum(f, threads) == 0
  {
    if threads != [] {
      SumZero(f, threads[1..]);
    }
  }

  /** The books balance at every moment, with the calls in flight on the right-hand side. */
  ghost predicate StatsInv(s: State) {
    && s.shared.stats.requests == s.shared.stats.hits + s.shared.stats.misses + Sum(Undecided, s.threads)
    && s.shared.stats.misses == s.shared.stats.successes + s.shared.stats.failures + Sum(Unresolved, s.threads)
    && s.shared.inserted == |s.shared.cache| + s.shared.stats.evictions + s.shared.dropped + Sum(Uncounted, s.threads)
  }

  /** What a step adds to one side of the request and miss accounts it adds to the other. */
  ghost predicate CountsBalanced(g: Shared, pc: Thread, g': Shared, pc': Thread) {
    && g'.stats.requests - g.stats.requests
       == (g'.stats.hits + g'.stats.misses + Undecided(pc')) - (g.stats.hits + g.stats.misses + Undecided(pc))
    && g'.stats.misses - g.stats.misses
       == (g'.stats.successes + g'.stats.failures + Unresolved(pc'))
        - (g.stats.successes + g.stats.failures + Unresolved(pc))
  }

  /** Entries inserted, held, evicted and dropped. */
  function Accounted(g: Shared, pc: Thread): int {
    |g.cache| + g.stats.evictions + g.dropped + Uncounted(pc) - g.inserted
  }

  lemma RemoveSize(cache: map<FlowKey, Entry>, gone: set<FlowKey>)
    requires gone <= cache.Keys
    ensures |cache - gone| == |cache| - |gone|
  {
    assert (cache - gone).Keys == cache.Keys - gone;
    assert |cache.Keys| == |cache| && |(cache - gone).Keys| == |cache - gone|;
  }

  lemma StepCounts(c: Config, t: nat, g: Shared, pc: Thread)
    ensures CountsBalanced(g, pc, Step(c, t, g, pc).0, Step(c, t, g, pc).1)
  {
  }

  lemma StepAccounts(c: Config, t: nat, g: Shared, pc: Thread)
    ensures Accounted(Step(c, t, g, pc).0, Step(c, t, g, pc).1) == Accounted(g, pc)
  {
    if pc.Inserting? {
      InsertAccounts(c, t, g, pc);
    } else if pc.Clearing? {
      ClearAccounts(c, t, g, pc);
    } else if pc.Stale? {
      StaleAccounts(c, t, g, pc);
    } else if pc.Evicting? {
      EvictAccounts(c, t, g, pc);
    } else if pc.Sweeping? {
      SweepAccounts(c, t, g, pc);
    }
  }

  lemma ClearAccounts(c: Config, t: nat, g: Shared, pc: Thread)
    requires pc.Clearing?
    ensures Accounted(Step(c, t, g, pc).0, Step(c, t, g, pc).1) == Accounted(g, pc)
  {
    RemoveSize(g.cache, Shard(c, g.cache, pc.shard));
  }

  lemma StaleAccounts(c: Config, t: nat, g: Shared, pc: Thread)
    requires pc.Stale?
    ensures Accounted(Step(c, t, g, pc).0, Step(c, t, g, pc).1) == Accounted(g, pc)
  {
    InvalidateAccounts(g.cache, pc.key);
  }

  lemma EvictAccounts(c: Config, t: nat, g: Shared, pc: Thread)
    requires pc.Evicting?
    ensures Accounted(Step(c, t, g, pc).0, Step(c, t, g, pc).1) == Accounted(g, pc)
  {
    InvalidateAccounts(g.cache, pc.victim);
  }

  lemma SweepAccounts(c: Config, t: nat, g: Shared, pc: Thread)
    requires pc.Sweeping?
    ensures Accounted(Step(c, t, g, pc).0, Step(c, t, g, pc).1) == Accounted(g, pc)
  {
    if pc.found != [] {
      KeySweepAccounts(g, pc.now, pc.found[0].0, pc.found[0].1, pc.found[1..]);
    }
  }

  lemma KeySweepAccounts(g: Shared, now: nat, key: FlowKey, timestamp: nat, rest: seq<(FlowKey, nat)>)
    ensures var (g', pc') := Sweep(g, now, key, timestamp, rest);
      Accounted(g', pc') == Accounted(g, Sweeping(now, [(key, timestamp)] + rest))
  {
    InvalidateAccounts(g.cache, key);
  }

  lemma InsertAccounts(c: Config, t: nat, g: Shared, pc: Thread)
    requires pc.Inserting?
    ensures Accounted(Step(c, t, g, pc).0, Step(c, t, g, pc).1) == Accounted(g, pc)
  {
    var cache' := g.cache[pc.key := Entry(pc.result, pc.now)];
    assert cache'.Keys == g.cache.Keys + {pc.key};
    assert |cache'.Keys| == |cache'| && |g.cache.Keys| == |g.cache|;
    assert pc.key in g.cache ==> g.cache.Keys + {pc.key} == g.cache.Keys;
  }

  lemma ActCounts(c: Config, s: State, a: Action)
    requires Enabled(c, s, a) && !a.Tick?
    ensures CountsBalanced(s.shared, s.threads[a.t], Act(c, s, a).0, Act(c, s, a).1)
  {
    if a.Advance? {
      StepCounts(c, a.t, s.shared, s.threads[a.t]);
    }
  }

  lemma ActAccounts(c: Config, s: State, a: Action)
    requires Enabled(c, s, a) && !a.Tick?
    ensures Accounted(Act(c, s, a).0, Act(c, s, a).1) == Accounted(s.shared, s.threads[a.t])
  {
    if a.Advance? {
      StepAccounts(c, a.t, s.shared, s.threads[a.t]);
    } else if a.Invalidate? {
      InvalidateAccounts(s.shared.cache, a.key);
    }
  }

  lemma InvalidateAccounts(cache: map<FlowKey, Entry>, key: FlowKey)
    ensures |cache - {key}| == if key in cache then |cache| - 1 else |cache|
  {
    if key in cache {
      RemoveSize(cache, {key});
    } else {
      assert cache - {key} == cache;
    }
  }

  lemma StatsStep(c: Config, s: State, a: Action)
    requires StatsInv(s) && Enabled(c, s, a)
    ensures StatsInv(Apply(c, s, a))
  {
    if !a.Tick? {
      var (g, pc) := Act(c, s, a);
      ActCounts(c, s, a);
      ActAccounts(c, s, a);
      SumUpdate(Undecided, s.threads, a.t, pc);
      SumUpdate(Unresolved, s.threads, a.t, pc);
      SumUpdate(Uncounted, s.threads, a.t, pc);
    }
  }

  // ---- Provenance and freshness ----

  ghost predicate Sound(g: Shared, key: FlowKey, entry: Entry) {
    !entry.attribution.confidence.NoConfidence? && Computed(key, entry.attribution, entry.timestamp) in g.computed
  }

  /** What the locals of a thread hold. */
  ghost predicate LocalsSound(c: Config, g: Shared, pc: Thread) {
    match pc
    case Found(key, now, entry) => Sound(g, key, entry) && !IsExpired(c, now, entry.timestamp)
    case Attributed(key, now, result) => Computed(key, result, now) in g.computed
    case Cleaning(now, _, found) => forall n :: 0 <= n < |found| ==> IsExpired(c, now, found[n].1)
    case Sweeping(now, found) => forall n :: 0 <= n < |found| ==> IsExpired(c, now, found[n].1)
    case Swept(now, found) => forall n :: 0 <= n < |found| ==> IsExpired(c, now, found[n].1)
    case _ => pc.Locking? || (Critical(pc) && !pc.Unlocking?) ==> Sound(g, pc.key, Entry(pc.result, pc.now))
  }

  ghost predicate ProvenanceInv(c: Config, s: State) {
    && CacheSound(s.shared)
    && (forall h :: h in s.shared.hits ==> Sound(s.shared, h.key, h.entry) && !IsExpired(c, h.now, h.entry.timestamp))
    && (forall x :: x in s.shared.expired ==> IsExpired(c, x.now, x.entry.timestamp))
    && forall t :: 0 <= t < |s.threads| ==> LocalsSound(c, s.shared, s.threads[t])
  }

  ghost predicate CacheSound(g: Shared) {
    forall k :: k in g.cache ==> Sound(g, k, g.cache[k])
  }

  predicate IsCleanup(pc: Thread) {
    pc.Cleaning? || pc.Sweeping? || pc.Swept? || pc.Clearing?
  }

  lemma SoundCleanup(c: Config, t: nat, g: Shared, pc: Thread)
    requires LocalsSound(c, g, pc) && IsCleanup(pc)
    ensures LocalsSound(c, Step(c, t, g, pc).0, Step(c, t, g, pc).1)
  {
  }

  lemma SoundInsert(c: Config, t: nat, g: Shared, pc: Thread)
    requires LocalsSound(c, g, pc) && (pc.Attributed? || pc.Locking? || Critical(pc))
    ensures LocalsSound(c, Step(c, t, g, pc).0, Step(c, t, g, pc).1)
  {
  }

  lemma SoundLookup(c: Config, t: nat, g: Shared, pc: Thread)
    requires CacheSound(g) && !IsCleanup(pc) && !pc.Attributed? && !pc.Locking? && !Critical(pc)
    ensures LocalsSound(c, Step(c, t, g, pc).0, Step(c, t, g, pc).1)
  {
  }

  lemma SoundStep(c: Config, t: nat, g: Shared, pc: Thread)
    requires LocalsSound(c, g, pc) && CacheSound(g)
    ensures LocalsSound(c, Step(c, t, g, pc).0, Step(c, t, g, pc).1)
  {
    if IsCleanup(pc) {
      SoundCleanup(c, t, g, pc);
    } else if pc.Attributed? || pc.Locking? || Critical(pc) {
      SoundInsert(c, t, g, pc);
    } else {
      SoundLookup(c, t, g, pc);
    }
  }

  lemma CacheStep(c: Config, t: nat, g: Shared, pc: Thread)
    requires LocalsSound(c, g, pc) && CacheSound(g)
    ensures Step(c, t, g, pc).0.computed == g.computed
    ensures CacheSound(Step(c, t, g, pc).0)
  {
  }

  lemma LogsStep(c: Config, t: nat, g: Shared, pc: Thread)
    requires LocalsSound(c, g, pc) && CacheSound(g)
    ensures forall h :: h in Step(c, t, g, pc).0.hits && h !in g.hits ==>
              Sound(g, h.key, h.entry) && !IsExpired(c, h.now, h.entry.timestamp)
    ensures forall x :: x in Step(c, t, g, pc).0.expired && x !in g.expired ==> IsExpired(c, x.now, x.entry.timestamp)
  {
  }

  /** More computed attributions keep everything sound. */
  lemma LocalsKeep(c: Config, g: Shared, g': Shared, pc: Thread)
    requires LocalsSound(c, g, pc) && g.computed <= g'.computed
    ensures LocalsSound(c, g', pc)
  {
  }

  lemma ProvenanceAct(c: Config, s: State, a: Action)
    requires ProvenanceInv(c, s) && Enabled(c, s, a) && !a.Tick?
    ensures s.shared.computed <= Act(c, s, a).0.computed
    ensures LocalsSound(c, Act(c, s, a).0, Act(c, s, a).1) && CacheSound(Act(c, s, a).0)
  {
    if a.Advance? {
      SoundStep(c, a.t, s.shared, s.threads[a.t]);
      CacheStep(c, a.t, s.shared, s.threads[a.t]);
    }
  }

  lemma ProvenanceStep(c: Config, s: State, a: Action)
    requires ProvenanceInv(c, s) && Enabled(c, s, a)
    ensures ProvenanceInv(c, Apply(c, s, a))
  {
    if !a.Tick? {
      ProvenanceAct(c, s, a);
      if a.Advance? {
        LogsStep(c, a.t, s.shared, s.threads[a.t]);
      }
    }
    var s' := Apply(c, s, a);
    forall u | 0 <= u < |s.threads| && (a.Tick? || u != a.t)
      ensures LocalsSound(c, s'.shared, s.threads[u])
    {
      LocalsKeep(c, s.shared, s'.shared, s.threads[u]);
    }
  }

  // ---- Every execution ----

  ghost predicate Inv(c: Config, s: State) {
    CapacityInv(c, s) && StatsInv(s) && ProvenanceInv(c, s)
  }

  lemma {:induction false} RunInv(c: Config, run: seq<State>, actions: seq<Action>, i: nat)
    requires ValidConfig(c) && IsRun(c, run, actions) && i < |run|
    ensures Inv(c, run[i])
  {
    if i == 0 {
      SumZero(Undecided, run[0].threads);
      SumZero(Unresolved, run[0].threads);
      SumZero(Uncounted, run[0].threads);
    } else {
      RunInv(c, run, actions, i - 1);
      assert run[i - 1 + 1] == Apply(c, run[i - 1], actions[i - 1]);
      CapacityStep(c, run[i - 1], actions[i - 1]);
      StatsStep(c, run[i - 1], actions[i - 1]);
      ProvenanceStep(c, run[i - 1], actions[i - 1]);
    }
  }

  /** The cache never holds more than its maximum, and at most one thread is inside the insert lock. */
  lemma NeverOverCapacity(c: Config, run: seq<State>, actions: seq<Action>, i: nat)
    requires ValidConfig(c) && IsRun(c, run, actions) && i < |run|
    ensures |run[i].shared.cache| <= 10000
    ensures forall t, u | 0 <= t < |run[i].threads| && 0 <= u < |run[i].threads| ::
              Critical(run[i].threads[t]) && Critical(run[i].threads[u]) ==> t == u
  {
    RunInv(c, run, actions, i);
  }

  /**
   An eviction for room removes an entry that no entry in the cache is older than at that moment,
   although the search visited the shards one by one while other threads were removing entries.
   */
  lemma EvictsOldest(c: Config, run: seq<State>, actions: seq<Action>, i: nat, t: nat)
    requires ValidConfig(c) && IsRun(c, run, actions) && i < |actions| && actions[i] == Advance(t)
    requires run[i].threads[t].Evicting? && run[i].threads[t].victim in run[i].shared.cache
    ensures run[i + 1].shared.cache == run[i].shared.cache - {run[i].threads[t].victim}
    ensures IsOldest(run[i].shared.cache, run[i].threads[t].victim)
  {
    RunInv(c, run, actions, i);
    assert Enabled(c, run[i], actions[i]) && run[i + 1] == Apply(c, run[i], actions[i]);
  }

  /** Whenever no call is in flight, the statistics account for every request and every entry. */
  lemma QuiescentStats(c: Config, run: seq<State>, actions: seq<Action>, i: nat)
    requires ValidConfig(c) && IsRun(c, run, actions) && i < |run|
    requires forall t :: 0 <= t < |run[i].threads| ==> run[i].threads[t].Idle?
    ensures var g := run[i].shared;
      && g.stats.requests == g.stats.hits + g.stats.misses
      && g.stats.misses == g.stats.successes + g.stats.failures
      && g.inserted == |g.cache| + g.stats.evictions + g.dropped
  {
    RunInv(c, run, actions, i);
    SumZero(Undecided, run[i].threads);
    SumZero(Unresolved, run[i].threads);
    SumZero(Uncounted, run[i].threads);
  }

  /**
   Every hit returned an attribution of some confidence, computed for the same key by a call
   that had read the clock less than the timeout before the hit did.
   */
  lemma HitsAreFresh(c: Config, run: seq<State>, actions: seq<Action>, i: nat, h: Access)
    requires ValidConfig(c) && IsRun(c, run, actions) && i < |run| && h in run[i].shared.hits
    ensures Computed(h.key, h.entry.attribution, h.entry.timestamp) in run[i].shared.computed
    ensures !h.entry.attribution.confidence.NoConfidence?
    ensures h.now - h.entry.timestamp < c.timeout
  {
    RunInv(c, run, actions, i);
  }

  /**
   An entry removed for its age, by a lookup or by a cleanup, was of age at that call's clock
   reading, even when entries were refreshed between a cleanup's scan and its removals.
   */
  lemma OnlyExpiredRemoved(c: Config, run: seq<State>, actions: seq<Action>, i: nat, x: Access)
    requires ValidConfig(c) && IsRun(c, run, actions) && i < |run| && x in run[i].shared.expired
    ensures Elapsed(x.now, x.entry.timestamp) >= c.timeout
  {
    RunInv(c, run, actions, i);
  }
}

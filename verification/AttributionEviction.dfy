/**
 How often an insertion evicts. The eviction loop checks the length of the cache again after
 each removal, and it reads that length shard by shard with other threads running; still, one
 pass through it always makes the room the insertion needs.
 */
module AttributionEviction {
  import opened Common
  import opened AttributionCache
  import opened AttributionProofs

  /** The entry chosen for eviction is still there, or there is room without it. */
  ghost predicate Aims(cache: map<FlowKey, Entry>, pc: Thread) {
    match pc
    case Scanning(_, _, _, _, oldest) => oldest.Some? ==> oldest.value.0 in cache || |cache| < MAX_CACHE_ENTRIES
    case Evicting(_, _, _, victim) => victim in cache || |cache| < MAX_CACHE_ENTRIES
    case _ => true
  }

  function From(c: Config, cache: map<FlowKey, Entry>, i: nat): set<FlowKey> {
    set k | k in cache && c.shardOf(k) >= i
  }

  /** There is room, and what is left to measure will show it; so no eviction is coming. */
  ghost predicate Room(c: Config, cache: map<FlowKey, Entry>, pc: Thread) {
    match pc
    case Locked(_, _, _) => |cache| < MAX_CACHE_ENTRIES
    case Evicted(_, _, _) => |cache| < MAX_CACHE_ENTRIES
    case Measuring(_, _, _, shard, sum) => sum + |From(c, cache, shard)| < MAX_CACHE_ENTRIES
    case Scanning(_, _, _, _, _) => false
    case Evicting(_, _, _, _) => false
    case _ => true
  }

  // ---- Steps of others ----

  lemma Smaller(cache: map<FlowKey, Entry>, cache': map<FlowKey, Entry>)
    requires OnlyRemoved(cache, cache')
    ensures |cache'| <= |cache| && (forall k :: k in cache && k !in cache' ==> |cache'| < |cache|)
  {
    SubsetSize(cache'.Keys, cache.Keys);
    forall k | k in cache && k !in cache'
      ensures |cache'| < |cache|
    {
      SubsetSize(cache'.Keys, cache.Keys - {k});
    }
  }

  lemma AimsShrinks(cache: map<FlowKey, Entry>, cache': map<FlowKey, Entry>, pc: Thread)
    requires OnlyRemoved(cache, cache') && Aims(cache, pc) && |cache| <= MAX_CACHE_ENTRIES
    ensures Aims(cache', pc)
  {
    Smaller(cache, cache');
  }

  lemma RoomShrinks(c: Config, cache: map<FlowKey, Entry>, cache': map<FlowKey, Entry>, pc: Thread)
    requires OnlyRemoved(cache, cache') && Room(c, cache, pc)
    ensures Room(c, cache', pc)
  {
    Smaller(cache, cache');
    if pc.Measuring? {
      SubsetSize(From(c, cache', pc.shard), From(c, cache, pc.shard));
    }
  }

  // ---- Own steps ----

  lemma AimsAct(c: Config, s: State, a: Action)
    requires Enabled(c, s, a) && !a.Tick? && Aims(s.shared.cache, s.threads[a.t])
    ensures Aims(Act(c, s, a).0.cache, Act(c, s, a).1)
  {
  }

  lemma FromNext(c: Config, cache: map<FlowKey, Entry>, i: nat)
    ensures |From(c, cache, i)| == |From(c, cache, i + 1)| + |Shard(c, cache, i)|
  {
    assert From(c, cache, i + 1) !! Shard(c, cache, i);
    assert From(c, cache, i) == From(c, cache, i + 1) + Shard(c, cache, i);
  }

  lemma MeasuredRoom(c: Config, cache: map<FlowKey, Entry>, shard: nat, sum: nat, shard': nat, sum': nat)
    requires sum + |From(c, cache, shard)| < MAX_CACHE_ENTRIES
    requires shard' == shard + 1 && sum' == sum + |Shard(c, cache, shard)|
    ensures sum' + |From(c, cache, shard')| < MAX_CACHE_ENTRIES
  {
    FromNext(c, cache, shard);
  }

  lemma RoomStep(c: Config, t: nat, g: Shared, pc: Thread)
    requires Critical(pc) && Room(c, g.cache, pc)
    ensures Room(c, Step(c, t, g, pc).0.cache, Step(c, t, g, pc).1)
  {
    if pc.Locked? {
      assert From(c, g.cache, 0) == g.cache.Keys;
    } else if pc.Measuring? && pc.shard < c.shards {
      MeasuredRoom(c, g.cache, pc.shard, pc.sum, pc.shard + 1, pc.sum + |Shard(c, g.cache, pc.shard)|);
    }
  }

  /** The removal, or finding that another thread was faster, leaves room. */
  lemma EvictionMakesRoom(c: Config, t: nat, g: Shared, pc: Thread)
    requires pc.Evicting? && Aims(g.cache, pc) && |g.cache| <= MAX_CACHE_ENTRIES
    ensures Room(c, Step(c, t, g, pc).0.cache, Step(c, t, g, pc).1)
  {
    Smaller(g.cache, g.cache - {pc.victim});
  }

  // ---- Any step ----

  ghost predicate AimsInv(s: State) {
    forall t :: 0 <= t < |s.threads| ==> Aims(s.shared.cache, s.threads[t])
  }

  /** While a thread is in the insert section, no other thread adds an entry. */
  lemma OthersShrink(c: Config, s: State, a: Action, u: nat)
    requires CapacityInv(c, s) && Enabled(c, s, a) && !a.Tick? && u < |s.threads| && u != a.t && Critical(s.threads[u])
    ensures OnlyRemoved(s.shared.cache, Act(c, s, a).0.cache)
  {
    ActShrinks(c, s, a);
  }

  lemma AimsStep(c: Config, s: State, a: Action)
    requires CapacityInv(c, s) && Enabled(c, s, a) && AimsInv(s)
    ensures AimsInv(Apply(c, s, a))
  {
    if !a.Tick? {
      var (g, pc) := Act(c, s, a);
      AimsAct(c, s, a);
      forall u | 0 <= u < |s.threads| && u != a.t && Critical(s.threads[u])
        ensures Aims(g.cache, s.threads[u])
      {
        OthersShrink(c, s, a, u);
        AimsShrinks(s.shared.cache, g.cache, s.threads[u]);
      }
    }
  }

  lemma RoomKept(c: Config, s: State, a: Action, t: nat)
    requires CapacityInv(c, s) && Enabled(c, s, a) && t < |s.threads|
    requires Critical(s.threads[t]) && Room(c, s.shared.cache, s.threads[t])
    ensures Room(c, Apply(c, s, a).shared.cache, Apply(c, s, a).threads[t])
  {
    if !a.Tick? && a.t == t {
      assert a.Advance?;
      RoomStep(c, t, s.shared, s.threads[t]);
    } else if !a.Tick? {
      OthersShrink(c, s, a, t);
      RoomShrinks(c, s.shared.cache, Act(c, s, a).0.cache, s.threads[t]);
    }
  }

  // ---- Every run ----

  lemma {:induction false} RunAims(c: Config, run: seq<State>, actions: seq<Action>, i: nat)
    requires ValidConfig(c) && IsRun(c, run, actions) && i < |run|
    ensures AimsInv(run[i])
  {
    if i > 0 {
      RunAims(c, run, actions, i - 1);
      RunInv(c, run, actions, i - 1);
      assert Enabled(c, run[i - 1], actions[i - 1]) && run[i - 1 + 1] == Apply(c, run[i - 1], actions[i - 1]);
      AimsStep(c, run[i - 1], actions[i - 1]);
    }
  }

  /** Thread `t` tries to evict at step `i` and has not left the insert section by step `j`. */
  ghost predicate SameInsertion(run: seq<State>, actions: seq<Action>, i: nat, j: nat, t: nat) {
    && i < j < |run| && i < |actions| && actions[i] == Advance(t)
    && (forall n :: i <= n <= j ==> t < |run[n].threads| && Critical(run[n].threads[t]))
    && run[i].threads[t].Evicting?
  }

  lemma {:induction false} RoomAfter(c: Config, run: seq<State>, actions: seq<Action>, i: nat, j: nat, t: nat)
    requires ValidConfig(c) && IsRun(c, run, actions) && SameInsertion(run, actions, i, j, t)
    ensures Room(c, run[j].shared.cache, run[j].threads[t])
    decreases j
  {
    var n := j - 1;
    RunInv(c, run, actions, n);
    assert Enabled(c, run[n], actions[n]) && run[n + 1] == Apply(c, run[n], actions[n]);
    if n == i {
      RunAims(c, run, actions, i);
      EvictionMakesRoom(c, t, run[i].shared, run[i].threads[t]);
    } else {
      RoomAfter(c, run, actions, i, n, t);
      RoomKept(c, run[n], actions[n], t);
    }
  }

  /**
   In every run, one insertion goes through the eviction loop at most once: after its one attempt
   it neither looks for an oldest entry nor removes one again before it leaves the insert section.
   */
  lemma EvictsAtMostOnce(c: Config, run: seq<State>, actions: seq<Action>, i: nat, j: nat, t: nat)
    requires ValidConfig(c) && IsRun(c, run, actions) && SameInsertion(run, actions, i, j, t)
    ensures !run[j].threads[t].Scanning? && !run[j].threads[t].Evicting?
  {
    RoomAfter(c, run, actions, i, j, t);
  }

  // ---- Only for want of room ----

  /** In the eviction loop, past the check whether the key is there. */
  predicate Searching(pc: Thread) {
    pc.Measuring? || pc.Scanning? || pc.Evicting?
  }

  /** What the search knows of a cache that held `size` entries when it began. */
  ghost predicate Since(c: Config, cache: map<FlowKey, Entry>, pc: Thread, size: nat) {
    match pc
    case Measuring(_, _, _, shard, sum) => sum + |From(c, cache, shard)| <= size
    case Scanning(_, _, _, _, _) => size >= MAX_CACHE_ENTRIES
    case Evicting(_, _, _, _) => size >= MAX_CACHE_ENTRIES
    case _ => true
  }

  lemma SinceShrinks(c: Config, cache: map<FlowKey, Entry>, cache': map<FlowKey, Entry>, pc: Thread, size: nat)
    requires OnlyRemoved(cache, cache') && Since(c, cache, pc, size)
    ensures Since(c, cache', pc, size)
  {
    if pc.Measuring? {
      SubsetSize(From(c, cache', pc.shard), From(c, cache, pc.shard));
    }
  }

  lemma SinceMeasured(c: Config, cache: map<FlowKey, Entry>, shard: nat, sum: nat, shard': nat, sum': nat, size: nat)
    requires sum + |From(c, cache, shard)| <= size && shard' == shard + 1 && sum' == sum + |Shard(c, cache, shard)|
    ensures sum' + |From(c, cache, shard')| <= size
  {
    FromNext(c, cache, shard);
  }

  lemma SinceAct(c: Config, s: State, a: Action, size: nat)
    requires Enabled(c, s, a) && !a.Tick? && Searching(s.threads[a.t])
    requires Since(c, s.shared.cache, s.threads[a.t], size)
    ensures Since(c, Act(c, s, a).0.cache, Act(c, s, a).1, size)
  {
    var cache, pc := s.shared.cache, s.threads[a.t];
    if pc.Measuring? && pc.shard < c.shards {
      SinceMeasured(c, cache, pc.shard, pc.sum, pc.shard + 1, pc.sum + |Shard(c, cache, pc.shard)|, size);
    }
  }

  lemma SinceKept(c: Config, s: State, a: Action, t: nat, size: nat)
    requires CapacityInv(c, s) && Enabled(c, s, a) && t < |s.threads|
    requires Searching(s.threads[t]) && Since(c, s.shared.cache, s.threads[t], size)
    ensures Since(c, Apply(c, s, a).shared.cache, Apply(c, s, a).threads[t], size)
  {
    if !a.Tick? && a.t == t {
      SinceAct(c, s, a, size);
    } else if !a.Tick? {
      OthersShrink(c, s, a, t);
      SinceShrinks(c, s.shared.cache, Act(c, s, a).0.cache, s.threads[t], size);
    }
  }

  /** A thread gets into the search only from the check that its key is not there. */
  lemma SearchBegins(c: Config, s: State, a: Action, t: nat)
    requires Enabled(c, s, a) && t < |s.threads| && Searching(Apply(c, s, a).threads[t]) && !Searching(s.threads[t])
    ensures s.threads[t].Locked? && s.threads[t].key !in s.shared.cache
    ensures Since(c, Apply(c, s, a).shared.cache, Apply(c, s, a).threads[t], |s.shared.cache|)
  {
    assert From(c, s.shared.cache, 0) == s.shared.cache.Keys;
  }

  /** The search that thread `t` is in at `i` began at `m`, with its key not in the cache. */
  ghost predicate SearchFrom(run: seq<State>, m: nat, i: nat, t: nat) {
    && m < i < |run| && t < |run[m].threads| && run[m].threads[t].Locked?
    && run[m].threads[t].key !in run[m].shared.cache
    && forall n :: m < n <= i ==> t < |run[n].threads| && Searching(run[n].threads[t])
  }

  lemma {:induction false} SearchSince(c: Config, run: seq<State>, actions: seq<Action>, i: nat, t: nat)
    returns (m: nat)
    requires ValidConfig(c) && IsRun(c, run, actions) && i < |run| && t < |run[i].threads|
    requires Searching(run[i].threads[t])
    ensures SearchFrom(run, m, i, t) && Since(c, run[i].shared.cache, run[i].threads[t], |run[m].shared.cache|)
  {
    assert i > 0;
    var n := i - 1;
    RunInv(c, run, actions, n);
    assert Enabled(c, run[n], actions[n]) && run[n + 1] == Apply(c, run[n], actions[n]);
    if Searching(run[n].threads[t]) {
      m := SearchSince(c, run, actions, n, t);
      SinceKept(c, run[n], actions[n], t, |run[m].shared.cache|);
    } else {
      m := n;
      SearchBegins(c, run[n], actions[n], t);
    }
  }

  /**
   In every run, an insertion that evicts had no room: at the moment it began to measure the cache
   was full and did not hold its key.
   */
  lemma EvictsOnlyWhenFull(c: Config, run: seq<State>, actions: seq<Action>, i: nat, t: nat)
    requires ValidConfig(c) && IsRun(c, run, actions) && i < |run| && t < |run[i].threads|
    requires run[i].threads[t].Evicting?
    ensures exists m: nat :: SearchFrom(run, m, i, t) && |run[m].shared.cache| == 10000
  {
    var m := SearchSince(c, run, actions, i, t);
    RunInv(c, run, actions, m);
  }
}

/** The lock-free saturating counter, run by any number of calls at once. */
module SaturatingCounter {
  import opened Common

  function Saturate(x: nat): U64 {
    if x <= 0xFFFF_FFFF_FFFF_FFFF then x else 0xFFFF_FFFF_FFFF_FFFF
  }

  function Sum(s: seq<U64>): nat {
    if s == [] then 0 else Sum(s[..|s| - 1]) + s[|s| - 1]
  }

  // ---- The protocol ----

  datatype Pc = Looping(current: U64) | Returned(value: U64)

  datatype CallState = CallState(amount: U64, pc: Pc)

  datatype Commit = Commit(id: nat, amount: U64, value: U64)

  /** `log` is the history of successful exchanges. */
  datatype State = State(counter: U64, calls: map<nat, CallState>, log: seq<Commit>)

  // Relaxed loads and failed exchanges may observe any earlier value, so `observed` is arbitrary.
  datatype Action =
    | Load(id: nat, amount: U64, observed: U64)
    | Exchange(id: nat)
    | Fail(id: nat, observed: U64)

  predicate IsLooping(s: State, id: nat) {
    id in s.calls && s.calls[id].pc.Looping?
  }

  predicate Enabled(s: State, a: Action) {
    match a
    case Load(id, _, _) => id !in s.calls
    case Exchange(id) => IsLooping(s, id) && s.calls[id].pc.current == s.counter
    case Fail(id, _) => IsLooping(s, id)
  }

  function Next(s: State, a: Action): State
    requires Enabled(s, a)
  {
    match a
    case Load(id, amount, observed) => s.(calls := s.calls[id := CallState(amount, Looping(observed))])
    case Exchange(id) =>
      var c := s.calls[id];
      var next := SaturatingAdd(c.pc.current, c.amount, U64_MAX);
      State(next, s.calls[id := c.(pc := Returned(next))], s.log + [Commit(id, c.amount, next)])
    case Fail(id, observed) => s.(calls := s.calls[id := s.calls[id].(pc := Looping(observed))])
  }

  ghost predicate IsRun(states: seq<State>, actions: seq<Action>) {
    && |states| == |actions| + 1
    && forall i :: 0 <= i < |actions| ==> Enabled(states[i], actions[i]) && states[i + 1] == Next(states[i], actions[i])
  }

  // ---- What every step keeps ----

  function Amounts(log: seq<Commit>): (r: seq<U64>)
    ensures |r| == |log| && forall i :: 0 <= i < |log| ==> r[i] == log[i].amount
  {
    seq(|log|, i requires 0 <= i < |log| => log[i].amount)
  }

  /** A call returned the saturated total up to and including its own amount. */
  ghost predicate Valued(log: seq<Commit>, init: U64, i: nat)
    requires i < |log|
  {
    log[i].value == Saturate(init + Sum(Amounts(log[..i + 1])))
  }

  /** The counter is the saturated total of what was committed, and so was every value returned. */
  ghost predicate Totals(s: State, init: U64) {
    && s.counter == Saturate(init + Sum(Amounts(s.log)))
    && forall i :: 0 <= i < |s.log| ==> Valued(s.log, init, i)
  }

  /** Calls that returned are logged, and only they; no call is logged twice. */
  ghost predicate Accounted(s: State) {
    && (forall i :: 0 <= i < |s.log| ==>
          s.log[i].id in s.calls && s.calls[s.log[i].id] == CallState(s.log[i].amount, Returned(s.log[i].value)))
    && (forall id :: id in s.calls && s.calls[id].pc.Returned? ==> exists i :: 0 <= i < |s.log| && s.log[i].id == id)
    && (forall i, j :: 0 <= i < j < |s.log| ==> s.log[i].id != s.log[j].id)
  }

  lemma AmountsAppend(log: seq<Commit>, c: Commit)
    ensures Sum(Amounts(log + [c])) == Sum(Amounts(log)) + c.amount
  {
    var s := Amounts(log + [c]);
    assert s[..|s| - 1] == Amounts(log);
  }

  lemma KeepsValues(log: seq<Commit>, c: Commit, init: U64)
    requires forall i :: 0 <= i < |log| ==> Valued(log, init, i)
    requires c.value == Saturate(init + Sum(Amounts(log + [c])))
    ensures forall i :: 0 <= i <= |log| ==> Valued(log + [c], init, i)
  {
    forall i | 0 <= i <= |log|
      ensures Valued(log + [c], init, i)
    {
      if i < |log| {
        assert Valued(log, init, i);
        assert (log + [c])[..i + 1] == log[..i + 1];
      } else {
        assert (log + [c])[..i + 1] == log + [c];
      }
    }
  }

  lemma KeepsTotals(s: State, a: Action, init: U64)
    requires Enabled(s, a) && Totals(s, init)
    ensures Totals(Next(s, a), init)
  {
    if a.Exchange? {
      var c := Next(s, a).log[|s.log|];
      AmountsAppend(s.log, c);
      KeepsValues(s.log, c, init);
    }
  }

  lemma ReturnedLogged(s: State, a: Action, id: nat)
    requires Enabled(s, a) && Accounted(s) && id in Next(s, a).calls && Next(s, a).calls[id].pc.Returned?
    ensures exists i :: 0 <= i < |Next(s, a).log| && Next(s, a).log[i].id == id
  {
    var s' := Next(s, a);
    if id in s.calls && s.calls[id].pc.Returned? {
      var i :| 0 <= i < |s.log| && s.log[i].id == id;
      assert s'.log[i].id == id;
    } else {
      assert s'.log[|s.log|].id == id;
    }
  }

  lemma KeepsAccounted(s: State, a: Action)
    requires Enabled(s, a) && Accounted(s)
    ensures Accounted(Next(s, a))
  {
    forall id | id in Next(s, a).calls && Next(s, a).calls[id].pc.Returned?
      ensures exists i :: 0 <= i < |Next(s, a).log| && Next(s, a).log[i].id == id
    {
      ReturnedLogged(s, a, id);
    }
  }

  /** Safety over every run, under any interleaving and any number of failed exchanges. */
  lemma {:induction false} EveryRun(states: seq<State>, actions: seq<Action>, init: U64)
    requires IsRun(states, actions) && states[0] == State(init, map[], [])
    ensures forall i :: 0 <= i < |states| ==> Totals(states[i], init) && Accounted(states[i])
    decreases |actions|
  {
    if actions == [] {
      assert Sum(Amounts([])) == 0;
    } else {
      var n := |actions| - 1;
      EveryRun(states[..n + 1], actions[..n], init);
      assert states[..n + 1][n] == states[n];
      KeepsTotals(states[n], actions[n], init);
      KeepsAccounted(states[n], actions[n]);
      forall i | 0 <= i < |states|
        ensures Totals(states[i], init) && Accounted(states[i])
      {
        assert i <= n ==> states[i] == states[..n + 1][i];
      }
    }
  }

  /** A call adds the amount it was made with. */
  ghost predicate FromCalls(s: State, actions: seq<Action>) {
    forall id :: id in s.calls ==>
      exists i :: 0 <= i < |actions| && IsLoad(actions[i], id, s.calls[id].amount)
  }

  predicate IsLoad(a: Action, id: nat, amount: U64) {
    a.Load? && a.id == id && a.amount == amount
  }

  lemma CallsKept(s: State, a: Action, id: nat)
    requires Enabled(s, a) && id in Next(s, a).calls
    ensures (id in s.calls && Next(s, a).calls[id].amount == s.calls[id].amount)
         || (a.Load? && a.id == id && a.amount == Next(s, a).calls[id].amount)
  {
  }

  /** In every run, what is committed for a call is the amount the call was made with. */
  lemma CommitsOfCalls(states: seq<State>, actions: seq<Action>, init: U64, s: State, n: nat)
    requires Reaches(states, actions, init, s) && n < |s.log|
    ensures exists i :: 0 <= i < |actions| && IsLoad(actions[i], s.log[n].id, s.log[n].amount)
  {
    EveryRun(states, actions, init);
    AmountsOfCalls(states, actions, init);
    assert s.log[n].id in s.calls && s.calls[s.log[n].id].amount == s.log[n].amount;
  }

  lemma {:induction false} AmountsOfCalls(states: seq<State>, actions: seq<Action>, init: U64)
    requires IsRun(states, actions) && states[0] == State(init, map[], [])
    ensures FromCalls(states[|actions|], actions)
    decreases |actions|
  {
    if actions != [] {
      var n := |actions| - 1;
      AmountsOfCalls(states[..n + 1], actions[..n], init);
      OneMoreCall(states[n], actions, n, states[n + 1]);
    }
  }

  lemma OneMoreCall(s: State, actions: seq<Action>, n: nat, s': State)
    requires n + 1 == |actions| && Enabled(s, actions[n]) && s' == Next(s, actions[n]) && FromCalls(s, actions[..n])
    ensures FromCalls(s', actions)
  {
    forall id | id in s'.calls
      ensures exists i :: 0 <= i < |actions| && IsLoad(actions[i], id, s'.calls[id].amount)
    {
      CallsKept(s, actions[n], id);
      if id in s.calls && s'.calls[id].amount == s.calls[id].amount {
        var i :| 0 <= i < n && IsLoad(actions[..n][i], id, s.calls[id].amount);
        assert IsLoad(actions[i], id, s'.calls[id].amount);
      } else {
        assert IsLoad(actions[n], id, s'.calls[id].amount);
      }
    }
  }

  /** A call that has lost the race commits at its next exchange, if nobody is faster again. */
  lemma RetryCommits(s: State, id: nat)
    requires IsLooping(s, id)
    ensures var s1 := Next(s, Fail(id, s.counter));
      && Enabled(s1, Exchange(id))
      && Next(s1, Exchange(id)).counter == Saturate(s.counter + s.calls[id].amount)
      && Next(s1, Exchange(id)).calls[id].pc == Returned(Saturate(s.counter + s.calls[id].amount))
  {
  }

  // ---- Order does not matter ----

  lemma {:induction false} SumRemove(s: seq<U64>, i: nat)
    requires i < |s|
    ensures Sum(s) == s[i] + Sum(s[..i] + s[i + 1..])
  {
    var last := |s| - 1;
    if i == last {
      assert s[..i] + s[i + 1..] == s[..last];
    } else {
      SumRemove(s[..last], i);
      var t := s[..i] + s[i + 1..];
      assert t[..|t| - 1] == s[..last][..i] + s[..last][i + 1..];
    }
  }

  lemma Removed(s: seq<U64>, i: nat)
    requires i < |s|
    ensures multiset(s[..i] + s[i + 1..]) == multiset(s) - multiset{s[i]}
  {
    assert s == s[..i] + [s[i]] + s[i + 1..];
  }

  lemma {:induction false} SumOfMultiset(a: seq<U64>, b: seq<U64>)
    requires multiset(a) == multiset(b)
    ensures Sum(a) == Sum(b)
    decreases |a|
  {
    if a == [] {
      assert |multiset(a)| == |multiset(b)| == 0;
    } else {
      var last := |a| - 1;
      assert a[last] in multiset(b);
      var i :| 0 <= i < |b| && b[i] == a[last];
      var rest := b[..i] + b[i + 1..];
      Removed(a, last);
      Removed(b, i);
      assert a[..last] + a[last + 1..] == a[..last];
      SumRemove(b, i);
      SumOfMultiset(a[..last], rest);
    }
  }

  /** `s` is reached from `init` by calls running side by side. */
  ghost predicate Reaches(states: seq<State>, actions: seq<Action>, init: U64, s: State) {
    IsRun(states, actions) && states[0] == State(init, map[], []) && states[|actions|] == s
  }

  /** Two runs that committed the same amounts end with the same count, whatever the order. */
  lemma OrderIrrelevant(
    states: seq<State>, actions: seq<Action>, s: State,
    states': seq<State>, actions': seq<Action>, s': State, init: U64)
    requires Reaches(states, actions, init, s) && Reaches(states', actions', init, s')
    requires multiset(Amounts(s.log)) == multiset(Amounts(s'.log))
    ensures s.counter == s'.counter
  {
    EveryRun(states, actions, init);
    EveryRun(states', actions', init);
    SumOfMultiset(Amounts(s.log), Amounts(s'.log));
  }

  // ---- The sequential fold ----

  function SaturatingSum(values: seq<U64>): (total: U64)
    ensures total == Saturate(Sum(values))
  {
    if values == [] then 0 else SaturatingAdd(SaturatingSum(values[..|values| - 1]), values[|values| - 1], U64_MAX)
  }

  /** Adding concurrently from zero and folding sequentially give the same total. */
  lemma FoldAgrees(states: seq<State>, actions: seq<Action>, s: State, values: seq<U64>)
    requires Reaches(states, actions, 0, s) && multiset(Amounts(s.log)) == multiset(values)
    ensures s.counter == SaturatingSum(values)
  {
    EveryRun(states, actions, 0);
    SumOfMultiset(Amounts(s.log), values);
  }
}

/** Suppression of repeated connection log lines. */
module DedupModel {
  const MAX_KEYS := 16384
  const WINDOW := 60_000_000_000 // nanoseconds

  /** `now` is the reading behind `elapsed()`, `reset` the later one a cleanup stores. */
  datatype Call = Call(key: string, now: int, reset: int)

  datatype State = State(seen: set<string>, order: seq<string>, lastCleanup: int)

  function Cleaned(s: State, c: Call): State {
    if c.now - s.lastCleanup > WINDOW then State({}, [], c.reset) else s
  }

  function Remember(s: State, key: string): State {
    if |s.seen| >= MAX_KEYS && s.order != [] then
      State(s.seen - {s.order[0]} + {key}, s.order[1..] + [key], s.lastCleanup)
    else
      State(s.seen + {key}, s.order + [key], s.lastCleanup)
  }

  function Next(s: State, c: Call): State {
    var s' := Cleaned(s, c);
    if c.key in s'.seen then s' else Remember(s', c.key)
  }

  function Answers(s: State, calls: seq<Call>): (r: seq<bool>)
    ensures |r| == |calls|
    decreases |calls|
  {
    if calls == [] then []
    else [calls[0].key !in Cleaned(s, calls[0]).seen] + Answers(Next(s, calls[0]), calls[1..])
  }

  function Run(s: State, calls: seq<Call>): State
    decreases |calls|
  {
    if calls == [] then s else Run(Next(s, calls[0]), calls[1..])
  }

  // ---- Reference: remember everything logged in the window ----

  datatype Window = Window(logged: seq<string>, start: int)

  function Last(logged: seq<string>): seq<string> {
    if |logged| <= MAX_KEYS then logged else logged[|logged| - MAX_KEYS..]
  }

  function Opened(w: Window, c: Call): Window {
    if c.now - w.start > WINDOW then Window([], c.reset) else w
  }

  /** A key is suppressed just when it is among the last keys logged in the window. */
  function WindowNext(w: Window, c: Call): Window {
    var w' := Opened(w, c);
    if c.key in Last(w'.logged) then w' else w'.(logged := w'.logged + [c.key])
  }

  function WindowAnswers(w: Window, calls: seq<Call>): seq<bool>
    decreases |calls|
  {
    if calls == [] then []
    else [calls[0].key !in Last(Opened(w, calls[0]).logged)] + WindowAnswers(WindowNext(w, calls[0]), calls[1..])
  }

  function WindowRun(w: Window, calls: seq<Call>): Window
    decreases |calls|
  {
    if calls == [] then w else WindowRun(WindowNext(w, calls[0]), calls[1..])
  }
}

module DedupProofs {
  import opened Common
  import opened DedupModel

  ghost predicate Distinct(s: seq<string>) {
    forall i, j :: 0 <= i < j < |s| ==> s[i] != s[j]
  }

  function Elements(s: seq<string>): set<string> {
    set x | x in s
  }

  lemma {:induction false} DistinctSize(s: seq<string>)
    requires Distinct(s)
    ensures |Elements(s)| == |s|
  {
    if s != [] {
      var rest := s[..|s| - 1];
      DistinctSize(rest);
      assert s == rest + [s[|s| - 1]];
      assert Elements(s) == Elements(rest) + {s[|s| - 1]};
      assert s[|s| - 1] !in rest;
    }
  }

  ghost predicate Valid(s: State) {
    Distinct(s.order) && s.seen == Elements(s.order) && |s.order| <= MAX_KEYS
  }

  ghost predicate Matches(s: State, w: Window) {
    Valid(s) && s.order == Last(w.logged) && s.lastCleanup == w.start
  }

  lemma LastAppend(logged: seq<string>, key: string)
    ensures Last(logged + [key]) == if |logged| >= MAX_KEYS then Last(logged)[1..] + [key] else Last(logged) + [key]
  {
  }

  lemma DropFirst(order: seq<string>, key: string)
    requires Distinct(order) && order != [] && key !in order
    ensures Distinct(order[1..] + [key]) && Elements(order[1..] + [key]) == Elements(order) - {order[0]} + {key}
  {
    assert order == [order[0]] + order[1..];
  }

  lemma AddLast(order: seq<string>, key: string)
    requires Distinct(order) && key !in order
    ensures Distinct(order + [key]) && Elements(order + [key]) == Elements(order) + {key}
  {
  }

  lemma RememberMatches(s: State, w: Window, key: string)
    requires Matches(s, w) && key !in s.seen
    ensures Matches(Remember(s, key), w.(logged := w.logged + [key]))
  {
    DistinctSize(s.order);
    LastAppend(w.logged, key);
    if |s.order| == MAX_KEYS {
      DropFirst(s.order, key);
    } else {
      AddLast(s.order, key);
    }
  }

  lemma StepMatches(s: State, w: Window, c: Call)
    requires Matches(s, w)
    ensures Matches(Cleaned(s, c), Opened(w, c)) && Matches(Next(s, c), WindowNext(w, c))
    ensures c.key in Cleaned(s, c).seen <==> c.key in Last(Opened(w, c).logged)
  {
    var s', w' := Cleaned(s, c), Opened(w, c);
    assert Matches(s', w');
    if c.key !in s'.seen {
      RememberMatches(s', w', c.key);
    }
  }

  lemma NextValid(s: State, c: Call)
    requires Valid(s)
    ensures Valid(Next(s, c))
  {
    StepMatches(s, Window(s.order, s.lastCleanup), c);
  }

  /** The bounded set answers every call as the full log of the window would. */
  lemma {:induction false} RefinesWindow(s: State, w: Window, calls: seq<Call>)
    requires Matches(s, w)
    ensures Answers(s, calls) == WindowAnswers(w, calls)
    decreases |calls|
  {
    if calls != [] {
      StepMatches(s, w, calls[0]);
      RefinesWindow(Next(s, calls[0]), WindowNext(w, calls[0]), calls[1..]);
    }
  }

  /** After every run the set is the queue, and the queue the last keys logged in the window. */
  lemma {:induction false} RunMatches(s: State, w: Window, calls: seq<Call>)
    requires Matches(s, w)
    ensures Matches(Run(s, calls), WindowRun(w, calls))
    decreases |calls|
  {
    if calls != [] {
      StepMatches(s, w, calls[0]);
      RunMatches(Next(s, calls[0]), WindowNext(w, calls[0]), calls[1..]);
    }
  }

  /** No key is logged again before as many others were. */
  ghost predicate Spaced(logged: seq<string>) {
    forall i, j :: 0 <= i < j < |logged| && j - i <= MAX_KEYS ==> logged[i] != logged[j]
  }

  lemma SpacedNext(w: Window, c: Call)
    requires Spaced(w.logged)
    ensures Spaced(WindowNext(w, c).logged)
  {
    var logged := Opened(w, c).logged;
    if c.key !in Last(logged) {
      forall i | 0 <= i < |logged| && |logged| - i <= MAX_KEYS
        ensures logged[i] != c.key
      {
        assert logged[i] in Last(logged) by {
          if |logged| > MAX_KEYS {
            assert Last(logged)[i - (|logged| - MAX_KEYS)] == logged[i];
          }
        }
      }
    }
  }

  lemma {:induction false} AlwaysSpaced(w: Window, calls: seq<Call>)
    requires Spaced(w.logged)
    ensures Spaced(WindowRun(w, calls).logged)
    decreases |calls|
  {
    if calls != [] {
      SpacedNext(w, calls[0]);
      AlwaysSpaced(WindowNext(w, calls[0]), calls[1..]);
    }
  }

  /** Two loggings of one key in a window have a full set of distinct other keys between them. */
  lemma RepeatsFarApart(start: int, calls: seq<Call>, i: nat, j: nat)
    requires i < j < |WindowRun(Window([], start), calls).logged|
    requires WindowRun(Window([], start), calls).logged[i] == WindowRun(Window([], start), calls).logged[j]
    ensures
      var logged := WindowRun(Window([], start), calls).logged;
      && i + MAX_KEYS < j
      && |Elements(logged[i + 1..i + 1 + MAX_KEYS])| == MAX_KEYS
      && logged[i] !in logged[i + 1..i + 1 + MAX_KEYS]
  {
    AlwaysSpaced(Window([], start), calls);
    var logged := WindowRun(Window([], start), calls).logged;
    var between := logged[i + 1..i + 1 + MAX_KEYS];
    assert forall x :: 0 <= x < |between| ==> between[x] == logged[i + 1 + x];
    DistinctSize(between);
  }

  /** A call more than a minute after the last reset starts over and is logged; no other call starts over. */
  lemma WindowExactly(s: State, c: Call)
    ensures c.now - s.lastCleanup > 60_000_000_000 ==>
              Answers(s, [c]) == [true] && Next(s, c) == State({c.key}, [c.key], c.reset)
    ensures c.now - s.lastCleanup <= 60_000_000_000 ==>
              Answers(s, [c]) == [c.key !in s.seen] && Next(s, c).lastCleanup == s.lastCleanup
  {
    assert [c][1..] == [] && Answers(Next(s, c), []) == [];
  }

  // ---- The answers in a run ----

  lemma {:induction false} WindowRunNext(w: Window, calls: seq<Call>, x: nat)
    requires x < |calls|
    ensures WindowRun(w, calls[..x + 1]) == WindowNext(WindowRun(w, calls[..x]), calls[x])
    decreases x
  {
    if x == 0 {
      assert calls[..1][1..] == [] && calls[..1][0] == calls[0];
    } else {
      WindowRunNext(WindowNext(w, calls[0]), calls[1..], x - 1);
      assert calls[..x + 1][1..] == calls[1..][..x] && calls[..x][1..] == calls[1..][..x - 1];
    }
  }

  lemma {:induction false} AnswerAt(s: State, calls: seq<Call>, x: nat)
    requires x < |calls|
    ensures Answers(s, calls)[x] <==> calls[x].key !in Cleaned(Run(s, calls[..x]), calls[x]).seen
    decreases x
  {
    if x > 0 {
      AnswerAt(Next(s, calls[0]), calls[1..], x - 1);
      assert calls[..x][1..] == calls[1..][..x - 1] && calls[..x][0] == calls[0];
      assert Answers(s, calls)[x] == Answers(Next(s, calls[0]), calls[1..])[x - 1];
    }
  }

  /** The object before call `x` of a run. */
  function StateAt(start: int, calls: seq<Call>, x: nat): State
    requires x <= |calls|
  {
    Run(State({}, [], start), calls[..x])
  }

  /** No call after `i`, up to `j`, opens a new window. */
  ghost predicate SameWindow(start: int, calls: seq<Call>, i: nat, j: nat)
    requires j < |calls|
  {
    forall x :: i < x <= j ==> calls[x].now - StateAt(start, calls, x).lastCleanup <= WINDOW
  }

  /** The keys logged by the calls strictly between `i` and `j`. */
  function LoggedBetween(s: State, calls: seq<Call>, i: nat, j: nat): set<string>
    requires j <= |calls|
  {
    set x | i < x < j && Answers(s, calls)[x] :: calls[x].key
  }

  /** The reference before that call. */
  function WindowAt(start: int, calls: seq<Call>, x: nat): Window
    requires x <= |calls|
  {
    WindowRun(Window([], start), calls[..x])
  }

  /** Call `x` of a run, as one step. */
  lemma CallAt(start: int, calls: seq<Call>, x: nat, s: State, w: Window)
    requires x < |calls| && s == StateAt(start, calls, x) && w == WindowAt(start, calls, x)
    ensures Matches(s, w) && WindowAt(start, calls, x + 1) == WindowNext(w, calls[x])
    ensures Answers(State({}, [], start), calls)[x] <==> calls[x].key !in Cleaned(s, calls[x]).seen
  {
    RunMatches(State({}, [], start), Window([], start), calls[..x]);
    WindowRunNext(Window([], start), calls, x);
    AnswerAt(State({}, [], start), calls, x);
  }

  lemma StepLogs(s: State, w: Window, c: Call)
    requires Matches(s, w)
    ensures c.key !in Cleaned(s, c).seen ==> WindowNext(w, c).logged == Opened(w, c).logged + [c.key]
    ensures c.key in Cleaned(s, c).seen ==> WindowNext(w, c).logged == Opened(w, c).logged
    ensures c.key !in Cleaned(s, c).seen <==> c.key !in Last(Opened(w, c).logged)
    ensures c.now - s.lastCleanup <= WINDOW ==> Opened(w, c) == w
  {
    StepMatches(s, w, c);
  }

  /** A call that opens no window is logged just when it lengthens the log, by its key. */
  lemma LogGrows(start: int, calls: seq<Call>, x: nat)
    requires x < |calls| && calls[x].now - StateAt(start, calls, x).lastCleanup <= WINDOW
    ensures WindowAt(start, calls, x + 1).logged
         == WindowAt(start, calls, x).logged + if Answers(State({}, [], start), calls)[x] then [calls[x].key] else []
    ensures Answers(State({}, [], start), calls)[x] <==> calls[x].key !in Last(WindowAt(start, calls, x).logged)
  {
    var s, w := StateAt(start, calls, x), WindowAt(start, calls, x);
    CallAt(start, calls, x, s, w);
    StepLogs(s, w, calls[x]);
  }

  lemma LoggedLast(start: int, calls: seq<Call>, i: nat)
    requires i < |calls| && Answers(State({}, [], start), calls)[i]
    ensures var logged := WindowAt(start, calls, i + 1).logged; logged != [] && logged[|logged| - 1] == calls[i].key
  {
    var s, w := StateAt(start, calls, i), WindowAt(start, calls, i);
    CallAt(start, calls, i, s, w);
    StepLogs(s, w, calls[i]);
  }

  lemma BetweenGrows(s: State, calls: seq<Call>, i: nat, x: nat, n: nat)
    requires i < x && n == x + 1 <= |calls|
    ensures LoggedBetween(s, calls, i, x) <= LoggedBetween(s, calls, i, n)
    ensures Answers(s, calls)[x] ==> calls[x].key in LoggedBetween(s, calls, i, n)
  {
  }

  lemma LoggedOneMore(start: int, calls: seq<Call>, i: nat, x: nat, n: nat, before: seq<string>)
    returns (more: seq<string>)
    requires i < x && n == x + 1 <= |calls| && calls[x].now - StateAt(start, calls, x).lastCleanup <= WINDOW
    requires WindowAt(start, calls, x).logged == WindowAt(start, calls, i + 1).logged + before
    requires Elements(before) <= LoggedBetween(State({}, [], start), calls, i, x)
    ensures WindowAt(start, calls, n).logged == WindowAt(start, calls, i + 1).logged + more
    ensures Elements(more) <= LoggedBetween(State({}, [], start), calls, i, n)
  {
    LogGrows(start, calls, x);
    BetweenGrows(State({}, [], start), calls, i, x, n);
    if Answers(State({}, [], start), calls)[x] {
      more := before + [calls[x].key];
      assert Elements(more) == Elements(before) + {calls[x].key};
    } else {
      more := before;
    }
  }

  lemma {:induction false} LoggedSince(start: int, calls: seq<Call>, i: nat, j: nat, n: nat) returns (more: seq<string>)
    requires i < n <= j < |calls| && SameWindow(start, calls, i, j)
    ensures WindowAt(start, calls, n).logged == WindowAt(start, calls, i + 1).logged + more
    ensures Elements(more) <= LoggedBetween(State({}, [], start), calls, i, n)
    decreases n
  {
    if n == i + 1 {
      more := [];
    } else {
      var x := n - 1;
      var before := LoggedSince(start, calls, i, j, x);
      more := LoggedOneMore(start, calls, i, x, n, before);
    }
  }

  lemma StillRemembered(base: seq<string>, more: seq<string>, key: string)
    requires base != [] && base[|base| - 1] == key && |more| < MAX_KEYS
    ensures key in Last(base + more)
  {
    var all, p := base + more, |base| - 1;
    var q := if |all| <= MAX_KEYS then p else p - (|all| - MAX_KEYS);
    assert all[p] == key && Last(all)[q] == key;
  }

  lemma TailOfMore(base: seq<string>, more: seq<string>, key: string)
    requires base != [] && base[|base| - 1] == key && key !in Last(base + more)
    ensures |more| >= MAX_KEYS && Last(base + more) == more[|more| - MAX_KEYS..]
  {
    if |more| < MAX_KEYS {
      StillRemembered(base, more, key);
    }
  }

  /**
   Two calls of one window that are both logged with the same key have as many distinct other
   keys logged between them as are remembered.
   */
  lemma LoggedAgainFarApart(start: int, calls: seq<Call>, i: nat, j: nat)
    requires i < j < |calls| && SameWindow(start, calls, i, j) && calls[i].key == calls[j].key
    requires Answers(State({}, [], start), calls)[i] && Answers(State({}, [], start), calls)[j]
    ensures |LoggedBetween(State({}, [], start), calls, i, j) - {calls[i].key}| >= MAX_KEYS
  {
    var s, key := State({}, [], start), calls[i].key;
    var base, all := WindowAt(start, calls, i + 1).logged, WindowAt(start, calls, j).logged;
    var more := LoggedSince(start, calls, i, j, j);
    LoggedLast(start, calls, i);
    LogGrows(start, calls, j);
    TailOfMore(base, more, key);
    var tail := Last(all);
    AlwaysSpaced(Window([], start), calls[..j]);
    LastDistinct(all);
    DistinctSize(tail);
    assert Elements(tail) <= Elements(more);
    SubsetSize(Elements(tail), LoggedBetween(s, calls, i, j) - {key});
  }

  lemma LastDistinct(logged: seq<string>)
    requires Spaced(logged)
    ensures Distinct(Last(logged))
  {
  }

  // ---- One window with few keys ----

  function Keys(calls: seq<Call>): set<string> {
    set c | c in calls :: c.key
  }

  ghost predicate InWindow(start: int, calls: seq<Call>) {
    forall i :: 0 <= i < |calls| ==> calls[i].now - start <= WINDOW
  }

  /** The answer an unbounded set would give: is this the first call with its key? */
  function FirstTimes(before: set<string>, calls: seq<Call>): seq<bool>
    decreases |calls|
  {
    if calls == [] then []
    else [calls[0].key !in before] + FirstTimes(before + {calls[0].key}, calls[1..])
  }

  lemma LoggedKeys(w: Window, c: Call)
    requires c.now - w.start <= WINDOW && |w.logged| <= MAX_KEYS
    ensures Elements(WindowNext(w, c).logged) == Elements(w.logged) + {c.key}
    ensures WindowNext(w, c).start == w.start && |WindowNext(w, c).logged| <= |w.logged| + 1
  {
  }

  lemma FirstKey(calls: seq<Call>, known: set<string>)
    requires calls != []
    ensures known + {calls[0].key} + Keys(calls[1..]) == known + Keys(calls)
  {
    assert Keys(calls) == {calls[0].key} + Keys(calls[1..]);
  }

  lemma {:induction false} FewKeys(w: Window, calls: seq<Call>)
    requires Spaced(w.logged) && |w.logged| <= MAX_KEYS && InWindow(w.start, calls)
    requires |Elements(w.logged) + Keys(calls)| <= MAX_KEYS
    ensures WindowAnswers(w, calls) == FirstTimes(Elements(w.logged), calls)
    decreases |calls|
  {
    if calls != [] {
      var w' := WindowNext(w, calls[0]);
      LoggedKeys(w, calls[0]);
      SpacedNext(w, calls[0]);
      FirstKey(calls, Elements(w.logged));
      FewKeysRoom(w, w', Keys(calls[1..]));
      FewKeys(w', calls[1..]);
    }
  }

  lemma FewKeysRoom(w: Window, w': Window, later: set<string>)
    requires Spaced(w'.logged) && |w.logged| <= MAX_KEYS && |w'.logged| <= |w.logged| + 1
    requires |Elements(w'.logged) + later| <= MAX_KEYS
    ensures |w'.logged| <= MAX_KEYS
  {
    DistinctSize(w'.logged);
    SubsetSize(Elements(w'.logged), Elements(w'.logged) + later);
  }

  /** Within one window of at most that many keys, each key is logged exactly the first time. */
  lemma OncePerWindow(start: int, calls: seq<Call>)
    requires InWindow(start, calls) && |Keys(calls)| <= MAX_KEYS
    ensures Answers(State({}, [], start), calls) == FirstTimes({}, calls)
  {
    RefinesWindow(State({}, [], start), Window([], start), calls);
    assert Elements([]) + Keys(calls) == Keys(calls) && Elements([]) == {};
    FewKeys(Window([], start), calls);
  }

  // ---- More keys than are remembered ----

  function AtOnce(ks: seq<string>, start: int): (r: seq<Call>)
    ensures |r| == |ks| && forall i :: 0 <= i < |r| ==> r[i] == Call(ks[i], start, start)
  {
    seq(|ks|, i requires 0 <= i < |ks| => Call(ks[i], start, start))
  }

  lemma LastOfFresh(logged: seq<string>, key: string)
    requires key !in logged
    ensures key !in Last(logged)
  {
  }

  lemma AtOnceStep(ks: seq<string>, start: int, c: Call)
    requires ks != []
    ensures (AtOnce(ks, start) + [c])[0] == Call(ks[0], start, start)
    ensures (AtOnce(ks, start) + [c])[1..] == AtOnce(ks[1..], start) + [c]
  {
  }

  lemma SameHead(x: bool, a: seq<bool>, b: seq<bool>)
    requires a != b
    ensures [x] + a != [x] + b
  {
    assert ([x] + a)[1..] == a && ([x] + b)[1..] == b;
  }

  /** A first call with a key is answered alike, and leaves the question to the calls after it. */
  lemma WindowStep(w: Window, w': Window, calls: seq<Call>, rest: seq<Call>)
    requires calls != [] && rest == calls[1..] && calls[0].now == w.start && calls[0].key !in w.logged
    requires w' == w.(logged := w.logged + [calls[0].key])
    ensures WindowAnswers(w, calls) == [true] + WindowAnswers(w', rest)
  {
    LastOfFresh(w.logged, calls[0].key);
  }

  lemma FirstTimesStep(before: set<string>, after: set<string>, calls: seq<Call>, rest: seq<Call>)
    requires calls != [] && rest == calls[1..] && calls[0].key !in before && after == before + {calls[0].key}
    ensures FirstTimes(before, calls) == [true] + FirstTimes(after, rest)
  {
  }

  lemma FirstCall(w: Window, w': Window, calls: seq<Call>, rest: seq<Call>)
    requires calls != [] && rest == calls[1..] && calls[0].now == w.start && calls[0].key !in w.logged
    requires w' == w.(logged := w.logged + [calls[0].key])
    requires WindowAnswers(w', rest) != FirstTimes(Elements(w'.logged), rest)
    ensures WindowAnswers(w, calls) != FirstTimes(Elements(w.logged), calls)
  {
    var a, b := WindowAnswers(w', rest), FirstTimes(Elements(w'.logged), rest);
    assert WindowAnswers(w, calls) == [true] + a by {
      WindowStep(w, w', calls, rest);
    }
    assert FirstTimes(Elements(w.logged), calls) == [true] + b by {
      assert Elements(w'.logged) == Elements(w.logged) + {calls[0].key};
      FirstTimesStep(Elements(w.logged), Elements(w'.logged), calls, rest);
    }
    SameHead(true, a, b);
  }

  lemma MoveFirst(logged: seq<string>, ks: seq<string>)
    requires Distinct(ks) && ks != [] && Elements(ks) !! Elements(logged)
    ensures ks[0] !in logged && (logged + [ks[0]]) + ks[1..] == logged + ks
    ensures Distinct(ks[1..]) && Elements(ks[1..]) !! Elements(logged + [ks[0]])
  {
    assert ks[0] in Elements(ks);
    assert Elements(logged + [ks[0]]) == Elements(logged) + {ks[0]};
  }

  lemma {:induction false} LoggedTwice(w: Window, ks: seq<string>, c: Call)
    requires Distinct(ks) && Elements(ks) !! Elements(w.logged) && c.now == w.start
    requires c.key in w.logged + ks && c.key !in Last(w.logged + ks)
    ensures WindowAnswers(w, AtOnce(ks, w.start) + [c]) != FirstTimes(Elements(w.logged), AtOnce(ks, w.start) + [c])
    decreases |ks|
  {
    if ks == [] {
      assert w.logged + ks == w.logged && AtOnce(ks, w.start) + [c] == [c];
      Repeated(w, c);
    } else {
      var w' := w.(logged := w.logged + [ks[0]]);
      MoveFirst(w.logged, ks);
      LoggedTwice(w', ks[1..], c);
      AtOnceStep(ks, w.start, c);
      FirstCall(w, w', AtOnce(ks, w.start) + [c], AtOnce(ks[1..], w.start) + [c]);
    }
  }

  lemma Repeated(w: Window, c: Call)
    requires c.now == w.start && c.key in w.logged && c.key !in Last(w.logged)
    ensures WindowAnswers(w, [c]) != FirstTimes(Elements(w.logged), [c])
  {
    assert WindowAnswers(w, [c])[0] && !FirstTimes(Elements(w.logged), [c])[0];
  }

  lemma {:induction false} Pick(keys: set<string>, n: nat) returns (ks: seq<string>)
    requires n <= |keys|
    ensures |ks| == n && Distinct(ks) && Elements(ks) <= keys
  {
    if n == 0 {
      ks := [];
    } else {
      var x :| x in keys;
      var rest := Pick(keys - {x}, n - 1);
      ks := [x] + rest;
      assert x !in Elements(rest);
    }
  }

  lemma KeysAtOnce(ks: seq<string>, start: int, c: Call)
    ensures Keys(AtOnce(ks, start) + [c]) <= Elements(ks) + {c.key}
  {
    assert forall x :: x in AtOnce(ks, start) ==> x.key in ks;
  }

  lemma ManyKeys(keys: set<string>, start: int) returns (calls: seq<Call>)
    requires |keys| > MAX_KEYS
    ensures InWindow(start, calls) && Keys(calls) <= keys
    ensures Answers(State({}, [], start), calls) != FirstTimes({}, calls)
  {
    var ks := Pick(keys, MAX_KEYS + 1);
    var c := Call(ks[0], start, start);
    calls := AtOnce(ks, start) + [c];
    KeysAtOnce(ks, start, c);
    assert [] + ks == ks && Last(ks) == ks[1..];
    assert Elements([]) == {} && ks[0] in Elements(ks);
    LoggedTwice(Window([], start), ks, c);
    RefinesWindow(State({}, [], start), Window([], start), calls);
  }

  /** Over a set of keys, all calls of a window are logged once per key just when the keys can all be remembered. */
  lemma OnceIffFew(keys: set<string>, start: int)
    ensures (forall calls :: InWindow(start, calls) && Keys(calls) <= keys ==>
               Answers(State({}, [], start), calls) == FirstTimes({}, calls))
        <==> |keys| <= 16384
  {
    if |keys| > MAX_KEYS {
      var calls := ManyKeys(keys, start);
    } else {
      forall calls | InWindow(start, calls) && Keys(calls) <= keys
        ensures Answers(State({}, [], start), calls) == FirstTimes({}, calls)
      {
        SubsetSize(Keys(calls), keys);
        OncePerWindow(start, calls);
      }
    }
  }
}

module ConnectionDedups {
  import opened DedupModel
  import opened DedupProofs

  class ConnectionDedup {
    var seen: set<string>
    var order: seq<string>
    var lastCleanup: int

    function Contents(): State
      reads this
    {
      State(seen, order, lastCleanup)
    }

    constructor (now: int)
      ensures DedupProofs.Valid(Contents()) && Matches(Contents(), Window([], now))
    {
      seen, order, lastCleanup := {}, [], now;
    }

    method ShouldLog(key: string, now: int, reset: int) returns (logs: bool)
      requires DedupProofs.Valid(Contents())
      modifies this
      ensures DedupProofs.Valid(Contents()) && Contents() == Next(old(Contents()), Call(key, now, reset))
      ensures logs <==> key !in Cleaned(old(Contents()), Call(key, now, reset)).seen
    {
      NextValid(Contents(), Call(key, now, reset));
      if now - lastCleanup > WINDOW {
        seen := {};
        order := [];
        lastCleanup := reset;
      }
      if key in seen {
        return false;
      }
      if |seen| >= MAX_KEYS && order != [] {
        var evicted := order[0];
        order := order[1..];
        seen := seen - {evicted};
      }
      seen := seen + {key};
      order := order + [key];
      logs := true;
    }
  }
}

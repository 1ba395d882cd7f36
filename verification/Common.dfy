/** Result types and substring search shared by the other modules. */
module Common {
  const U64_MAX: nat := 0xFFFF_FFFF_FFFF_FFFF

  type U64 = x: nat | x <= U64_MAX

  /** `saturating_add` of a type whose largest value is `max`. */
  function SaturatingAdd(a: nat, b: nat, max: nat): (r: nat)
    ensures r <= max
  {
    if a + b <= max then a + b else max
  }

  /** `Instant::duration_since`, which saturates at zero. */
  function Elapsed(now: nat, since: nat): nat {
    if since <= now then now - since else 0
  }

  type Byte = x: int | 0 <= x < 256

  datatype Option<+T> = None | Some(value: T)

  datatype Result<+T, +E> = Ok(value: T) | Err(error: E) {
    predicate IsFailure() {
      Err?
    }

    function PropagateFailure<U>(): Result<U, E>
      requires Err?
    {
      Err(error)
    }

    function Extract(): T
      requires Ok?
    {
      value
    }
  }

  /** Pattern `p` occurs in `s` at index `i`. */
  predicate At(s: string, p: string, i: nat)
    ensures At(s, p, i) ==> i + |p| <= |s|
    decreases |s| - i
  {
    if p == "" then i <= |s|
    else i < |s| && s[i] == p[0] && At(s, p[1..], i + 1)
  }

  lemma {:induction false} AtIs(s: string, p: string, i: nat)
    ensures At(s, p, i) <==> i + |p| <= |s| && s[i..i + |p|] == p
    decreases |s| - i
  {
    if p != "" && i < |s| {
      AtIs(s, p[1..], i + 1);
      if i + |p| <= |s| {
        assert s[i..i + |p|] == [s[i]] + s[i + 1..i + |p|];
        assert p == [p[0]] + p[1..];
      }
    }
  }

  /** `str::find` on the text from `from` on: the first index at which `p` occurs there. */
  function Find(s: string, p: string, from: nat): (r: Option<nat>)
    ensures r.Some? ==> from <= r.value && At(s, p, r.value)
    decreases |s| - from
  {
    if At(s, p, from) then Some(from)
    else if |s| <= from then None
    else Find(s, p, from + 1)
  }

  /** There is no occurrence before the one found, and none at all if none is found. */
  lemma {:induction false} FindFirst(s: string, p: string, from: nat)
    ensures forall i: nat :: from <= i && At(s, p, i) ==> Find(s, p, from).Some? && Find(s, p, from).value <= i
    decreases |s| - from
  {
    if from < |s| {
      FindFirst(s, p, from + 1);
    }
  }

  lemma FindIs(s: string, p: string, from: nat, k: nat)
    requires from <= k && At(s, p, k)
    requires forall i: nat :: from <= i < k ==> !At(s, p, i)
    ensures Find(s, p, from) == Some(k)
  {
    FindFirst(s, p, from);
  }

  /** Text in which `p` does not start is skipped by the search. */
  lemma FindSkip(s: string, p: string, from: nat, to: nat)
    requires from <= to
    requires forall i: nat :: from <= i < to ==> !At(s, p, i)
    ensures Find(s, p, from) == Find(s, p, to)
  {
    FindFirst(s, p, from);
    FindFirst(s, p, to);
  }

  /** `s` from `a` on and `t` from `b` on are the same text. */
  ghost predicate Agree(s: string, a: nat, t: string, b: nat) {
    && a <= |s| && b <= |t| && |s| - a == |t| - b
    && forall i :: a <= i < |s| ==> s[i] == t[i - a + b]
  }

  lemma AgreeTrans(s: string, a: nat, t: string, b: nat, b': nat, u: string, c': nat, c: nat)
    requires Agree(s, a, t, b) && Agree(t, b', u, c') && b' <= b && c == c' + (b - b')
    ensures Agree(s, a, u, c)
  {
    forall i | a <= i < |s|
      ensures s[i] == u[i - a + c]
    {
      assert s[i] == t[i - a + b] == u[(i - a + b) - b' + c'];
    }
  }

  lemma SliceAgree(s: string, a: nat, t: string, b: nat, i: nat, i': nat, j: nat, j': nat)
    requires Agree(s, a, t, b)
    requires a <= i <= i' <= |s| && b <= j && i - a == j - b && i' - i == j' - j
    ensures j <= j' <= |t| && s[i..i'] == t[j..j']
  {
    forall n | 0 <= n < i' - i
      ensures s[i..i'][n] == t[j..j'][n]
    {
      assert s[i + n] == t[(i + n) - a + b];
    }
  }

  /** The same index, or the same absence of one, relative to two origins. */
  ghost predicate SameIndex(r: Option<nat>, a: nat, q: Option<nat>, b: nat) {
    r.Some? == q.Some? && (r.Some? ==> r.value - a == q.value - b)
  }

  lemma AtAgree(s: string, a: nat, t: string, b: nat, p: string, i: nat, j: nat)
    requires Agree(s, a, t, b) && a <= i && b <= j && i - a == j - b
    ensures At(s, p, i) == At(t, p, j)
  {
    AtIs(s, p, i);
    AtIs(t, p, j);
    if i + |p| <= |s| {
      SliceAgree(s, a, t, b, i, i + |p|, j, j + |p|);
    }
  }

  /** What a search finds does not depend on the text before its start. */
  lemma FindAgree(s: string, a: nat, t: string, b: nat, p: string, i: nat, j: nat)
    requires Agree(s, a, t, b) && a <= i && b <= j && i - a == j - b
    ensures SameIndex(Find(s, p, i), a, Find(t, p, j), b)
  {
    FindFirst(s, p, i);
    FindFirst(t, p, j);
    var r, q := Find(s, p, i), Find(t, p, j);
    if r.Some? {
      AtAgree(s, a, t, b, p, r.value, r.value - a + b);
    }
    if q.Some? {
      AtAgree(s, a, t, b, p, q.value - b + a, q.value);
    }
  }

  /** `str::replace`: every non-overlapping occurrence of `p`, left to right. */
  function ReplaceAll(s: string, p: string, to: string): string
    requires p != ""
  {
    if |s| < |p| then s
    else if p <= s then to + ReplaceAll(s[|p|..], p, to)
    else [s[0]] + ReplaceAll(s[1..], p, to)
  }

  /** `char::is_control`: the Unicode general category Cc. */
  predicate IsControl(c: char) {
    c <= '\U{1F}' || '\U{7F}' <= c <= '\U{9F}'
  }

  lemma SubsetSize<T>(a: set<T>, b: set<T>)
    requires a <= b
    ensures |a| <= |b|
  {
    assert b == a + (b - a);
  }
}

/** Directory listings: what a listing holds, and the order it comes in. */
module VfsListing {
  import opened Common
  import opened VfsPaths
  import opened VfsTree

  datatype Item = Item(name: string, isDir: bool, size: nat)

  /** The order of `str::cmp`: by code point, prefixes first. */
  predicate Less(a: string, b: string) {
    b != "" && (a == "" || a[0] < b[0] || (a[0] == b[0] && Less(a[1..], b[1..])))
  }

  lemma {:induction false} LessTotal(a: string, b: string)
    ensures a == b || Less(a, b) || Less(b, a)
  {
    if a != "" && b != "" && a[0] == b[0] {
      LessTotal(a[1..], b[1..]);
      assert a == [a[0]] + a[1..] && b == [b[0]] + b[1..];
    }
  }

  lemma {:induction false} LessTrans(a: string, b: string, c: string)
    requires Less(a, b) && Less(b, c)
    ensures Less(a, c)
  {
    if a != "" && a[0] == b[0] == c[0] {
      LessTrans(a[1..], b[1..], c[1..]);
    }
  }

  lemma {:induction false} LessIrreflexive(a: string)
    ensures !Less(a, a)
  {
    if a != "" {
      LessIrreflexive(a[1..]);
    }
  }

  ghost predicate Sorted(r: seq<Item>) {
    forall i, j :: 0 <= i < j < |r| ==> Less(r[i].name, r[j].name)
  }

  predicate Named(name: string, r: seq<Item>) {
    exists i :: 0 <= i < |r| && r[i].name == name
  }

  function Insert(x: Item, r: seq<Item>): seq<Item> {
    if r == [] || Less(x.name, r[0].name) then [x] + r else [r[0]] + Insert(x, r[1..])
  }

  function SortByName(r: seq<Item>): seq<Item> {
    if r == [] then [] else Insert(r[0], SortByName(r[1..]))
  }

  lemma {:induction false} InsertMembers(x: Item, r: seq<Item>)
    ensures forall y :: y in Insert(x, r) <==> y == x || y in r
  {
    if r != [] && !Less(x.name, r[0].name) {
      InsertMembers(x, r[1..]);
      assert forall y :: y in r <==> y == r[0] || y in r[1..];
    }
  }

  lemma {:induction false} InsertSorted(x: Item, r: seq<Item>)
    requires Sorted(r) && !Named(x.name, r)
    ensures Sorted(Insert(x, r))
  {
    if r != [] && Less(x.name, r[0].name) {
      forall j | 1 <= j < |r|
        ensures Less(x.name, r[j].name)
      {
        LessTrans(x.name, r[0].name, r[j].name);
      }
    } else if r != [] {
      var rest := Insert(x, r[1..]);
      assert !Named(x.name, r[1..]) by {
        assert forall i :: 0 <= i < |r[1..]| ==> r[1..][i] == r[i + 1];
      }
      InsertSorted(x, r[1..]);
      InsertMembers(x, r[1..]);
      LessTotal(x.name, r[0].name);
      forall j | 0 <= j < |rest|
        ensures Less(r[0].name, rest[j].name)
      {
        assert rest[j] in rest;
      }
    }
  }

  lemma {:induction false} SortMembers(r: seq<Item>)
    ensures forall y :: y in SortByName(r) <==> y in r
  {
    if r != [] {
      SortMembers(r[1..]);
      InsertMembers(r[0], SortByName(r[1..]));
      assert forall y :: y in r <==> y == r[0] || y in r[1..];
    }
  }

  ghost predicate Distinct(r: seq<Item>) {
    forall i, j :: 0 <= i < j < |r| ==> r[i].name != r[j].name
  }

  lemma {:induction false} SortSorted(r: seq<Item>)
    requires Distinct(r)
    ensures Sorted(SortByName(r))
  {
    if r != [] {
      SortSorted(r[1..]);
      SortMembers(r[1..]);
      var rest := SortByName(r[1..]);
      assert !Named(r[0].name, rest) by {
        assert forall i :: 0 <= i < |rest| ==> rest[i] in rest;
      }
      InsertSorted(r[0], rest);
    }
  }

  // ---- What a listing shows ----

  predicate Lists(m: Entries, p: string, name: string) {
    name != "" && '/' !in name && Child(p, name) in m
  }

  function ItemOf(m: Entries, p: string, name: string): Item
    requires Child(p, name) in m
  {
    var e := m[Child(p, name)];
    Item(name, e.Directory?, e.Size())
  }

  ghost predicate IsListing(m: Entries, p: string, r: seq<Item>) {
    && Sorted(r)
    && (forall x :: x in r ==> Lists(m, p, x.name) && x == ItemOf(m, p, x.name))
    && (forall name :: Lists(m, p, name) ==> ItemOf(m, p, name) in r)
  }

  lemma ChildInjective(p: string, a: string, q: string, b: string)
    requires '/' !in a && '/' !in b && Child(p, a) == Child(q, b)
    requires |p| >= 1 && |q| >= 1
    ensures a == b && p == q
  {
    var k := Child(p, a);
    var i, j := |k| - |a| - 1, |k| - |b| - 1;
    assert k[i] == '/' && k[j] == '/';
    assert forall x :: i < x < |k| ==> k[x] == a[x - i - 1];
    assert forall x :: j < x < |k| ==> k[x] == b[x - j - 1];
    assert i == j && a == k[i + 1..] == b;
    assert p != "/" ==> p == k[..i];
    assert q != "/" ==> q == k[..i];
  }

  /** In a tree, exactly the entries whose parent is `p` are listed, once each. */
  lemma ListingExact(m: Entries, p: string, r: seq<Item>, k: string)
    requires IsTree(m) && IsNormal(p) && IsListing(m, p, r) && k in m && k != "/"
    ensures ParentPath(k) == Some(p) <==> exists x :: x in r && Child(p, x.name) == k
  {
    assert GoodKey(m, k);
    var q, name := IsChild(k);
    NormalComps(p);
    NormalComps(q);
    if q == p {
      assert Lists(m, p, name);
      assert ItemOf(m, p, name) in r;
    } else if x :| x in r && Child(p, x.name) == k {
      ChildInjective(p, x.name, q, name);
    }
  }

  lemma ListedOnce(m: Entries, p: string, r: seq<Item>, i: nat, j: nat)
    requires IsListing(m, p, r) && i < j < |r|
    ensures Child(p, r[i].name) != Child(p, r[j].name)
  {
    LessIrreflexive(r[i].name);
    assert Child(p, r[i].name)[|Child(p, r[i].name)| - |r[i].name|..] == r[i].name;
    assert Child(p, r[j].name)[|Child(p, r[j].name)| - |r[j].name|..] == r[j].name;
  }

  /** Only directories that are there list anything. */
  lemma ListingOfFile(m: Entries, p: string, r: seq<Item>)
    requires IsTree(m) && IsNormal(p) && IsListing(m, p, r) && !IsDir(m, p)
    ensures r == []
  {
    if r != [] {
      var k := Child(p, r[0].name);
      assert r[0] in r;
      assert GoodKey(m, k);
      NormalComps(p);
      if k != "/" {
        var q, name := IsChild(k);
        NormalComps(q);
        ChildInjective(p, r[0].name, q, name);
      }
    }
  }

  // ---- Spellings ----

  /** What `list` may answer. */
  ghost predicate Shows(m: Entries, path: string, r: seq<Item>) {
    if IsSafe(path) then IsListing(m, Normalize(path), r) else r == []
  }

  /** A safe path and its normal form are the same path to every operation that reads. */
  lemma ReadsAlike(m: Entries, path: string)
    requires IsSafe(path)
    ensures ReadFile(m, path) == ReadFile(m, Normalize(path))
    ensures Present(m, path) <==> Present(m, Normalize(path))
    ensures forall r :: Shows(m, path, r) <==> Shows(m, Normalize(path), r)
  {
    NormalizeSafe(path);
    NormalizeNormal(path);
  }

  /** And to every operation that writes, in what it leaves and in what it answers. */
  lemma WritesAlike(m: Entries, path: string, to: string, content: seq<Byte>)
    requires IsSafe(path) && IsSafe(to)
    ensures CreateDir(m, path) == CreateDir(m, Normalize(path))
    ensures CreateFile(m, path, content) == CreateFile(m, Normalize(path), content)
    ensures Delete(m, path) == Delete(m, Normalize(path)) && (Deletes(m, path) <==> Deletes(m, Normalize(path)))
    ensures Rename(m, path, to) == Rename(m, Normalize(path), Normalize(to))
    ensures Renames(m, path, to) <==> Renames(m, Normalize(path), Normalize(to))
  {
    NormalizeSafe(path);
    NormalizeSafe(to);
    NormalizeNormal(path);
    NormalizeNormal(to);
  }

  /** Every operation that reads answers the same for `a` and `b`. */
  ghost predicate SameAnswers(m: Entries, a: string, b: string) {
    && ReadFile(m, a) == ReadFile(m, b) && (Present(m, a) <==> Present(m, b))
    && (forall r :: Shows(m, a, r) <==> Shows(m, b, r))
  }

  /** Every operation that writes leaves and answers the same for both, as the path or as either end of a rename. */
  ghost predicate SameEffects(m: Entries, a: string, b: string, other: string, content: seq<Byte>) {
    && CreateDir(m, a) == CreateDir(m, b) && CreateFile(m, a, content) == CreateFile(m, b, content)
    && Delete(m, a) == Delete(m, b) && (Deletes(m, a) <==> Deletes(m, b))
    && Rename(m, a, other) == Rename(m, b, other) && (Renames(m, a, other) <==> Renames(m, b, other))
    && Rename(m, other, a) == Rename(m, other, b) && (Renames(m, other, a) <==> Renames(m, other, b))
  }

  ghost predicate Interchangeable(m: Entries, a: string, b: string) {
    SameAnswers(m, a, b) && forall other, content :: SameEffects(m, a, b, other, content)
  }

  /** Two spellings with one normal form, both safe or both not, are the same path to every operation. */
  lemma SpellingIrrelevant(m: Entries, a: string, b: string)
    requires Normalize(a) == Normalize(b) && (IsSafe(a) <==> IsSafe(b))
    ensures Interchangeable(m, a, b)
  {
    forall other: string, content: seq<Byte>
      ensures SameEffects(m, a, b, other, content)
    {
    }
  }

  /** The directories down to a key. */
  function Chain(cs: seq<string>): Entries {
    if cs == [] then map["/" := Directory] else Chain(cs[..|cs| - 1])[Key(cs) := Directory]
  }

  lemma {:induction false} ChainTree(cs: seq<string>)
    requires VfsPaths.Names(cs) && IsSafe(Key(cs))
    ensures IsTree(Chain(cs)) && IsDir(Chain(cs), Key(cs))
  {
    if cs == [] {
      KeyNormal([]);
    } else {
      var n := |cs| - 1;
      var p, name := cs[..n], cs[n];
      assert cs == p + [name];
      ChildKey(p, name);
      KeyNormal(p);
      KeyNormal(cs);
      ParentOfChild(Key(p), name);
      ShorterSafe(p, name);
      ChainTree(p);
      Inserted(Chain(p), Key(cs), Directory);
    }
  }

  lemma {:induction false} ChainDirs(cs: seq<string>)
    ensures OnlyDirs(Chain(cs))
  {
    if cs != [] {
      ChainDirs(cs[..|cs| - 1]);
    }
  }

  lemma {:induction false} RunConcat(m: Entries, ops: seq<Op>, op: Op)
    ensures Run(m, ops + [op]) == Apply(Run(m, ops), op)
    decreases |ops|
  {
    if ops == [] {
      assert ([] + [op])[1..] == [];
    } else {
      assert (ops + [op])[1..] == ops[1..] + [op];
      RunConcat(Apply(m, ops[0]), ops[1..], op);
    }
  }

  lemma ChainStep(p: seq<string>, name: string)
    requires VfsPaths.Names(p) && IsName(name) && IsSafe(Key(p + [name])) && Key(p) in Chain(p)
    ensures CreateDir(Chain(p), Key(p + [name])) == Chain(p)[Key(p + [name]) := Directory]
  {
    ChildKey(p, name);
    KeyNormal(p);
    ParentOfChild(Key(p), name);
    ChainDirs(p);
    DirAdded(Chain(p), Key(p + [name]), Key(p));
  }

  lemma ShorterSafe(p: seq<string>, name: string)
    requires VfsPaths.Names(p) && IsName(name) && IsSafe(Key(p + [name]))
    ensures IsSafe(Key(p))
  {
    ChildKey(p, name);
    assert forall i :: 0 <= i < |Key(p)| ==> Key(p)[i] == Key(p + [name])[i];
  }

  /** The directories can be made one after another, starting with nothing. */
  lemma {:induction false} ChainRun(cs: seq<string>) returns (ops: seq<Op>)
    requires VfsPaths.Names(cs) && IsSafe(Key(cs))
    ensures Run(map[], ops) == Chain(cs)
  {
    if cs == [] {
      KeyNormal([]);
      ops := [] + [MakeDir("/")];
      RunConcat(map[], [], MakeDir("/"));
    } else {
      var n := |cs| - 1;
      var p, name := cs[..n], cs[n];
      assert cs == p + [name];
      ShorterSafe(p, name);
      ChainTree(p);
      var before := ChainRun(p);
      ChainStep(p, name);
      RunConcat(map[], before, MakeDir(Key(cs)));
      ops := before + [MakeDir(Key(cs))];
    }
  }

  /** A run after which a safe and an unsafe spelling of one path are told apart. */
  lemma ToldApart(a: string, b: string) returns (ops: seq<Op>)
    requires Normalize(a) == Normalize(b) && IsSafe(a) && !IsSafe(b)
    ensures Present(Run(map[], ops), a) && !Present(Run(map[], ops), b)
  {
    CompsNames(a);
    NormalizeSafe(a);
    ChainTree(Comps(a));
    ops := ChainRun(Comps(a));
  }

  /**
   Spellings with one normal form are interchangeable in every reachable filesystem if and only
   if both are safe or both are not; asking whether the path exists is enough to tell.
   */
  lemma SpellingsExact(a: string, b: string)
    requires Normalize(a) == Normalize(b)
    ensures (forall ops :: Interchangeable(Run(map[], ops), a, b)) <==> (IsSafe(a) <==> IsSafe(b))
    ensures (forall ops :: Present(Run(map[], ops), a) <==> Present(Run(map[], ops), b)) <==> (IsSafe(a) <==> IsSafe(b))
  {
    if IsSafe(a) <==> IsSafe(b) {
      forall ops: seq<Op>
        ensures Interchangeable(Run(map[], ops), a, b)
      {
        SpellingIrrelevant(Run(map[], ops), a, b);
      }
    } else if IsSafe(a) {
      var ops := ToldApart(a, b);
      assert !Interchangeable(Run(map[], ops), a, b);
    } else {
      var ops := ToldApart(b, a);
      assert !Interchangeable(Run(map[], ops), a, b);
    }
  }
}

/** Paths of the virtual filesystem: text, components, and the normal form used as map key. */
module VfsPaths {
  import opened Common

  /** `replace('\\', "/")`. */
  function Slashes(s: string): (r: string)
    ensures |r| == |s| && forall i :: 0 <= i < |s| ==> r[i] == if s[i] == '\\' then '/' else s[i]
  {
    seq(|s|, i requires 0 <= i < |s| => if s[i] == '\\' then '/' else s[i])
  }

  /** `split('/')`. */
  function Split(s: string): (r: seq<string>)
    ensures |r| >= 1
  {
    if s == "" then [""] else AddChar(s[0], Split(s[1..]))
  }

  function AddChar(c: char, parts: seq<string>): (r: seq<string>)
    requires parts != []
    ensures r != []
  {
    if c == '/' then [""] + parts else [[c] + parts[0]] + parts[1..]
  }

  function Resolve(stack: seq<string>, parts: seq<string>): seq<string>
    decreases |parts|
  {
    if parts == [] then stack
    else
      var c := parts[0];
      var next :=
        if c == "" || c == "." then stack
        else if c == ".." then (if stack == [] then [] else stack[..|stack| - 1])
        else stack + [c];
      Resolve(next, parts[1..])
  }

  /** The components a path resolves to. */
  function Comps(path: string): seq<string> {
    Resolve([], Split(Slashes(path)))
  }

  /** Each component behind a slash. */
  function Path(cs: seq<string>): string {
    if cs == [] then "" else "/" + cs[0] + Path(cs[1..])
  }

  function Key(cs: seq<string>): string {
    if cs == [] then "/" else Path(cs)
  }

  function Normalize(path: string): string {
    Key(Comps(path))
  }

  predicate IsSafeChar(c: char) {
    !IsControl(c) && c != '\U{85}' && c != '\U{2028}' && c != '\U{2029}'
  }

  predicate IsSafe(path: string) {
    forall i :: 0 <= i < |path| ==> IsSafeChar(path[i])
  }

  predicate IsName(c: string) {
    c != "" && c != "." && c != ".." && '/' !in c && '\\' !in c
  }

  predicate Names(cs: seq<string>) {
    forall i :: 0 <= i < |cs| ==> IsName(cs[i])
  }

  // ---- Splitting and joining ----

  lemma {:induction false} SplitPlain(c: string)
    requires '/' !in c
    ensures Split(c) == [c]
  {
    if c != "" {
      SplitPlain(c[1..]);
      assert c == [c[0]] + c[1..];
    }
  }

  lemma AddCharConcat(c: char, x: seq<string>, y: seq<string>)
    requires x != []
    ensures AddChar(c, x) + y == AddChar(c, x + y)
  {
    if c != '/' {
      assert (x + y)[0] == x[0] && (x + y)[1..] == x[1..] + y;
    }
  }

  lemma {:induction false} SplitConcat(a: string, b: string)
    ensures Split(a + "/" + b) == Split(a) + Split(b)
  {
    var s := a + "/" + b;
    if a == "" {
      assert s == ['/'] + b && s[1..] == b;
    } else {
      SplitConcat(a[1..], b);
      assert s[1..] == a[1..] + "/" + b && s[0] == a[0];
      AddCharConcat(a[0], Split(a[1..]), Split(b));
    }
  }

  lemma SplitName(c: string, r: string)
    requires '/' !in c && (r == "" || r[0] == '/')
    ensures Split(c + r) == if r == "" then [c] else [c] + Split(r[1..])
  {
    SplitPlain(c);
    if r == "" {
      assert c + r == c;
    } else {
      SplitConcat(c, r[1..]);
      assert c + r == c + "/" + r[1..];
    }
  }

  lemma AfterSlash(c: string, rest: string, s: string)
    requires s == "/" + c + rest
    ensures s != "" && s[0] == '/' && s[1..] == c + rest
  {
  }

  lemma PathStep(cs: seq<string>)
    requires cs != []
    ensures Path(cs) != "" && Path(cs)[0] == '/' && Path(cs)[1..] == cs[0] + Path(cs[1..])
  {
    AfterSlash(cs[0], Path(cs[1..]), Path(cs));
  }

  lemma {:induction false} SplitPath(cs: seq<string>)
    requires Names(cs) && cs != []
    ensures Path(cs) != "" && Path(cs)[0] == '/' && Split(Path(cs)[1..]) == cs
  {
    var c, rest := cs[0], cs[1..];
    PathStep(cs);
    if rest == [] {
      SplitName(c, "");
      assert Path(rest) == "" && cs == [c];
    } else {
      SplitPath(rest);
      SplitName(c, Path(rest));
      assert cs == [c] + rest;
    }
  }

  lemma {:induction false} ResolveConcat(stack: seq<string>, x: seq<string>, y: seq<string>)
    ensures Resolve(stack, x + y) == Resolve(Resolve(stack, x), y)
    decreases |x|
  {
    if x == [] {
      assert x + y == y;
    } else {
      assert (x + y)[1..] == x[1..] + y;
      ResolveConcat(Resolve(stack, x[..1]), x[1..], y);
      ResolveOne(stack, x);
      ResolveOne(stack, x + y);
      assert (x + y)[..1] == x[..1];
    }
  }

  lemma ResolveOne(stack: seq<string>, x: seq<string>)
    requires x != []
    ensures Resolve(stack, x) == Resolve(Resolve(stack, x[..1]), x[1..])
  {
    assert x[..1][0] == x[0] && x[..1][1..] == [];
  }

  lemma {:induction false} ResolveNames(stack: seq<string>, cs: seq<string>)
    requires Names(cs)
    ensures Resolve(stack, cs) == stack + cs
    decreases |cs|
  {
    if cs != [] {
      ResolveNames(stack + [cs[0]], cs[1..]);
      assert stack + [cs[0]] + cs[1..] == stack + cs;
    }
  }

  /** Characters that make up a path, minus the separators, are all a component is made of. */
  ghost predicate PartsOf(parts: seq<string>, s: string) {
    forall i, j :: 0 <= i < |parts| && 0 <= j < |parts[i]| ==> parts[i][j] in s && parts[i][j] != '/'
  }

  lemma {:induction false} SplitParts(s: string)
    ensures PartsOf(Split(s), s)
  {
    if s != "" {
      SplitParts(s[1..]);
    }
  }

  lemma {:induction false} ResolveParts(stack: seq<string>, parts: seq<string>, s: string)
    requires PartsOf(stack, s) && PartsOf(parts, s) && Names(stack) && '\\' !in s
    ensures PartsOf(Resolve(stack, parts), s) && Names(Resolve(stack, parts))
    decreases |parts|
  {
    if parts != [] {
      var c := parts[0];
      assert PartsOf(parts[1..], s);
      if c == "" || c == "." {
        ResolveParts(stack, parts[1..], s);
      } else if c == ".." {
        ResolveParts(if stack == [] then [] else stack[..|stack| - 1], parts[1..], s);
      } else {
        assert '/' !in c && '\\' !in c by {
          assert forall j :: 0 <= j < |c| ==> c[j] == parts[0][j];
        }
        ResolveParts(stack + [c], parts[1..], s);
      }
    }
  }

  lemma CompsNames(path: string)
    ensures Names(Comps(path)) && PartsOf(Comps(path), Slashes(path))
  {
    SplitParts(Slashes(path));
    ResolveParts([], Split(Slashes(path)), Slashes(path));
  }

  // ---- The normal form ----

  lemma {:induction false} PathPlain(cs: seq<string>)
    requires Names(cs)
    ensures '\\' !in Path(cs)
  {
    if cs != [] {
      PathPlain(cs[1..]);
    }
  }

  lemma CompsOfKey(cs: seq<string>)
    requires Names(cs)
    ensures Comps(Key(cs)) == cs
  {
    if cs == [] {
      assert Slashes("/") == "/" && "/"[1..] == "";
      assert Split("") == [""] && Split("/") == [""] + [""];
      assert Resolve([], ["", ""]) == Resolve([], ["", ""][1..]);
    } else {
      PathPlain(cs);
      assert Slashes(Path(cs)) == Path(cs);
      SplitPath(cs);
      var parts := Split(Path(cs));
      assert parts == [""] + cs;
      assert parts[0] == "" && parts[1..] == cs;
      ResolveNames([], cs);
    }
  }

  predicate IsNormal(path: string) {
    Normalize(path) == path
  }

  lemma NormalizeNormal(path: string)
    ensures IsNormal(Normalize(path)) && Comps(Normalize(path)) == Comps(path)
  {
    CompsNames(path);
    CompsOfKey(Comps(path));
  }

  /** Resolving a path one step at a time gives the same normal form. */
  lemma NormalizeStepwise(a: string, b: string)
    ensures Normalize(a + "/" + b) == Normalize(Normalize(a) + "/" + b)
  {
    CompsStep(a, b);
    CompsStep(Normalize(a), b);
    NormalizeNormal(a);
  }

  lemma CompsStep(a: string, b: string)
    ensures Comps(a + "/" + b) == Resolve(Comps(a), Split(Slashes(b)))
  {
    assert Slashes(a + "/" + b) == Slashes(a) + "/" + Slashes(b);
    SplitConcat(Slashes(a), Slashes(b));
    ResolveConcat([], Split(Slashes(a)), Split(Slashes(b)));
  }

  lemma {:induction false} PathSafe(cs: seq<string>, s: string)
    requires PartsOf(cs, s) && IsSafe(s)
    ensures IsSafe(Path(cs))
  {
    if cs != [] {
      assert PartsOf(cs[1..], s);
      PathSafe(cs[1..], s);
      assert forall j :: 0 <= j < |cs[0]| ==> cs[0][j] in s;
    }
  }

  lemma NormalizeSafe(path: string)
    requires IsSafe(path)
    ensures IsSafe(Normalize(path))
  {
    CompsNames(path);
    assert IsSafe(Slashes(path));
    PathSafe(Comps(path), Slashes(path));
  }

  // ---- Prefixes and parents ----

  lemma {:induction false} PathConcat(a: seq<string>, b: seq<string>)
    ensures Path(a + b) == Path(a) + Path(b)
  {
    if a == [] {
      assert a + b == b;
    } else {
      PathConcat(a[1..], b);
      assert (a + b)[1..] == a[1..] + b && (a + b)[0] == a[0];
      assert "/" + a[0] + (Path(a[1..]) + Path(b)) == Path(a) + Path(b);
    }
  }

  /** `k` is a proper descendant of `p`. */
  predicate Under(p: string, k: string) {
    p + "/" <= k
  }

  /** Two texts that start with a name followed by a slash (or, for the longer one, by nothing). */
  lemma NameFirst(c: string, x: string, d: string, y: string)
    requires '/' !in c && '/' !in d && c + x <= d + y
    requires x != "" && x[0] == '/' && (y == "" || y[0] == '/')
    ensures c == d && x <= y
  {
    var s, t := c + x, d + y;
    assert s[|c|] == '/' && (y != "" ==> t[|d|] == '/');
    assert forall i :: 0 <= i < |c| ==> s[i] == c[i] && c[i] in c;
    assert forall i :: 0 <= i < |d| ==> t[i] == d[i] && d[i] in d;
    assert |c| == |d|;
    assert c == s[..|c|] == t[..|c|] == d;
    assert x == s[|c|..] && y == t[|c|..];
  }

  lemma PathHead(cs: seq<string>)
    requires Names(cs)
    ensures Path(cs) == "" || Path(cs)[0] == '/'
  {
  }

  lemma SlashedNames(c: string, x: string, d: string, y: string)
    requires '/' !in c && '/' !in d && Under("/" + c + x, "/" + d + y)
    requires (x == "" || x[0] == '/') && (y == "" || y[0] == '/')
    ensures c == d && Under(x, y)
  {
    var s, t := "/" + c + x + "/", "/" + d + y;
    assert s[1..] == c + (x + "/") && t[1..] == d + y;
    NameFirst(c, x + "/", d, y);
  }

  lemma PathFirst(a: seq<string>, b: seq<string>)
    requires Names(a) && Names(b) && a != [] && Under(Path(a), Path(b))
    ensures b != [] && a[0] == b[0] && Under(Path(a[1..]), Path(b[1..]))
  {
    assert b != [];
    PathHead(a[1..]);
    PathHead(b[1..]);
    SlashedNames(a[0], Path(a[1..]), b[0], Path(b[1..]));
  }

  /** A key under another extends its components. */
  lemma {:induction false} PrefixComps(a: seq<string>, b: seq<string>)
    requires Names(a) && Names(b) && Under(Path(a), Path(b))
    ensures |a| < |b| && a == b[..|a|]
  {
    if a != [] {
      PathFirst(a, b);
      PrefixComps(a[1..], b[1..]);
      assert a == [a[0]] + a[1..] && b[..|a|] == [b[0]] + b[1..][..|a| - 1];
    }
  }

  function LastSlash(s: string): (i: int)
    ensures -1 <= i < |s| && (i >= 0 ==> s[i] == '/') && forall j :: i < j < |s| ==> s[j] != '/'
  {
    if s == "" then -1
    else if s[|s| - 1] == '/' then |s| - 1
    else LastSlash(s[..|s| - 1])
  }

  /** `Path::parent` of a rooted path, normalized. */
  function ParentPath(path: string): Option<string> {
    if path == "/" then None
    else
      var i := LastSlash(path);
      Some(Normalize(if i <= 0 then "/" else path[..i]))
  }

  function Child(p: string, name: string): string {
    if p == "/" then "/" + name else p + "/" + name
  }

  lemma NormalComps(k: string)
    requires IsNormal(k)
    ensures Names(Comps(k)) && k == Key(Comps(k)) && (k == "/" <==> Comps(k) == []) && |k| >= 1
  {
    CompsNames(k);
    if Comps(k) != [] {
      var cs := Comps(k);
      assert Path(cs) == "/" + cs[0] + Path(cs[1..]);
      assert |Path(cs)| >= 2;
    }
  }

  lemma KeyNormal(cs: seq<string>)
    requires Names(cs)
    ensures IsNormal(Key(cs)) && Comps(Key(cs)) == cs
  {
    CompsOfKey(cs);
  }

  lemma LastSlashIs(s: string, i: nat)
    requires i < |s| && s[i] == '/' && forall j :: i < j < |s| ==> s[j] != '/'
    ensures LastSlash(s) == i
  {
  }

  lemma PathOne(name: string)
    ensures Path([name]) == "/" + name
  {
    assert [name][1..] == [];
    assert "/" + name + "" == "/" + name;
  }

  lemma PathLong(cs: seq<string>)
    requires Names(cs) && cs != []
    ensures |Path(cs)| >= 2
  {
    assert |Path(cs)| == 1 + |cs[0]| + |Path(cs[1..])|;
  }

  lemma ChildKey(cs: seq<string>, name: string)
    requires Names(cs) && IsName(name)
    ensures Key(cs + [name]) == Path(cs) + "/" + name == Child(Key(cs), name)
    ensures cs != [] ==> |Path(cs)| >= 2
  {
    PathConcat(cs, [name]);
    PathOne(name);
    assert Path(cs) + ("/" + name) == Path(cs) + "/" + name;
    if cs != [] {
      PathLong(cs);
    } else {
      assert cs + [name] == [name];
    }
  }

  /** The parent of a child is the directory it was made in. */
  lemma ParentOfChild(p: string, name: string)
    requires IsNormal(p) && IsName(name)
    ensures IsNormal(Child(p, name)) && Child(p, name) != "/" && ParentPath(Child(p, name)) == Some(p)
  {
    NormalComps(p);
    var cs := Comps(p);
    ChildKey(cs, name);
    KeyNormal(cs + [name]);
    var k := Path(cs) + "/" + name;
    assert k[|Path(cs)|] == '/';
    assert forall j :: |Path(cs)| < j < |k| ==> k[j] == name[j - |Path(cs)| - 1];
    LastSlashIs(k, |Path(cs)|);
    assert k[..|Path(cs)|] == Path(cs);
    assert |k| >= 2;
    assert Normalize("/") == "/" by {
      KeyNormal([]);
    }
  }

  /** Every key but the root is a child of its parent, in one way only. */
  lemma IsChild(k: string) returns (p: string, name: string)
    requires IsNormal(k) && k != "/"
    ensures IsNormal(p) && IsName(name) && k == Child(p, name) && ParentPath(k) == Some(p)
    ensures |p| < |k|
  {
    NormalComps(k);
    var cs := Comps(k);
    var n := |cs| - 1;
    name := cs[n];
    p := Key(cs[..n]);
    assert cs == cs[..n] + [name];
    KeyNormal(cs[..n]);
    ChildKey(cs[..n], name);
    ParentOfChild(p, name);
  }

  lemma UnderChild(t: string, p: string, name: string)
    requires |t| >= 1 && '/' !in name && Under(t, Child(p, name))
    ensures p == t || Under(t, p)
  {
    var k := Child(p, name);
    var before := |k| - |name| - 1;
    assert k[|t|] == '/';
    assert forall j :: before < j < |k| ==> k[j] == name[j - before - 1];
    assert |t| <= before && before == |p| && p == k[..|p|];
    assert t == k[..|t|];
    assert |t| < |p| ==> p[..|t| + 1] == k[..|t| + 1] == t + "/";
  }

  /** What is under a directory is one of its children or under one. */
  lemma UnderParent(t: string, k: string)
    requires IsNormal(t) && t != "/" && IsNormal(k) && Under(t, k)
    ensures k != "/" && (ParentPath(k) == Some(t) || Under(t, ParentPath(k).value))
  {
    NormalComps(t);
    var p, name := IsChild(k);
    UnderChild(t, p, name);
  }

  /** Moving a key from under `f` to under `t`. */
  lemma RebaseNormal(f: string, t: string, k: string)
    requires IsNormal(f) && f != "/" && IsNormal(t) && t != "/" && IsNormal(k) && Under(f, k)
    ensures IsNormal(t + k[|f|..]) && t + "/" + k[|f| + 1..] == t + k[|f|..]
  {
    NormalComps(f);
    NormalComps(t);
    NormalComps(k);
    var a, b, c := Comps(f), Comps(k), Comps(t);
    assert k != "/";
    PrefixComps(a, b);
    var r := b[|a|..];
    assert b == a + r;
    PathConcat(a, r);
    PathConcat(c, r);
    KeyNormal(c + r);
    assert k[|f|..] == Path(r);
    assert k[|f|] == '/' && k[|f|..] == "/" + k[|f| + 1..];
  }
}

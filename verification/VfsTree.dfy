/** The virtual filesystem as a map from normal paths to entries: operations and what they keep. */
module VfsTree {
  import opened Common
  import opened VfsPaths

  datatype Entry = File(content: seq<Byte>, size: nat) | Directory {
    function Size(): nat {
      if File? then size else 0
    }
  }

  type Entries = map<string, Entry>

  predicate IsDir(m: Entries, k: string) {
    k in m && m[k].Directory?
  }

  // ---- Operations ----

  predicate HasParent(m: Entries, k: string) {
    ParentPath(k).Some? && IsDir(m, ParentPath(k).value)
  }

  function PutDir(m: Entries, k: string): Entries {
    if (k != "/" && !HasParent(m, k)) || k in m then m else m[k := Directory]
  }

  function PutFile(m: Entries, k: string, content: seq<Byte>): Entries {
    if !HasParent(m, k) || IsDir(m, k) then m else m[k := File(content, |content|)]
  }

  function CreateDir(m: Entries, path: string): Entries {
    if IsSafe(path) then PutDir(m, Normalize(path)) else m
  }

  function CreateFile(m: Entries, path: string, content: seq<Byte>): Entries {
    if IsSafe(path) then PutFile(m, Normalize(path), content) else m
  }

  ghost predicate CanDelete(m: Entries, k: string) {
    k != "/" && k in m && (m[k].Directory? ==> forall x :: x in m ==> !Under(k, x))
  }

  ghost function Drop(m: Entries, k: string): Entries {
    if CanDelete(m, k) then m - {k} else m
  }

  ghost function Delete(m: Entries, path: string): Entries {
    if IsSafe(path) then Drop(m, Normalize(path)) else m
  }

  predicate CanRename(m: Entries, f: string, t: string) {
    && f != "/" && f in m && (t != f ==> t !in m) && HasParent(m, t)
    && !(m[f].Directory? && Under(f, t))
  }

  predicate Inside(f: string, k: string) {
    k == f || Under(f, k)
  }

  /** Where a key goes when `f` is renamed to `t`. */
  function Move(f: string, t: string, k: string): string {
    if Inside(f, k) then t + k[|f|..] else k
  }

  function Moved(m: Entries, f: string, t: string): Entries {
    var keys := set k | k in m :: Move(f, t, k);
    map k | k in keys && Move(t, f, k) in m :: m[Move(t, f, k)]
  }

  function Shift(m: Entries, f: string, t: string): Entries {
    if CanRename(m, f, t) then Moved(m, f, t) else m
  }

  function Rename(m: Entries, from: string, to: string): Entries {
    if IsSafe(from) && IsSafe(to) then Shift(m, Normalize(from), Normalize(to)) else m
  }

  datatype Op =
    | MakeDir(path: string)
    | MakeFile(path: string, content: seq<Byte>)
    | Unlink(path: string)
    | MoveTo(from: string, to: string)

  ghost function Apply(m: Entries, op: Op): Entries {
    match op
    case MakeDir(path) => CreateDir(m, path)
    case MakeFile(path, content) => CreateFile(m, path, content)
    case Unlink(path) => Delete(m, path)
    case MoveTo(from, to) => Rename(m, from, to)
  }

  ghost function Run(m: Entries, ops: seq<Op>): Entries
    decreases |ops|
  {
    if ops == [] then m else Run(Apply(m, ops[0]), ops[1..])
  }

  // ---- The tree invariant ----

  ghost predicate GoodKey(m: Entries, k: string) {
    && IsNormal(k) && IsSafe(k) && (if k == "/" then IsDir(m, k) else HasParent(m, k))
    && (k in m && m[k].File? ==> m[k].size == |m[k].content|)
  }

  ghost predicate IsTree(m: Entries) {
    forall k {:trigger GoodKey(m, k)} :: k in m ==> GoodKey(m, k)
  }

  /** Everything above an entry is there and is a directory. */
  lemma {:induction false} Ancestor(m: Entries, t: string, k: string)
    requires IsTree(m) && k in m && IsNormal(t) && t != "/" && Under(t, k)
    ensures IsDir(m, t)
    decreases |k|
  {
    assert GoodKey(m, k);
    UnderParent(t, k);
    var p, name := IsChild(k);
    if p != t {
      Ancestor(m, t, p);
    }
  }

  lemma Inserted(m: Entries, k: string, e: Entry)
    requires IsTree(m) && IsNormal(k) && IsSafe(k) && (IsDir(m, k) ==> e.Directory?)
    requires if k == "/" then e.Directory? else HasParent(m, k)
    requires e.File? ==> e.size == |e.content|
    ensures IsTree(m[k := e])
  {
    var m' := m[k := e];
    forall x | x in m'
      ensures GoodKey(m', x)
    {
      assert x in m ==> GoodKey(m, x);
      assert x != "/" && HasParent(m, x) ==> HasParent(m', x);
    }
  }

  lemma PutTree(m: Entries, k: string, content: seq<Byte>)
    requires IsTree(m) && IsNormal(k) && IsSafe(k)
    ensures IsTree(PutDir(m, k)) && IsTree(PutFile(m, k, content))
  {
    if (k == "/" || HasParent(m, k)) && k !in m {
      Inserted(m, k, Directory);
    }
    if HasParent(m, k) && !IsDir(m, k) {
      Inserted(m, k, File(content, |content|));
    }
  }

  lemma CreateTree(m: Entries, path: string, content: seq<Byte>)
    requires IsTree(m)
    ensures IsTree(CreateDir(m, path)) && IsTree(CreateFile(m, path, content))
  {
    if IsSafe(path) {
      NormalizeNormal(path);
      NormalizeSafe(path);
      PutTree(m, Normalize(path), content);
    }
  }

  ghost predicate OnlyDirs(m: Entries) {
    forall k :: k in m ==> m[k].Directory?
  }

  lemma DirAdded(m: Entries, k: string, p: string)
    requires IsNormal(k) && IsSafe(k) && k != "/" && ParentPath(k) == Some(p) && OnlyDirs(m) && p in m
    ensures CreateDir(m, k) == m[k := Directory] && OnlyDirs(m[k := Directory])
  {
    assert PutDir(m, k) == if k in m then m else m[k := Directory];
    assert k in m ==> m[k := Directory] == m;
  }

  lemma ParentAbove(x: string, k: string)
    requires IsNormal(x) && x != "/" && ParentPath(x) == Some(k) && k != "/"
    ensures Under(k, x)
  {
    var p, name := IsChild(x);
  }

  lemma DropTree(m: Entries, k: string)
    requires IsTree(m)
    ensures IsTree(Drop(m, k))
  {
    var m' := Drop(m, k);
    forall x | x in m'
      ensures GoodKey(m', x)
    {
      assert GoodKey(m, x);
      if x != "/" && CanDelete(m, k) && ParentPath(x) == Some(k) {
        ParentAbove(x, k);
      }
    }
  }

  /** Deleting what was just created leaves everything as it was. */
  lemma CreateThenDelete(m: Entries, k: string, content: seq<Byte>)
    requires IsTree(m) && IsNormal(k) && k != "/" && k !in m
    ensures Drop(PutDir(m, k), k) == m && Drop(PutFile(m, k, content), k) == m
  {
    forall x | x in m
      ensures !Under(k, x)
    {
      if Under(k, x) {
        Ancestor(m, k, x);
      }
    }
    assert !Under(k, k);
    assert m[k := Directory] - {k} == m && m[k := File(content, |content|)] - {k} == m;
  }

  /** What `get` answers. */
  function ReadFile(m: Entries, path: string): Option<seq<Byte>> {
    var k := Normalize(path);
    if IsSafe(path) && k in m && m[k].File? then Some(m[k].content) else None
  }

  /** What `exists` answers. */
  predicate Present(m: Entries, path: string) {
    IsSafe(path) && Normalize(path) in m
  }

  /** What `delete` answers. */
  ghost predicate Deletes(m: Entries, path: string) {
    IsSafe(path) && CanDelete(m, Normalize(path))
  }

  /** What `rename` answers. */
  predicate Renames(m: Entries, from: string, to: string) {
    IsSafe(from) && IsSafe(to) && CanRename(m, Normalize(from), Normalize(to))
  }

  /** A file reads back as written, under every safe spelling of its path, and nothing else reads differently. */
  lemma WriteThenRead(m: Entries, path: string, content: seq<Byte>, other: string)
    ensures
      var k := Normalize(path);
      ReadFile(CreateFile(m, path, content), other)
      == if IsSafe(path) && IsSafe(other) && HasParent(m, k) && !IsDir(m, k) && Normalize(other) == k then Some(content)
         else ReadFile(m, other)
    ensures ReadFile(CreateDir(m, path), other) == ReadFile(m, other)
  {
  }

  // ---- Renaming ----

  /** The two subtrees do not meet, and nothing is at the destination. */
  ghost predicate Apart(m: Entries, f: string, t: string) {
    && IsNormal(f) && f != "/" && IsNormal(t) && t != "/"
    && f != t && !Under(f, t) && !Under(t, f)
    && forall k :: k in m ==> !Inside(t, k)
  }

  lemma RenameApart(m: Entries, f: string, t: string)
    requires IsTree(m) && IsNormal(f) && IsNormal(t) && CanRename(m, f, t) && f != t
    ensures Apart(m, f, t)
  {
    if Under(f, t) {
      UnderParent(f, t);
      if ParentPath(t) != Some(f) {
        Ancestor(m, f, ParentPath(t).value);
      }
    }
    forall k | k in m
      ensures !Inside(t, k)
    {
      if Under(t, k) {
        Ancestor(m, t, k);
      }
    }
  }

  lemma MoveInside(f: string, t: string, k: string)
    requires Inside(f, k)
    ensures Inside(t, Move(f, t, k))
  {
    if Under(f, k) {
      var k' := t + k[|f|..];
      assert k[|f|] == '/';
      assert t + "/" == k'[..|t| + 1];
    }
  }

  /** Moving there and back is the identity. */
  lemma MoveBack(f: string, t: string, k: string)
    requires Inside(f, k) || !Inside(t, k)
    ensures Move(t, f, Move(f, t, k)) == k
  {
    if Inside(f, k) {
      MoveInside(f, t, k);
      assert (t + k[|f|..])[|t|..] == k[|f|..];
      assert f + k[|f|..] == k;
    }
  }

  lemma MovedEntry(m: Entries, f: string, t: string, k: string)
    requires Apart(m, f, t) && k in m
    ensures Move(f, t, k) in Moved(m, f, t) && Moved(m, f, t)[Move(f, t, k)] == m[k]
  {
    MoveBack(f, t, k);
  }

  lemma MovedFrom(m: Entries, f: string, t: string, k: string)
    requires Apart(m, f, t) && k in Moved(m, f, t)
    ensures Move(t, f, k) in m && Move(f, t, Move(t, f, k)) == k && Moved(m, f, t)[k] == m[Move(t, f, k)]
  {
    var x :| x in m && Move(f, t, x) == k;
    MoveBack(f, t, x);
  }

  /** Every entry is at its new key, and nothing else is there. */
  ghost predicate IsMoved(m: Entries, f: string, t: string, m': Entries) {
    && (forall k :: k in m ==> Move(f, t, k) in m' && m'[Move(f, t, k)] == m[k])
    && (forall k :: k in m' ==> exists x :: x in m && Move(f, t, x) == k)
  }

  lemma MovedIs(m: Entries, f: string, t: string)
    requires Apart(m, f, t)
    ensures IsMoved(m, f, t, Moved(m, f, t))
  {
    forall k | k in m
      ensures Move(f, t, k) in Moved(m, f, t) && Moved(m, f, t)[Move(f, t, k)] == m[k]
    {
      MovedEntry(m, f, t, k);
    }
    forall k | k in Moved(m, f, t)
      ensures exists x :: x in m && Move(f, t, x) == k
    {
      MovedFrom(m, f, t, k);
      assert Move(t, f, k) in m;
    }
  }

  lemma MovedTwice(m: Entries, f: string, t: string, a: Entries, b: Entries)
    requires IsMoved(m, f, t, a) && IsMoved(m, f, t, b)
    ensures a.Keys == b.Keys && a == b
  {
  }

  lemma MovedUnique(m: Entries, f: string, t: string, m': Entries)
    requires Apart(m, f, t) && IsMoved(m, f, t, m')
    ensures m' == Moved(m, f, t)
  {
    MovedIs(m, f, t);
    MovedTwice(m, f, t, m', Moved(m, f, t));
  }

  lemma ImageSize(keys: set<string>, f: string, t: string)
    requires forall k :: k in keys ==> Move(t, f, Move(f, t, k)) == k
    ensures |set k | k in keys :: Move(f, t, k)| == |keys|
  {
    var image := set k | k in keys :: Move(f, t, k);
    if keys != {} {
      var x :| x in keys;
      var others := keys - {x};
      ImageSize(others, f, t);
      var image' := set k | k in others :: Move(f, t, k);
      assert image == image' + {Move(f, t, x)};
      assert Move(f, t, x) !in image';
    }
  }

  lemma MovedSize(m: Entries, f: string, t: string)
    requires Apart(m, f, t)
    ensures |Moved(m, f, t)| == |m|
  {
    forall k | k in m
      ensures Move(t, f, Move(f, t, k)) == k
    {
      MoveBack(f, t, k);
    }
    ImageSize(m.Keys, f, t);
    assert Moved(m, f, t).Keys == set k | k in m.Keys :: Move(f, t, k);
    assert |m.Keys| == |m| && |Moved(m, f, t).Keys| == |Moved(m, f, t)|;
  }

  lemma MoveSame(f: string, k: string)
    ensures Move(f, f, k) == k
  {
    if Inside(f, k) {
      assert f + k[|f|..] == k;
    }
  }

  lemma MovedSame(m: Entries, f: string)
    ensures Moved(m, f, f) == m && IsMoved(m, f, f, m)
  {
    forall k: string
      ensures Move(f, f, k) == k
    {
      MoveSame(f, k);
    }
  }

  lemma SafeParts(f: string, t: string, k: string)
    requires IsSafe(t) && IsSafe(k)
    ensures IsSafe(Move(f, t, k))
  {
  }

  lemma MoveChild(f: string, t: string, p: string, name: string)
    requires Inside(f, p)
    ensures Move(f, t, p + "/" + name) == Move(f, t, p) + "/" + name
  {
    var k := p + "/" + name;
    assert Under(f, k);
    assert k[|f|..] == p[|f|..] + "/" + name;
  }

  lemma MoveNormal(f: string, t: string, k: string)
    requires IsNormal(f) && f != "/" && IsNormal(t) && t != "/" && IsNormal(k) && Inside(f, k)
    ensures IsNormal(Move(f, t, k)) && Move(f, t, k) != "/"
  {
    RootShort(t);
    if k == f {
      assert t + k[|f|..] == t;
    } else {
      RebaseNormal(f, t, k);
    }
  }

  /** Parents move with their children. */
  lemma MovedParent(m: Entries, f: string, t: string, k: string)
    requires IsTree(m) && Apart(m, f, t) && k in m && Under(f, k)
    ensures ParentPath(k).Some? && ParentPath(k).value in m
    ensures ParentPath(Move(f, t, k)) == Some(Move(f, t, ParentPath(k).value))
  {
    assert GoodKey(m, k);
    UnderParent(f, k);
    var p, name := IsChild(k);
    RootShort(f);
    MoveNormal(f, t, p);
    MoveChild(f, t, p, name);
    ParentOfChild(Move(f, t, p), name);
  }

  lemma RootShort(k: string)
    requires IsNormal(k) && k != "/"
    ensures |k| >= 2
  {
    var p, name := IsChild(k);
  }

  lemma MovedGood(m: Entries, f: string, t: string, k: string)
    requires IsTree(m) && Apart(m, f, t) && IsSafe(t) && HasParent(m, t) && k in m
    ensures GoodKey(Moved(m, f, t), Move(f, t, k))
  {
    var m' := Moved(m, f, t);
    MovedEntry(m, f, t, k);
    assert GoodKey(m, k);
    SafeParts(f, t, k);
    if k == f {
      KeptParent(m, f, t, t);
      assert t + k[|f|..] == t;
    } else if Under(f, k) {
      MoveNormal(f, t, k);
      MovedParent(m, f, t, k);
      MovedEntry(m, f, t, ParentPath(k).value);
    } else if k != "/" {
      KeptParent(m, f, t, k);
    }
  }

  /** The parent of a key that does not move does not move. */
  lemma KeptParent(m: Entries, f: string, t: string, k: string)
    requires Apart(m, f, t) && IsNormal(k) && !Under(f, k) && k != "/" && HasParent(m, k)
    ensures HasParent(Moved(m, f, t), k)
  {
    var p, name := IsChild(k);
    RootShort(f);
    assert Inside(f, p) ==> Under(f, k);
    MovedEntry(m, f, t, p);
  }

  lemma MovedTree(m: Entries, f: string, t: string)
    requires IsTree(m) && Apart(m, f, t) && IsSafe(t) && HasParent(m, t)
    ensures IsTree(Moved(m, f, t))
  {
    forall k | k in Moved(m, f, t)
      ensures GoodKey(Moved(m, f, t), k)
    {
      MovedFrom(m, f, t, k);
      MovedGood(m, f, t, Move(t, f, k));
    }
  }

  lemma InsideBoth(f: string, t: string, k: string)
    requires Inside(f, k) && Inside(t, k)
    ensures f == t || Under(f, t) || Under(t, f)
  {
    assert f == k[..|f|] && t == k[..|t|];
    assert |f| < |t| ==> t[..|f| + 1] == k[..|f| + 1] == f + "/";
    assert |t| < |f| ==> f[..|t| + 1] == k[..|t| + 1] == t + "/";
  }

  lemma MovedOut(f: string, t: string, k: string)
    requires f != t && !Under(f, t) && !Under(t, f)
    ensures !Inside(f, Move(f, t, k))
  {
    var k' := Move(f, t, k);
    if Inside(f, k') && Inside(f, k) {
      MoveInside(f, t, k);
      InsideBoth(f, t, k');
    }
  }

  lemma MovedAllOut(m: Entries, f: string, t: string)
    requires Apart(m, f, t)
    ensures forall k :: k in Moved(m, f, t) ==> !Inside(f, k)
  {
    forall k | k in Moved(m, f, t)
      ensures !Inside(f, k)
    {
      MovedFrom(m, f, t, k);
      MovedOut(f, t, Move(t, f, k));
    }
  }

  lemma RootStays(m: Entries, f: string, t: string)
    requires Apart(m, f, t) && "/" in m
    ensures "/" in Moved(m, f, t)
  {
    RootShort(f);
    assert Move(f, t, "/") == "/";
    MovedEntry(m, f, t, "/");
  }

  /** Nothing is lost, duplicated or overwritten by a rename, and the old subtree is gone. */
  lemma RenameConserves(m: Entries, f: string, t: string, m': Entries)
    requires IsTree(m) && IsNormal(f) && IsNormal(t) && IsSafe(t) && CanRename(m, f, t)
    requires m' == Shift(m, f, t)
    ensures IsTree(m') && |m'| == |m| && IsMoved(m, f, t, m')
    ensures f != t ==> forall k :: k in m' ==> !Inside(f, k)
  {
    if f == t {
      MovedSame(m, f);
    } else {
      RenameApart(m, f, t);
      MovedTree(m, f, t);
      MovedSize(m, f, t);
      MovedIs(m, f, t);
      MovedAllOut(m, f, t);
    }
  }

  lemma ReverseApart(m: Entries, f: string, t: string, m': Entries)
    requires IsTree(m) && Apart(m, f, t) && CanRename(m, f, t) && m' == Moved(m, f, t)
    ensures Apart(m', t, f) && CanRename(m', t, f)
  {
    MovedAllOut(m, f, t);
    MovedEntry(m, f, t, f);
    assert t + f[|f|..] == t;
    assert GoodKey(m, f);
    KeptParent(m, f, t, f);
  }

  lemma Reversed(m: Entries, f: string, t: string, m': Entries)
    requires Apart(m, f, t) && m' == Moved(m, f, t)
    ensures IsMoved(m', t, f, m)
  {
    forall k | k in m'
      ensures Move(t, f, k) in m && m[Move(t, f, k)] == m'[k]
    {
      MovedFrom(m, f, t, k);
    }
    forall k | k in m
      ensures exists x :: x in m' && Move(t, f, x) == k
    {
      MovedEntry(m, f, t, k);
      MoveBack(f, t, k);
      assert Move(f, t, k) in m';
    }
  }

  /** Renaming back is allowed and restores every entry. */
  lemma RenameBack(m: Entries, f: string, t: string, m': Entries)
    requires IsTree(m) && IsNormal(f) && IsNormal(t) && CanRename(m, f, t) && m' == Shift(m, f, t)
    ensures CanRename(m', t, f) && Shift(m', t, f) == m
  {
    if f == t {
      MovedSame(m, f);
    } else {
      RenameApart(m, f, t);
      ReverseApart(m, f, t, m');
      Reversed(m, f, t, m');
      MovedUnique(m', t, f, m);
    }
  }

  lemma RenameUndone(m: Entries, from: string, to: string)
    requires IsTree(m)
    ensures Rename(m, from, to) != m ==> Rename(Rename(m, from, to), to, from) == m
  {
    var f, t := Normalize(from), Normalize(to);
    if IsSafe(from) && IsSafe(to) && CanRename(m, f, t) {
      NormalizeNormal(from);
      NormalizeNormal(to);
      RenameBack(m, f, t, Shift(m, f, t));
    }
  }

  lemma SameRead(m: Entries, k: string, m': Entries, k': string)
    requires IsNormal(k) && IsSafe(k) && IsNormal(k') && IsSafe(k') && k in m && k' in m' && m[k] == m'[k']
    ensures ReadFile(m, k) == ReadFile(m', k')
  {
  }

  /** Reading follows a renamed file, and files elsewhere read as before. */
  lemma RenameThenRead(m: Entries, f: string, t: string, k: string)
    requires IsTree(m) && IsNormal(f) && IsNormal(t) && IsSafe(t) && CanRename(m, f, t) && k in m
    ensures ReadFile(Shift(m, f, t), Move(f, t, k)) == ReadFile(m, k)
  {
    assert GoodKey(m, k);
    if f == t {
      MovedSame(m, f);
      MoveSame(f, k);
    } else {
      RenameApart(m, f, t);
      MovedEntry(m, f, t, k);
      MovedGood(m, f, t, k);
      SameRead(m, k, Moved(m, f, t), Move(f, t, k));
    }
  }

  // ---- Spellings ----

  lemma UpAgain(name: string)
    requires IsName(name)
    ensures Normalize("/" + name + "/" + "..") == "/"
  {
    PathOne(name);
    KeyNormal([name]);
    CompsStep("/" + name, "..");
    assert Slashes("..") == "..";
    SplitPlain("..");
    assert Resolve([name], [".."]) == Resolve([], [".."][1..]);
  }

  /** Not every spelling will do: a control character that resolves away still gets a path refused. */
  lemma UnsafeSpelling(name: string)
    requires IsName(name) && !IsSafe(name)
    ensures
      var path := "/" + name + "/" + "..";
      Normalize(path) == "/" && CreateDir(map[], path) == map[] && CreateDir(map[], "/") == map["/" := Directory]
  {
    UpAgain(name);
    var path := "/" + name + "/" + "..";
    var i :| 0 <= i < |name| && !IsSafeChar(name[i]);
    assert path[i + 1] == name[i];
    KeyNormal([]);
  }

  // ---- Every run ----

  lemma ShiftTree(m: Entries, f: string, t: string)
    requires IsTree(m) && IsNormal(f) && IsNormal(t) && IsSafe(t)
    ensures IsTree(Shift(m, f, t)) && ("/" in m ==> "/" in Shift(m, f, t))
  {
    if CanRename(m, f, t) && f == t {
      MovedSame(m, f);
    } else if CanRename(m, f, t) {
      RenameApart(m, f, t);
      MovedTree(m, f, t);
      if "/" in m {
        RootStays(m, f, t);
      }
    }
  }

  lemma StepTree(m: Entries, op: Op)
    requires IsTree(m)
    ensures IsTree(Apply(m, op)) && ("/" in m ==> "/" in Apply(m, op))
  {
    match op
    case MakeDir(path) => CreateTree(m, path, []);
    case MakeFile(path, content) => CreateTree(m, path, content);
    case Unlink(path) => DropTree(m, Normalize(path));
    case MoveTo(from, to) =>
      if IsSafe(from) && IsSafe(to) {
        NormalizeNormal(from);
        NormalizeNormal(to);
        NormalizeSafe(to);
        ShiftTree(m, Normalize(from), Normalize(to));
      }
  }

  /** From the empty map, every reachable filesystem is a tree, and its root never goes away. */
  lemma {:induction false} RunTree(m: Entries, ops: seq<Op>)
    requires IsTree(m)
    ensures IsTree(Run(m, ops)) && ("/" in m ==> IsDir(Run(m, ops), "/"))
    decreases |ops|
  {
    if ops != [] {
      StepTree(m, ops[0]);
      RunTree(Apply(m, ops[0]), ops[1..]);
    } else {
      assert "/" in m ==> GoodKey(m, "/");
    }
  }
}

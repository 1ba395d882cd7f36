/** The filesystem object shared by the file-serving protocols. */
module VirtualFilesystems {
  import opened Common
  import opened VfsPaths
  import opened VfsTree
  import opened VfsListing
  import opened VfsDefaults

  method NormalizePath(path: string) returns (r: string)
    ensures r == Normalize(path)
  {
    var parts := Split(Slashes(path));
    var components: seq<string> := [];
    var i := 0;
    while i < |parts|
      invariant 0 <= i <= |parts|
      invariant Resolve(components, parts[i..]) == Comps(path)
    {
      var component := parts[i];
      assert parts[i..][0] == component && parts[i..][1..] == parts[i + 1..];
      if component == "" || component == "." {
      } else if component == ".." {
        if components != [] {
          components := components[..|components| - 1];
        }
      } else {
        components := components + [component];
      }
      i := i + 1;
    }
    if components == [] {
      r := "/";
    } else {
      r := Path(components);
    }
  }

  // ---- A rename in progress ----

  /** The keys in `done` have moved, the others have not. */
  ghost predicate IsPart(m: Entries, f: string, t: string, done: set<string>, e: Entries) {
    && (forall k :: k in m && k in done ==> Move(f, t, k) in e && e[Move(f, t, k)] == m[k])
    && (forall k :: k in m && k !in done ==> k in e && e[k] == m[k])
    && (forall k :: k in e ==> (k in m && k !in done) || exists x :: x in m && x in done && Move(f, t, x) == k)
  }

  lemma MoveInjective(m: Entries, f: string, t: string, a: string, b: string)
    requires Apart(m, f, t) && a in m && b in m && Move(f, t, a) == Move(f, t, b)
    ensures a == b
  {
    MoveBack(f, t, a);
    MoveBack(f, t, b);
  }

  lemma PartStep(m: Entries, f: string, t: string, done: set<string>, e: Entries, x: string, e': Entries)
    requires Apart(m, f, t) && IsPart(m, f, t, done, e)
    requires x in m && x !in done && Inside(f, x) && forall k :: k in done ==> Inside(f, k)
    requires e' == (e - {x})[Move(f, t, x) := m[x]]
    ensures IsPart(m, f, t, done + {x}, e')
  {
    MoveInside(f, t, x);
    forall k | k in m && k in done
      ensures Move(f, t, k) in e' && e'[Move(f, t, k)] == m[k]
    {
      MoveInside(f, t, k);
      if Move(f, t, k) == Move(f, t, x) {
        MoveInjective(m, f, t, k, x);
      }
    }
    forall k | k in e'
      ensures (k in m && k !in done + {x}) || exists y :: y in m && y in done + {x} && Move(f, t, y) == k
    {
      if k != Move(f, t, x) && !(k in m && k !in done) {
        var y :| y in m && y in done && Move(f, t, y) == k;
        assert y in done + {x};
      }
    }
  }

  /** The loop over children has moved everything once none is left. */
  lemma PartDone(m: Entries, f: string, t: string, done: set<string>, e: Entries)
    requires Apart(m, f, t) && IsPart(m, f, t, done, e)
    requires forall k :: k in m ==> (k in done <==> Inside(f, k))
    ensures e == Moved(m, f, t)
  {
    forall k | k in m
      ensures Move(f, t, k) in e && e[Move(f, t, k)] == m[k]
    {
    }
    forall k | k in e
      ensures exists x :: x in m && Move(f, t, x) == k
    {
      if k in m && k !in done {
        assert Move(f, t, k) == k;
      }
    }
    MovedUnique(m, f, t, e);
  }

  /** A rename of `f` to `t` that has moved the keys in `done`. */
  ghost predicate InProgress(m: Entries, f: string, t: string, done: set<string>, e: Entries) {
    && f in done && (forall k :: k in done ==> k in m && Inside(f, k))
    && if f == t then e == m else Apart(m, f, t) && IsPart(m, f, t, done, e)
  }

  lemma ProgressStep(m: Entries, f: string, t: string, done: set<string>, e: Entries, x: string)
    requires InProgress(m, f, t, done, e) && x in m && x !in done && Inside(f, x)
    ensures x in e && e[x] == m[x]
    ensures InProgress(m, f, t, done + {x}, (e - {x})[Move(f, t, x) := e[x]])
  {
    if f == t {
      MoveSame(f, x);
      assert (e - {x})[x := e[x]] == e;
    } else {
      PartStep(m, f, t, done, e, x, (e - {x})[Move(f, t, x) := e[x]]);
    }
  }

  lemma ProgressStart(m: Entries, f: string, t: string)
    requires IsTree(m) && IsNormal(f) && IsNormal(t) && CanRename(m, f, t)
    ensures InProgress(m, f, t, {f}, (m - {f})[t := m[f]])
  {
    assert t + f[|f|..] == t;
    if f == t {
      assert (m - {f})[t := m[f]] == m;
    } else {
      RenameApart(m, f, t);
      assert IsPart(m, f, t, {}, m);
      PartStep(m, f, t, {}, m, f, (m - {f})[t := m[f]]);
      assert {} + {f} == {f};
    }
  }

  lemma ProgressChildren(m: Entries, f: string, t: string, e: Entries, k: string)
    requires InProgress(m, f, t, {f}, e) && Under(f, k)
    ensures k in e <==> k in m
  {
    assert t + f[|f|..] == t;
  }

  lemma ProgressDone(m: Entries, f: string, t: string, done: set<string>, e: Entries)
    requires InProgress(m, f, t, done, e) && forall k :: k in m && Inside(f, k) ==> k in done
    ensures e == Moved(m, f, t)
  {
    if f == t {
      MovedSame(m, f);
    } else {
      PartDone(m, f, t, done, e);
    }
  }

  lemma RebasedKey(m: Entries, f: string, t: string, k: string)
    requires IsTree(m) && IsNormal(f) && IsNormal(t) && CanRename(m, f, t) && k in m && Under(f, k)
    ensures Normalize(t + "/" + k[|f| + 1..]) == Move(f, t, k)
  {
    assert GoodKey(m, k);
    RebaseNormal(f, t, k);
  }

  lemma NothingUnder(m: Entries, f: string)
    requires IsTree(m) && IsNormal(f) && f != "/" && f in m && m[f].File?
    ensures forall k :: k in m ==> !Under(f, k)
  {
    forall k | k in m
      ensures !Under(f, k)
    {
      if Under(f, k) {
        Ancestor(m, f, k);
      }
    }
  }

  class VirtualFilesystem {
    var entries: Entries

    ghost predicate Valid()
      reads this
    {
      IsTree(entries)
    }

    /** The filesystem served when there is no directory on disk to take it from. */
    constructor (readme: seq<Byte>, manual: seq<Byte>, bashrc: seq<Byte>, syslog: seq<Byte>)
      ensures Valid() && entries == WithFiles(DEFAULT_DIRS, readme, manual, bashrc, syslog)
    {
      entries := map[];
      new;
      MakeDefaultDirs();
      MakeDefaultFiles(readme, manual, bashrc, syslog);
    }

    method MakeDefaultDirs()
      requires entries == map[]
      modifies this
      ensures Valid() && entries == DEFAULT_DIRS
    {
      MakeSharedDirs();
      LogPlace();
      TmpPlace();
      AddDefaultDir("/var", "/", "var");
      AddDefaultDir("/var/log", "/var", "log");
      AddDefaultDir("/tmp", "/", "tmp");
    }

    method MakeRoot()
      requires entries == map[]
      modifies this
      ensures Valid() && entries == map["/" := Directory]
    {
      RootDir();
      CreateDir("/");
    }

    method MakePublicDirs()
      requires entries == map[]
      modifies this
      ensures Valid() && OnlyDirs(entries) && entries == PUBLIC_DIRS
    {
      MakeRoot();
      DocsPlace();
      AddDefaultDir("/pub", "/", "pub");
      AddDefaultDir("/pub/docs", "/pub", "docs");
    }

    method MakeSharedDirs()
      requires entries == map[]
      modifies this
      ensures Valid() && OnlyDirs(entries) && entries == SHARED_DIRS
    {
      MakePublicDirs();
      AdminPlace();
      AddDefaultDir("/home", "/", "home");
      AddDefaultDir("/home/admin", "/home", "admin");
    }

    method AddDefaultDir(path: string, ghost p: string, ghost name: string)
      requires Valid() && OnlyDirs(entries) && p in entries && Sits(path, p, name)
      modifies this
      ensures Valid() && OnlyDirs(entries) && entries == old(entries)[path := Directory]
    {
      AddDir(entries, path, p, name);
      CreateDir(path);
    }

    method MakeDefaultFiles(readme: seq<Byte>, manual: seq<Byte>, bashrc: seq<Byte>, syslog: seq<Byte>)
      requires Valid() && entries == DEFAULT_DIRS
      modifies this
      ensures Valid() && entries == WithFiles(DEFAULT_DIRS, readme, manual, bashrc, syslog)
    {
      DirsOnly();
      FilesAreNoDirs();
      ReadmePlace();
      DocsPlace();
      AdminPlace();
      LogPlace();
      AddDefaultFile("/pub/readme.txt", readme, "/pub", "readme.txt");
      AddDefaultFile("/pub/docs/manual.pdf", manual, "/pub/docs", "manual.pdf");
      AddDefaultFile("/home/admin/.bashrc", bashrc, "/home/admin", ".bashrc");
      AddDefaultFile("/var/log/syslog", syslog, "/var/log", "syslog");
    }

    method AddDefaultFile(path: string, content: seq<Byte>, ghost p: string, ghost name: string)
      requires Valid() && DefaultDirs(entries) && p in DEFAULT_DIRS && path !in DEFAULT_DIRS
      requires Sits(path, p, name)
      modifies this
      ensures Valid() && DefaultDirs(entries) && entries == old(entries)[path := File(content, |content|)]
    {
      AddFile(entries, DEFAULT_DIRS, path, p, name, content);
      CreateFile(path, content);
    }

    method CreateDir(path: string)
      requires Valid()
      modifies this
      ensures Valid() && entries == VfsTree.CreateDir(old(entries), path)
    {
      CreateTree(entries, path, []);
      if !IsSafe(path) {
        return;
      }
      var key := NormalizePath(path);
      if key != "/" {
        var parent := ParentPath(key).value;
        if !(parent in entries && entries[parent].Directory?) {
          return;
        }
      }
      if key !in entries {
        entries := entries[key := Directory];
      }
    }

    method CreateFile(path: string, content: seq<Byte>)
      requires Valid()
      modifies this
      ensures Valid() && entries == VfsTree.CreateFile(old(entries), path, content)
    {
      CreateTree(entries, path, content);
      if !IsSafe(path) {
        return;
      }
      var key := NormalizePath(path);
      if key == "/" {
        return;
      }
      var parent := ParentPath(key).value;
      if !(parent in entries && entries[parent].Directory?) {
        return;
      }
      if key in entries && entries[key].Directory? {
        return;
      }
      entries := entries[key := File(content, |content|)];
    }

    method Delete(path: string) returns (ok: bool)
      requires Valid()
      modifies this
      ensures Valid() && entries == VfsTree.Delete(old(entries), path)
      ensures ok <==> Deletes(old(entries), path)
    {
      DropTree(entries, Normalize(path));
      if !IsSafe(path) {
        return false;
      }
      var key := NormalizePath(path);
      if key == "/" {
        return false;
      }
      if key in entries && entries[key].Directory? && exists x :: x in entries && Under(key, x) {
        return false;
      }
      ok := key in entries;
      assert !ok ==> entries - {key} == entries;
      entries := entries - {key};
    }

    method Exists(path: string) returns (r: bool)
      ensures r <==> Present(entries, path)
    {
      if !IsSafe(path) {
        return false;
      }
      var key := NormalizePath(path);
      r := key in entries;
    }

    method Get(path: string) returns (r: Option<seq<Byte>>)
      requires Valid()
      ensures r == ReadFile(entries, path)
      ensures r.Some? ==> entries[Normalize(path)] == File(r.value, |r.value|)
    {
      if !IsSafe(path) {
        return None;
      }
      var key := NormalizePath(path);
      if key in entries && entries[key].File? {
        assert GoodKey(entries, key);
        return Some(entries[key].content);
      }
      r := None;
    }

    method List(path: string) returns (r: seq<Item>)
      ensures Shows(entries, path, r)
    {
      if !IsSafe(path) {
        return [];
      }
      var p := NormalizePath(path);
      var found := Collect(p);
      SortMembers(found);
      SortSorted(found);
      r := SortByName(found);
    }

    /** One pass over the entries, in any order. */
    method Collect(p: string) returns (found: seq<Item>)
      ensures Distinct(found)
      ensures forall x :: x in found ==> Lists(entries, p, x.name) && x == ItemOf(entries, p, x.name)
      ensures forall name :: Lists(entries, p, name) ==> ItemOf(entries, p, name) in found
    {
      var prefix := if p == "/" then "/" else p + "/";
      found := [];
      var keys := entries.Keys;
      while keys != {}
        invariant keys <= entries.Keys && Distinct(found)
        invariant forall x :: x in found ==>
                    Lists(entries, p, x.name) && x == ItemOf(entries, p, x.name) && Child(p, x.name) !in keys
        invariant forall name :: Lists(entries, p, name) && Child(p, name) !in keys ==>
                    ItemOf(entries, p, name) in found
        decreases |keys|
      {
        var key :| key in keys;
        keys := keys - {key};
        if key != p && prefix <= key {
          var rest := key[|prefix|..];
          assert key == prefix + rest == Child(p, rest);
          if '/' !in rest && rest != "" {
            found := found + [Item(rest, entries[key].Directory?, entries[key].Size())];
          }
        }
      }
    }

    method Rename(from: string, to: string) returns (ok: bool)
      requires Valid()
      modifies this
      ensures Valid() && entries == VfsTree.Rename(old(entries), from, to)
      ensures ok <==> Renames(old(entries), from, to)
    {
      if !IsSafe(from) || !IsSafe(to) {
        return false;
      }
      NormalizeNormal(from);
      NormalizeNormal(to);
      NormalizeSafe(to);
      var f := NormalizePath(from);
      var t := NormalizePath(to);
      ok := RenameKeys(f, t);
    }

    method RenameKeys(f: string, t: string) returns (ok: bool)
      requires Valid() && IsNormal(f) && IsNormal(t) && IsSafe(t)
      modifies this
      ensures Valid() && entries == Shift(old(entries), f, t)
      ensures ok <==> CanRename(old(entries), f, t)
    {
      ShiftTree(entries, f, t);
      if f == "/" || f !in entries || (t != f && t in entries) || t == "/" {
        return false;
      }
      var parent := ParentPath(t).value;
      if !(parent in entries && entries[parent].Directory?) {
        return false;
      }
      if entries[f].Directory? && Under(f, t) {
        return false;
      }
      MoveEntry(f, t);
      ok := true;
    }

    /** The entry itself, then each child found under the old name, in any order. */
    method MoveEntry(f: string, t: string)
      requires Valid() && IsNormal(f) && IsNormal(t) && CanRename(entries, f, t)
      modifies this
      ensures entries == Moved(old(entries), f, t)
    {
      ghost var m, done := entries, {f};
      var entry := entries[f];
      ProgressStart(entries, f, t);
      entries := (entries - {f})[t := entry];
      if entry.Directory? {
        var children := set k | k in entries && Under(f, k);
        forall k | Under(f, k)
          ensures k in entries <==> k in m
        {
          ProgressChildren(m, f, t, entries, k);
        }
        while children != {}
          invariant InProgress(m, f, t, done, entries)
          invariant children !! done
          invariant forall k :: k in children ==> k in m && Under(f, k)
          invariant forall k :: k in m && Inside(f, k) ==> k in done || k in children
          decreases |children|
        {
          var oldKey :| oldKey in children;
          children := children - {oldKey};
          ProgressStep(m, f, t, done, entries, oldKey);
          var childEntry := entries[oldKey];
          var newKey := NormalizePath(t + "/" + oldKey[|f| + 1..]);
          RebasedKey(m, f, t, oldKey);
          entries := (entries - {oldKey})[newKey := childEntry];
          done := done + {oldKey};
        }
      } else {
        NothingUnder(m, f);
      }
      ProgressDone(m, f, t, done, entries);
    }
  }
}

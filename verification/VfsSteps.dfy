/** What each component does to a path, and what each operation does to the tree, said without the definitions. */
module VfsSteps {
  import opened Common
  import opened VfsPaths
  import opened VfsTree
  import opened VfsListing

  // ---- Paths, component by component ----

  lemma ResolveLast(cs: seq<string>, part: string)
    ensures Resolve(cs, [part])
         == if part == "" || part == "." then cs
            else if part == ".." then (if cs == [] then [] else cs[..|cs| - 1])
            else cs + [part]
  {
    assert [part][1..] == [];
  }

  lemma StepComps(path: string, part: string)
    requires '/' !in part && '\\' !in part
    ensures Comps(path + "/" + part) == Resolve(Comps(path), [part])
  {
    CompsStep(path, part);
    assert Slashes(part) == part;
    SplitPlain(part);
  }

  /** A name goes down: the normal form gets one more component. */
  lemma NameDescends(p: string, name: string)
    requires IsNormal(p) && IsName(name)
    ensures Normalize(p + "/" + name) == Child(p, name)
  {
    NormalComps(p);
    StepComps(p, name);
    ResolveLast(Comps(p), name);
    ChildKey(Comps(p), name);
  }

  /** `..` goes up by exactly one component, at any depth, and stays at the root. */
  lemma DotsAscend(p: string, name: string)
    requires IsNormal(p) && IsName(name)
    ensures Normalize(Child(p, name) + "/" + "..") == p
    ensures Normalize("/" + "..") == "/" && Normalize("/" + "/" + "..") == "/"
  {
    NormalComps(p);
    var cs := Comps(p);
    ChildKey(cs, name);
    KeyNormal(cs + [name]);
    StepComps(Child(p, name), "..");
    ResolveLast(cs + [name], "..");
    assert (cs + [name])[..|cs|] == cs;
    KeyNormal([]);
    EmptyComps();
    StepComps("/", "..");
    StepComps("", "..");
    assert "" + "/" + ".." == "/" + "..";
    ResolveLast([], "..");
  }

  lemma EmptyComps()
    ensures Comps("") == []
  {
    assert Slashes("") == "";
    assert [""][1..] == [];
  }

  /** Empty components and `.` change nothing. */
  lemma NothingStays(p: string)
    requires IsNormal(p)
    ensures Normalize(p + "/" + "") == p && Normalize(p + "/" + ".") == p
  {
    NormalComps(p);
    StepComps(p, "");
    StepComps(p, ".");
    ResolveLast(Comps(p), "");
    ResolveLast(Comps(p), ".");
  }

  /** Every path starts at the root, and a backslash separates as a slash does. */
  lemma RootedAlike(path: string, a: string, b: string)
    ensures Normalize(path) == Normalize("/" + path) && Normalize("") == "/"
    ensures Normalize(a + "\\" + b) == Normalize(a + "/" + b)
  {
    EmptyComps();
    CompsStep("", path);
    assert "" + "/" + path == "/" + path;
    assert Slashes(a + "\\" + b) == Slashes(a + "/" + b);
  }

  /** By code point: not a control character, and not a line or paragraph separator. */
  predicate Printable(c: char) {
    (c as int) >= 0x20 && !(0x7F <= (c as int) <= 0x9F) && (c as int) != 0x2028 && (c as int) != 0x2029
  }

  lemma PrintableIs(c: char)
    ensures IsSafeChar(c) <==> Printable(c)
  {
  }

  /** A path is refused for what it holds that is not printable, and for nothing else. */
  lemma SafeExactly(path: string)
    ensures IsSafe(path) <==> forall c :: c in path ==> Printable(c)
  {
    forall c: char
      ensures IsSafeChar(c) <==> Printable(c)
    {
      PrintableIs(c);
    }
    assert forall i :: 0 <= i < |path| ==> path[i] in path;
  }

  /** An unsafe path is absent to every read and has no effect in any write. */
  lemma UnsafeRefused(m: Entries, path: string, other: string, content: seq<Byte>, r: seq<Item>)
    requires !IsSafe(path)
    ensures !Present(m, path) && ReadFile(m, path) == None && (Shows(m, path, r) ==> r == [])
    ensures CreateDir(m, path) == m && CreateFile(m, path, content) == m && Delete(m, path) == m && !Deletes(m, path)
    ensures Rename(m, path, other) == m && Rename(m, other, path) == m
    ensures !Renames(m, path, other) && !Renames(m, other, path)
  {
  }

  // ---- What the operations do, in terms of parents and children ----

  /** There is something in the directory. */
  ghost predicate HasChild(m: Entries, k: string) {
    exists name :: IsName(name) && Child(k, name) in m
  }

  /** The way from `k` down to something under it starts with a child of `k` that is there. */
  lemma {:induction false} FirstChild(m: Entries, k: string, x: string)
    requires IsTree(m) && IsNormal(k) && k != "/" && x in m && Under(k, x)
    ensures HasChild(m, k)
    decreases |x|
  {
    assert GoodKey(m, x);
    UnderParent(k, x);
    var p, name := IsChild(x);
    if p == k {
      assert Child(k, name) in m;
    } else {
      FirstChild(m, k, p);
    }
  }

  /** In a tree, what can be deleted is every entry but the root that has nothing in it. */
  lemma DeletesExactly(m: Entries, path: string)
    requires IsTree(m)
    ensures Deletes(m, path) <==>
            IsSafe(path) && Normalize(path) != "/" && Normalize(path) in m && !HasChild(m, Normalize(path))
    ensures forall k :: k in Delete(m, path) <==> k in m && !(Deletes(m, path) && k == Normalize(path))
    ensures forall k :: k in Delete(m, path) ==> Delete(m, path)[k] == m[k]
  {
    var k := Normalize(path);
    NormalizeNormal(path);
    if HasChild(m, k) && k != "/" && k in m {
      var name :| IsName(name) && Child(k, name) in m;
      ParentOfChild(k, name);
      assert GoodKey(m, Child(k, name));
      ParentAbove(Child(k, name), k);
    }
    if k != "/" && k in m && !HasChild(m, k) {
      forall x | x in m
        ensures !Under(k, x)
      {
        if Under(k, x) {
          FirstChild(m, k, x);
        }
      }
    }
  }

  /** `p` is a directory to put `k` into. */
  ghost predicate InDirectory(m: Entries, p: string, name: string, k: string) {
    IsNormal(p) && IsName(name) && k == Child(p, name) && IsDir(m, p)
  }

  lemma ParentIs(m: Entries, k: string)
    requires IsNormal(k)
    ensures HasParent(m, k) <==> exists p, name :: InDirectory(m, p, name, k)
  {
    if HasParent(m, k) {
      var p, name := IsChild(k);
      assert InDirectory(m, p, name, k);
    }
    if p, name :| InDirectory(m, p, name, k) {
      ParentOfChild(p, name);
    }
  }

  /** In a tree, an entry can go to any free place in a directory that is not the entry or inside it. */
  lemma RenamesExactly(m: Entries, from: string, to: string)
    requires IsTree(m)
    ensures Renames(m, from, to) <==>
            && IsSafe(from) && IsSafe(to) && Normalize(from) != "/" && Normalize(from) in m
            && (Normalize(to) == Normalize(from)
                || (Normalize(to) !in m && !Under(Normalize(from), Normalize(to))
                    && exists p, name :: InDirectory(m, p, name, Normalize(to))))
  {
    var f, t := Normalize(from), Normalize(to);
    NormalizeNormal(from);
    NormalizeNormal(to);
    ParentIs(m, t);
    if f != "/" && f in m {
      assert GoodKey(m, f);
      assert !Under(f, f);
      if Under(f, t) && HasParent(m, t) {
        ParentInside(m, f, t);
      }
    }
  }

  /** Only a directory has a place inside it. */
  lemma ParentInside(m: Entries, f: string, t: string)
    requires IsTree(m) && IsNormal(f) && f != "/" && IsNormal(t) && Under(f, t) && HasParent(m, t)
    ensures IsDir(m, f)
  {
    UnderParent(f, t);
    if ParentPath(t) != Some(f) {
      Ancestor(m, f, ParentPath(t).value);
    }
  }

  /** A new directory is there afterwards just when its place was free and in a directory; nothing else changes. */
  lemma MakesExactly(m: Entries, path: string)
    ensures forall k :: k in CreateDir(m, path) <==>
              k in m
              || (k == Normalize(path) && IsSafe(path)
                  && (k == "/" || exists p, name :: InDirectory(m, p, name, k)))
    ensures forall k :: k in CreateDir(m, path) ==>
              CreateDir(m, path)[k] == if k in m then m[k] else Directory
  {
    NormalizeNormal(path);
    ParentIs(m, Normalize(path));
  }

  /** A file is there afterwards, with its content, just when its place is in a directory and is not one. */
  lemma WritesExactly(m: Entries, path: string, content: seq<Byte>)
    ensures forall k :: k in CreateFile(m, path, content) <==>
              k in m || (k == Normalize(path) && IsSafe(path) && exists p, name :: InDirectory(m, p, name, k))
    ensures forall k :: k in CreateFile(m, path, content) ==>
              CreateFile(m, path, content)[k]
              == if k == Normalize(path) && IsSafe(path) && !IsDir(m, k) && exists p, name :: InDirectory(m, p, name, k)
                 then File(content, |content|) else m[k]
  {
    NormalizeNormal(path);
    ParentIs(m, Normalize(path));
  }

  // ---- Listings ----

  /** What exists in a directory is what its listing shows, files and directories alike. */
  lemma ExistsAsListed(m: Entries, p: string, r: seq<Item>, name: string)
    requires IsTree(m) && IsNormal(p) && IsListing(m, p, r) && IsName(name)
    ensures Present(m, Child(p, name)) <==> exists x :: x in r && x.name == name
  {
    ParentOfChild(p, name);
    var k := Child(p, name);
    if k in m {
      assert GoodKey(m, k);
      assert ItemOf(m, p, name) in r;
    }
  }

  /** Every item of a listing shows the kind and the size of its entry. */
  lemma ListedAs(m: Entries, p: string, r: seq<Item>, x: Item)
    requires IsTree(m) && IsListing(m, p, r) && x in r
    ensures Child(p, x.name) in m
    ensures m[Child(p, x.name)] == Directory ==> x.isDir && x.size == 0
    ensures m[Child(p, x.name)] != Directory ==> !x.isDir && x.size == |m[Child(p, x.name)].content|
  {
    assert GoodKey(m, Child(p, x.name));
  }

  /** `a` and `b` differ first at `i`, where `a` ends or has the smaller character. */
  ghost predicate FirstDiffers(a: string, b: string, i: nat) {
    && i <= |a| && i < |b| && a[..i] == b[..i] && (i == |a| || (a[i] as int) < (b[i] as int))
  }

  lemma {:induction false} LessExactly(a: string, b: string)
    ensures Less(a, b) <==> exists i: nat :: FirstDiffers(a, b, i)
  {
    if Less(a, b) {
      var i := LessFrom(a, b);
    }
    if i: nat :| FirstDiffers(a, b, i) {
      DiffersLess(a, b, i);
    }
  }

  lemma {:induction false} LessFrom(a: string, b: string) returns (i: nat)
    requires Less(a, b)
    ensures FirstDiffers(a, b, i)
  {
    if a == "" || a[0] < b[0] {
      i := 0;
    } else {
      var j := LessFrom(a[1..], b[1..]);
      i := j + 1;
      assert a[..i] == [a[0]] + a[1..][..j] && b[..i] == [b[0]] + b[1..][..j];
    }
  }

  lemma {:induction false} DiffersLess(a: string, b: string, i: nat)
    requires FirstDiffers(a, b, i)
    ensures Less(a, b)
  {
    if i > 0 {
      assert a[0] == a[..i][0] && b[0] == b[..i][0];
      assert a[1..][..i - 1] == a[..i][1..] && b[1..][..i - 1] == b[..i][1..];
      DiffersLess(a[1..], b[1..], i - 1);
    }
  }
}

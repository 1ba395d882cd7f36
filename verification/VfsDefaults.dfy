/** The entries of a filesystem that is not taken from a directory on disk. */
module VfsDefaults {
  import opened Common
  import opened VfsPaths
  import opened VfsTree

  const PUBLIC_DIRS: Entries := map["/" := Directory, "/pub" := Directory, "/pub/docs" := Directory]

  const SHARED_DIRS: Entries := PUBLIC_DIRS["/home" := Directory]["/home/admin" := Directory]

  const DEFAULT_DIRS: Entries := SHARED_DIRS["/var" := Directory]["/var/log" := Directory]["/tmp" := Directory]

  function WithFiles(m: Entries, readme: seq<Byte>, manual: seq<Byte>, bashrc: seq<Byte>, syslog: seq<Byte>): Entries {
    m["/pub/readme.txt" := File(readme, |readme|)]["/pub/docs/manual.pdf" := File(manual, |manual|)]
      ["/home/admin/.bashrc" := File(bashrc, |bashrc|)]["/var/log/syslog" := File(syslog, |syslog|)]
  }

  predicate IsGood(name: string) {
    IsName(name) && IsSafe(name)
  }

  /** `k` is the entry `name` of the directory `p`. */
  ghost predicate Sits(k: string, p: string, name: string) {
    IsNormal(p) && IsSafe(p) && IsGood(name) && k == Child(p, name)
  }

  lemma SitsNormal(k: string, p: string, name: string)
    requires Sits(k, p, name)
    ensures IsNormal(k) && IsSafe(k) && ParentPath(k) == Some(p) && k != "/"
  {
    ParentOfChild(p, name);
  }

  lemma SitsTwo(a: string, top: string, b: string, name: string)
    requires IsGood(top) && IsGood(name) && a == "/" + top && b == a + "/" + name
    ensures Sits(a, "/", top) && Sits(b, a, name)
  {
    KeyNormal([]);
    SitsNormal(a, "/", top);
  }

  lemma SitsThree(a: string, top: string, b: string, middle: string, c: string, name: string)
    requires IsGood(top) && IsGood(middle) && IsGood(name)
    requires a == "/" + top && b == a + "/" + middle && c == b + "/" + name
    ensures Sits(a, "/", top) && Sits(b, a, middle) && Sits(c, b, name)
  {
    SitsTwo(a, top, b, middle);
    SitsNormal(b, a, middle);
  }

  // ---- Directories ----

  lemma AddDir(m: Entries, k: string, p: string, name: string)
    requires Sits(k, p, name) && OnlyDirs(m) && p in m
    ensures CreateDir(m, k) == m[k := Directory] && OnlyDirs(m[k := Directory])
  {
    SitsNormal(k, p, name);
    DirAdded(m, k, p);
  }

  lemma RootDir()
    ensures CreateDir(map[], "/") == map["/" := Directory]
  {
    KeyNormal([]);
  }

  lemma DocsNames()
    ensures IsGood("pub") && IsGood("docs") && IsGood("manual.pdf")
  {
  }

  lemma DocsPlace()
    ensures Sits("/pub", "/", "pub") && Sits("/pub/docs", "/pub", "docs")
    ensures Sits("/pub/docs/manual.pdf", "/pub/docs", "manual.pdf")
  {
    DocsNames();
    SitsThree("/pub", "pub", "/pub/docs", "docs", "/pub/docs/manual.pdf", "manual.pdf");
  }

  lemma ReadmeNames()
    ensures IsGood("pub") && IsGood("readme.txt")
  {
  }

  lemma ReadmePlace()
    ensures Sits("/pub/readme.txt", "/pub", "readme.txt")
  {
    ReadmeNames();
    SitsTwo("/pub", "pub", "/pub/readme.txt", "readme.txt");
  }

  lemma AdminNames()
    ensures IsGood("home") && IsGood("admin") && IsGood(".bashrc")
  {
  }

  lemma AdminPlace()
    ensures Sits("/home", "/", "home") && Sits("/home/admin", "/home", "admin")
    ensures Sits("/home/admin/.bashrc", "/home/admin", ".bashrc")
  {
    AdminNames();
    SitsThree("/home", "home", "/home/admin", "admin", "/home/admin/.bashrc", ".bashrc");
  }

  lemma LogNames()
    ensures IsGood("var") && IsGood("log") && IsGood("syslog")
  {
  }

  lemma LogPlace()
    ensures Sits("/var", "/", "var") && Sits("/var/log", "/var", "log")
    ensures Sits("/var/log/syslog", "/var/log", "syslog")
  {
    LogNames();
    SitsThree("/var", "var", "/var/log", "log", "/var/log/syslog", "syslog");
  }

  lemma TmpPlace()
    ensures Sits("/tmp", "/", "tmp")
  {
    assert IsGood("tmp");
    KeyNormal([]);
  }

  // ---- Files ----

  /** The directories of `m` are `dirs`. */
  ghost predicate HasDirs(m: Entries, dirs: Entries) {
    forall k :: IsDir(m, k) <==> k in dirs
  }

  /** The directories are the default ones. */
  ghost predicate DefaultDirs(m: Entries) {
    HasDirs(m, DEFAULT_DIRS)
  }

  lemma FileKeepsDirs(m: Entries, dirs: Entries, k: string, content: seq<Byte>)
    requires HasDirs(m, dirs) && k !in dirs
    ensures HasDirs(m[k := File(content, |content|)], dirs)
  {
    forall x: string
      ensures IsDir(m[k := File(content, |content|)], x) <==> x in dirs
    {
      assert IsDir(m, x) <==> x in dirs;
    }
  }

  lemma AddFile(m: Entries, dirs: Entries, k: string, p: string, name: string, content: seq<Byte>)
    requires Sits(k, p, name) && HasDirs(m, dirs) && p in dirs && k !in dirs
    ensures CreateFile(m, k, content) == m[k := File(content, |content|)]
    ensures HasDirs(m[k := File(content, |content|)], dirs)
  {
    SitsNormal(k, p, name);
    FileKeepsDirs(m, dirs, k, content);
    assert IsDir(m, p) && !IsDir(m, k);
  }

  lemma FilesAreNoDirs()
    ensures "/pub/readme.txt" !in DEFAULT_DIRS && "/pub/docs/manual.pdf" !in DEFAULT_DIRS
    ensures "/home/admin/.bashrc" !in DEFAULT_DIRS && "/var/log/syslog" !in DEFAULT_DIRS
  {
    assert forall k :: k in DEFAULT_DIRS ==> |k| <= 11;
    assert |"/pub/readme.txt"| == 15 && |"/pub/docs/manual.pdf"| == 20;
    assert |"/home/admin/.bashrc"| == 19 && |"/var/log/syslog"| == 15;
  }

  /** A new filesystem, entry by entry. */
  lemma DefaultEntries(readme: seq<Byte>, manual: seq<Byte>, bashrc: seq<Byte>, syslog: seq<Byte>)
    ensures WithFiles(DEFAULT_DIRS, readme, manual, bashrc, syslog)
         == map["/" := Directory, "/pub" := Directory, "/pub/docs" := Directory, "/home" := Directory,
                "/home/admin" := Directory, "/var" := Directory, "/var/log" := Directory, "/tmp" := Directory,
                "/pub/readme.txt" := File(readme, |readme|), "/pub/docs/manual.pdf" := File(manual, |manual|),
                "/home/admin/.bashrc" := File(bashrc, |bashrc|), "/var/log/syslog" := File(syslog, |syslog|)]
  {
  }

  lemma DirsOnly()
    ensures DefaultDirs(DEFAULT_DIRS)
  {
  }
}

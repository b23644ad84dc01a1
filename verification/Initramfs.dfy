/** Unpacking the boot archive into the filesystem. */
module Initramfs {
  import opened Common
  import Paths
  import opened DirTree
  import opened DirOps
  import opened FsRuns

  // ----- the filesystem being filled -----

  /** Directories, file contents by inode number, and the next unused number. */
  datatype Fs = Fs(st: Store<nat>, files: map<nat, string>, next: nat)

  /** Numbers handed out so far lie below `next`. */
  ghost predicate Numbered(fs: Fs) {
    (forall d :: d in fs.st ==> d < fs.next) && (forall x :: x in fs.files ==> x < fs.next)
  }

  /** Binds a new file, over whatever the name was bound to; typed references are not touched. */
  function AddFile(fs: Fs, d: nat, name: string, data: string): (r: Fs) {
    if d !in fs.st then fs
    else
      var n := fs.st[d];
      var n' := n.(entries := n.entries[name := Leaf(fs.next)], count := if name in n.entries then n.count
        else n.count + 1);
      Fs(fs.st[d := n'], fs.files[fs.next := data], fs.next + 1)
  }

  /** The typed subdirectory of that name, or a new one bound over whatever the name was bound to. */
  function GetOrCreateSubdir(fs: Fs, d: nat, name: string): (r: (Fs, nat)) {
    if d !in fs.st then (fs, d)
    else if name in fs.st[d].subdirs then (fs, fs.st[d].subdirs[name])
    else
      var n := fs.st[d];
      var c := fs.next;
      var n' := DirNode(n.entries[name := Dir(c)], n.subdirs[name := c], if name in n.entries then n.count
        else n.count + 1);
      (Fs(fs.st[c := EmptyNode()][d := n'], fs.files, c + 1), c)
  }

  /** Every subdirectory is also recorded as a typed reference. */
  ghost predicate Typed(st: Store<nat>) {
    forall d, m :: d in st && Lookup(st, Dir(d), m).Ok? && Lookup(st, Dir(d), m).value.Dir? ==>
      m in st[d].subdirs && st[d].subdirs[m] == Lookup(st, Dir(d), m).value.dir
  }

  ghost predicate TypedBelow(st: Store<nat>) {
    forall d, m :: d in st && m in st[d].subdirs ==> m in st[d].entries && st[d].entries[m] == Dir(st[d].subdirs[m])
  }

  ghost predicate FsOk(fs: Fs, root: nat) {
    Shape(fs.st, root) && Numbered(fs) && Typed(fs.st) && TypedBelow(fs.st)
  }

  /** Every path leads to the file `tree` gives it, to a directory if it is in `dirs`, or nowhere. */
  ghost predicate PathIs(fs: Fs, root: nat, tree: map<Path, string>, dirs: set<Path>, p: Path) {
    var r := Resolve(fs.st, Dir(root), p);
    if p in tree then r.Ok? && r.value.Leaf? && r.value.ino in fs.files && fs.files[r.value.ino] == tree[p]
    else if p in dirs then r.Ok? && r.value.Dir?
    else r.Err?
  }

  ghost predicate Contents(fs: Fs, root: nat, tree: map<Path, string>, dirs: set<Path>) {
    FsOk(fs, root) && forall p :: PathIs(fs, root, tree, dirs, p)
  }

  // ----- one directory level -----

  lemma SubdirIsCreateDir(fs: Fs, d: nat, name: string)
    requires d in fs.st && name !in fs.st[d].entries && name !in fs.st[d].subdirs && fs.next !in fs.st
    ensures GetOrCreateSubdir(fs, d, name).0.st == CreateDir(fs.st, Dir(d), name, fs.next).st
  {
  }

  lemma FileIsCreateFile(fs: Fs, d: nat, name: string, data: string)
    requires d in fs.st && name !in fs.st[d].entries
    ensures AddFile(fs, d, name, data).st == CreateFile(fs.st, Dir(d), name, fs.next).st
  {
  }

  lemma FreshNumber(fs: Fs)
    requires Numbered(fs)
    ensures fs.next !in fs.st && fs.next !in fs.files
  {
  }

  lemma SubdirTyped(fs: Fs, d: nat, name: string)
    requires Numbered(fs) && Typed(fs.st) && TypedBelow(fs.st) && d in fs.st && name !in fs.st[d].entries
    ensures var fs' := GetOrCreateSubdir(fs, d, name).0; Numbered(fs') && Typed(fs'.st) && TypedBelow(fs'.st)
  {
  }

  lemma FileTyped(fs: Fs, d: nat, name: string, data: string)
    requires Numbered(fs) && Typed(fs.st) && TypedBelow(fs.st) && d in fs.st && name !in fs.st[d].entries
    ensures var fs' := AddFile(fs, d, name, data); Numbered(fs') && Typed(fs'.st) && TypedBelow(fs'.st)
  {
  }

  lemma FsOkGives(fs: Fs, root: nat)
    requires FsOk(fs, root)
    ensures Shape(fs.st, root) && Numbered(fs) && Typed(fs.st) && TypedBelow(fs.st)
    ensures Rooted(fs.st, root) && Closed(fs.st)
  {
    hide Rooted, Closed, Acyclic, Numbered, Typed, TypedBelow;
  }

  lemma NewSubdirOk(fs: Fs, root: nat, at: Path, d: nat, name: string)
    requires FsOk(fs, root) && Resolve(fs.st, Dir(root), at) == Ok(Dir(d)) && d in fs.st && name !in fs.st[d].entries
    ensures var r := GetOrCreateSubdir(fs, d, name);
            && FsOk(r.0, root) && r.1 == fs.next && r.0.files == fs.files
            && SameElsewhere(fs.st, r.0.st, root, at + [name])
            && Resolve(r.0.st, Dir(root), at + [name]) == Ok(Dir(r.1))
            && (forall s :: s != [] ==> Resolve(r.0.st, Dir(root), at + [name] + s).Err?)
  {
    hide Shape, Numbered, Typed, TypedBelow, Resolve, SameElsewhere, Rooted, Closed;
    FsOkGives(fs, root);
    FreshNumber(fs);
    NotTyped(fs.st, d, name);
    SubdirIsCreateDir(fs, d, name);
    SubdirTyped(fs, d, name);
    CreateDirKeepsShape(fs.st, root, Dir(d), name, fs.next);
    CreateDirSameExcept(fs.st, d, name, fs.next);
    var st' := GetOrCreateSubdir(fs, d, name).0.st;
    var p := at + [name];
    ParentBase(at, name);
    OneEntrySeen(fs.st, st', root, p, d);
    forall s
      ensures Resolve(st', Dir(root), p + s) == if s == [] then Ok(Dir(fs.next)) else Err(ENOENT)
    {
      NewDirectoryPaths(st', root, p, d, fs.next, s);
    }
    assert p + [] == p;
  }

  lemma ParentBase(at: Path, name: string)
    ensures Parent(at + [name]) == at && Base(at + [name]) == name
  {
    assert (at + [name])[..|at|] == at;
  }

  lemma NotTyped(st: Store<nat>, d: nat, name: string)
    requires TypedBelow(st) && d in st && name !in st[d].entries
    ensures name !in st[d].subdirs
  {
  }

  lemma NewFileOk(fs: Fs, root: nat, at: Path, d: nat, name: string, data: string)
    requires FsOk(fs, root) && Resolve(fs.st, Dir(root), at) == Ok(Dir(d)) && d in fs.st && name !in fs.st[d].entries
    ensures var fs' := AddFile(fs, d, name, data);
            && FsOk(fs', root) && fs'.files == fs.files[fs.next := data] && fs.next !in fs.files
            && SameElsewhere(fs.st, fs'.st, root, at + [name])
            && Resolve(fs'.st, Dir(root), at + [name]) == Ok(Leaf(fs.next))
            && (forall s :: s != [] ==> Resolve(fs'.st, Dir(root), at + [name] + s).Err?)
  {
    hide Shape, Numbered, Typed, TypedBelow, Resolve, SameElsewhere, Rooted, Closed;
    FsOkGives(fs, root);
    FreshNumber(fs);
    FileIsCreateFile(fs, d, name, data);
    FileTyped(fs, d, name, data);
    CreateFileEffect(fs.st, Dir(d), name, fs.next);
    CreateFileSameExcept(fs.st, d, name, fs.next);
    var st' := AddFile(fs, d, name, data).st;
    WithinKeepsShape(fs.st, st', root);
    var p := at + [name];
    ParentBase(at, name);
    OneEntrySeen(fs.st, st', root, p, d);
    AbsentEntryPath(st', root, p, d);
    forall s | s != []
      ensures Resolve(st', Dir(root), p + s).Err?
    {
      BelowEntry(st', root, at, d, name, s);
      LeafStuck(st', Leaf(fs.next), s);
    }
  }

  // ----- one path -----

  lemma ContentsGives(fs: Fs, root: nat, tree: map<Path, string>, dirs: set<Path>, p: Path)
    requires Contents(fs, root, tree, dirs)
    ensures FsOk(fs, root) && PathIs(fs, root, tree, dirs, p)
  {
    hide FsOk, PathIs;
  }

  lemma NothingBelow(fs: Fs, root: nat, tree: map<Path, string>, dirs: set<Path>, p: Path, s: Path)
    requires Contents(fs, root, tree, dirs) && Resolve(fs.st, Dir(root), p).Err?
    ensures p + s !in tree && p + s !in dirs
  {
    hide FsOk;
    ResolveAppend(fs.st, Dir(root), p, s);
    ContentsGives(fs, root, tree, dirs, p + s);
  }

  lemma SubdirFound(fs: Fs, root: nat, at: Path, d: nat, name: string)
    requires FsOk(fs, root) && Resolve(fs.st, Dir(root), at) == Ok(Dir(d)) && d in fs.st
    requires Resolve(fs.st, Dir(root), at + [name]).Ok? && Resolve(fs.st, Dir(root), at + [name]).value.Dir?
    ensures var r := GetOrCreateSubdir(fs, d, name);
            r.0 == fs && Resolve(fs.st, Dir(root), at + [name]) == Ok(Dir(r.1)) && r.1 in fs.st
  {
    hide Shape, Numbered, TypedBelow, Rooted, Closed;
    FsOkGives(fs, root);
    ParentBase(at, name);
    AbsentEntryPath(fs.st, root, at + [name], d);
    ResolveInStore(fs.st, root, at + [name]);
    assert Lookup(fs.st, Dir(d), name).Ok?;
  }

  lemma SubdirStep(fs: Fs, root: nat, tree: map<Path, string>, dirs: set<Path>, at: Path, d: nat, name: string)
    requires Contents(fs, root, tree, dirs) && at + [name] !in tree
    requires Resolve(fs.st, Dir(root), at) == Ok(Dir(d)) && d in fs.st
    ensures var r := GetOrCreateSubdir(fs, d, name); var p := at + [name];
            && Contents(r.0, root, tree, dirs + {p})
            && Resolve(r.0.st, Dir(root), p) == Ok(Dir(r.1)) && r.1 in r.0.st
  {
    hide FsOk, Resolve, GetOrCreateSubdir;
    var p := at + [name];
    var r := GetOrCreateSubdir(fs, d, name);
    ContentsGives(fs, root, tree, dirs, p);
    if Resolve(fs.st, Dir(root), p).Ok? {
      SubdirFound(fs, root, at, d, name);
      assert dirs + {p} == dirs;
    } else {
      ParentBase(at, name);
      AbsentEntryPath(fs.st, root, p, d);
      NewSubdirOk(fs, root, at, d, name);
      forall q
        ensures PathIs(r.0, root, tree, dirs + {p}, q)
      {
        ContentsGives(fs, root, tree, dirs, q);
        if p <= q {
          var s := q[|p|..];
          assert q == p + s;
          NothingBelow(fs, root, tree, dirs, p, s);
          assert s != [] ==> Resolve(r.0.st, Dir(root), p + s).Err?;
          assert s == [] ==> q == p;
        }
      }
      FsOkGives(r.0, root);
      ResolveInStore(r.0.st, root, p);
    }
  }

  lemma FileStep(fs: Fs, root: nat, tree: map<Path, string>, dirs: set<Path>, at: Path, d: nat, name: string,
      data: string)
    requires Contents(fs, root, tree, dirs) && at + [name] !in tree && at + [name] !in dirs
    requires Resolve(fs.st, Dir(root), at) == Ok(Dir(d)) && d in fs.st
    ensures Contents(AddFile(fs, d, name, data), root, tree[at + [name] := data], dirs)
  {
    hide FsOk, Resolve, AddFile;
    var p := at + [name];
    var fs' := AddFile(fs, d, name, data);
    ContentsGives(fs, root, tree, dirs, p);
    ParentBase(at, name);
    AbsentEntryPath(fs.st, root, p, d);
    NewFileOk(fs, root, at, d, name, data);
    var tree' := tree[p := data];
    forall q
      ensures PathIs(fs', root, tree', dirs, q)
    {
      ContentsGives(fs, root, tree, dirs, q);
      if p <= q {
        var s := q[|p|..];
        assert q == p + s;
        NothingBelow(fs, root, tree, dirs, p, s);
        assert s != [] ==> Resolve(fs'.st, Dir(root), p + s).Err?;
        assert s == [] ==> q == p;
      }
    }
  }

  /** The directory for a component list, making what is missing on the way. */
  function MakeDirs(fs: Fs, root: nat, cs: Path): (r: (Fs, nat)) {
    if cs == [] then (fs, root)
    else
      var r := MakeDirs(fs, root, cs[..|cs| - 1]);
      GetOrCreateSubdir(r.0, r.1, cs[|cs| - 1])
  }

  /** What one archive member does, and how many files it adds. */
  function Install(fs: Fs, root: nat, cs: Path, isDir: bool, data: string): (r: (Fs, nat)) {
    if cs == [] then (fs, 0)
    else if isDir then (MakeDirs(fs, root, cs).0, 0)
    else
      var m := MakeDirs(fs, root, cs[..|cs| - 1]);
      (AddFile(m.0, m.1, cs[|cs| - 1], data), 1)
  }

  /** The first `n + 1` prefixes of `cs`, from the empty one. */
  function Prefixes(cs: Path, n: nat): (s: set<Path>)
    requires n <= |cs|
  {
    if n == 0 then {[]} else Prefixes(cs, n - 1) + {cs[..n]}
  }

  lemma {:induction false} InPrefixes(cs: Path, n: nat, p: Path)
    requires n <= |cs|
    ensures p in Prefixes(cs, n) <==> p <= cs && |p| <= n
  {
    if n > 0 {
      InPrefixes(cs, n - 1, p);
      assert p <= cs && |p| == n ==> p == cs[..n];
    }
  }

  lemma ProperPrefixes(cs: Path, s: set<Path>)
    requires cs != [] && s == Prefixes(cs, |cs| - 1)
    ensures forall p :: p in s <==> p < cs
  {
    hide Prefixes;
    forall p
      ensures p in s <==> p < cs
    {
      InPrefixes(cs, |cs| - 1, p);
      ShorterPrefix(p, cs);
    }
  }

  lemma ShorterPrefix(p: Path, cs: Path)
    ensures p < cs <==> p <= cs && |p| < |cs|
  {
  }

  lemma {:induction false} PrefixesCut(cs: Path, k: nat, n: nat)
    requires n <= k <= |cs|
    ensures Prefixes(cs[..k], n) == Prefixes(cs, n)
  {
    if n > 0 {
      PrefixesCut(cs, k, n - 1);
      assert cs[..k][..n] == cs[..n];
    }
  }

  lemma {:induction false} MakeDirsOk(fs: Fs, root: nat, tree: map<Path, string>, dirs: set<Path>, cs: Path)
    requires Contents(fs, root, tree, dirs) && [] in dirs && forall k :: 0 <= k <= |cs| ==> cs[..k] !in tree
    ensures var r := MakeDirs(fs, root, cs);
            && Contents(r.0, root, tree, dirs + Prefixes(cs, |cs|))
            && Resolve(r.0.st, Dir(root), cs) == Ok(Dir(r.1)) && r.1 in r.0.st
  {
    hide Contents, GetOrCreateSubdir;
    if cs == [] {
      RootContents(fs, root, tree, dirs);
      assert dirs + Prefixes([], 0) == dirs;
    } else {
      var n := |cs| - 1;
      assert forall k :: 0 <= k <= n ==> cs[..n][..k] == cs[..k];
      MakeDirsOk(fs, root, tree, dirs, cs[..n]);
      var r := MakeDirs(fs, root, cs[..n]);
      assert cs[..n] + [cs[n]] == cs == cs[..n + 1];
      SubdirStep(r.0, root, tree, dirs + Prefixes(cs[..n], n), cs[..n], r.1, cs[n]);
      PrefixesCut(cs, n, n);
      assert dirs + Prefixes(cs, n) + {cs} == dirs + Prefixes(cs, n + 1);
    }
  }

  lemma RootContents(fs: Fs, root: nat, tree: map<Path, string>, dirs: set<Path>)
    requires Contents(fs, root, tree, dirs)
    ensures Resolve(fs.st, Dir(root), []) == Ok(Dir(root)) && root in fs.st
  {
  }

  /** A new file at a path no other file's path begins, and that begins no other's. */
  ghost predicate Clear(tree: map<Path, string>, dirs: set<Path>, cs: Path) {
    cs != [] && cs !in dirs && forall k :: 0 <= k <= |cs| ==> cs[..k] !in tree
  }

  lemma InstallOk(fs: Fs, root: nat, tree: map<Path, string>, dirs: set<Path>, cs: Path, data: string)
    requires Contents(fs, root, tree, dirs) && [] in dirs && Clear(tree, dirs, cs)
    ensures Contents(Install(fs, root, cs, false, data).0, root, tree[cs := data], dirs + Prefixes(cs, |cs| - 1))
    ensures Install(fs, root, cs, false, data).1 == 1
  {
    hide Contents, MakeDirs, AddFile, Prefixes;
    var n := |cs| - 1;
    assert forall k :: 0 <= k <= n ==> cs[..n][..k] == cs[..k];
    MakeDirsOk(fs, root, tree, dirs, cs[..n]);
    var m := MakeDirs(fs, root, cs[..n]);
    assert cs[..n] + [cs[n]] == cs == cs[..n + 1];
    PrefixesCut(cs, n, n);
    InPrefixes(cs, n, cs);
    FileStep(m.0, root, tree, dirs + Prefixes(cs, n), cs[..n], m.1, cs[n], data);
  }

  /** A directory member makes the directories of its path and adds no file. */
  lemma InstallDirOk(fs: Fs, root: nat, tree: map<Path, string>, dirs: set<Path>, cs: Path, data: string)
    requires Contents(fs, root, tree, dirs) && [] in dirs && cs != [] && forall k :: 0 <= k <= |cs| ==> cs[..k] !in tree
    ensures Contents(Install(fs, root, cs, true, data).0, root, tree, dirs + Prefixes(cs, |cs|))
    ensures Install(fs, root, cs, true, data).1 == 0
  {
    hide Contents, MakeDirs, Prefixes;
    MakeDirsOk(fs, root, tree, dirs, cs);
  }

  // ----- a list of files -----

  datatype Member = Member(name: string, data: string)

  /** Where the name leads. */
  function PathOf(e: Member): (p: Path) {
    Paths.Split(e.name)
  }

  /** Distinct paths, none the beginning of another. */
  ghost predicate PrefixFree(es: seq<Member>) {
    forall i, j :: 0 <= i < |es| && 0 <= j < |es| && i != j ==> !(PathOf(es[i]) <= PathOf(es[j]))
  }

  function TreeOf(es: seq<Member>): (t: map<Path, string>)
    ensures forall p :: p in t <==> exists i :: 0 <= i < |es| && PathOf(es[i]) == p
  {
    if es == [] then map[]
    else
      var n := |es| - 1;
      assert es == es[..n] + [es[n]];
      TreeOf(es[..n])[PathOf(es[n]) := es[n].data]
  }

  function DirsOf(es: seq<Member>): (s: set<Path>)
    ensures forall p :: p in s <==> p == [] || exists i :: 0 <= i < |es| && p < PathOf(es[i])
  {
    if es == [] then {[]}
    else
      var n := |es| - 1;
      var cs := PathOf(es[n]);
      assert es == es[..n] + [es[n]];
      ProperPrefixes(cs, Prefixes(cs, |cs| - 1));
      DirsOf(es[..n]) + Prefixes(cs, |cs| - 1)
  }

  lemma {:induction false} TreeData(es: seq<Member>, i: nat)
    requires PrefixFree(es) && i < |es|
    ensures PathOf(es[i]) in TreeOf(es) && TreeOf(es)[PathOf(es[i])] == es[i].data
  {
    hide PathOf;
    var n := |es| - 1;
    if i < n {
      assert PrefixFree(es[..n]);
      TreeData(es[..n], i);
      assert es[..n][i] == es[i];
      assert !(PathOf(es[i]) <= PathOf(es[n]));
    }
  }

  lemma NextClear(es: seq<Member>)
    requires es != [] && PrefixFree(es)
    ensures var n := |es| - 1; Clear(TreeOf(es[..n]), DirsOf(es[..n]), PathOf(es[n]))
  {
    hide PathOf, Clear;
    var n := |es| - 1;
    var cs := PathOf(es[n]);
    SplitSome(es[n]);
    forall k | 0 <= k <= |cs|
      ensures cs[..k] !in TreeOf(es[..n])
    {
      forall i | 0 <= i < n
        ensures PathOf(es[..n][i]) != cs[..k]
      {
        assert cs[..k] <= cs && !(PathOf(es[i]) <= cs);
      }
    }
    forall i | 0 <= i < n
      ensures !(cs < PathOf(es[..n][i]))
    {
      assert !(cs <= PathOf(es[i]));
    }
    ClearFrom(TreeOf(es[..n]), DirsOf(es[..n]), cs);
  }

  lemma SplitSome(e: Member)
    ensures PathOf(e) != []
  {
  }

  lemma ClearFrom(tree: map<Path, string>, dirs: set<Path>, cs: Path)
    requires cs != [] && cs !in dirs && forall k :: 0 <= k <= |cs| ==> cs[..k] !in tree
    ensures Clear(tree, dirs, cs)
  {
  }

  function InstallAll(fs: Fs, root: nat, es: seq<Member>): (r: Fs) {
    if es == [] then fs
    else Install(InstallAll(fs, root, es[..|es| - 1]), root, PathOf(es[|es| - 1]), false, es[|es| - 1].data).0
  }

  /** Installing a list into an empty root gives exactly its files, in exactly the directories their
      paths need. */
  lemma {:induction false} InstallAllOk(fs: Fs, root: nat, es: seq<Member>)
    requires Contents(fs, root, map[], {[]}) && PrefixFree(es)
    ensures Contents(InstallAll(fs, root, es), root, TreeOf(es), DirsOf(es))
  {
    hide Contents, Install, PathOf;
    if es != [] {
      var n := |es| - 1;
      assert PrefixFree(es[..n]);
      InstallAllOk(fs, root, es[..n]);
      NextClear(es);
      RootIsDir(es[..n]);
      InstallOk(InstallAll(fs, root, es[..n]), root, TreeOf(es[..n]), DirsOf(es[..n]), PathOf(es[n]), es[n].data);
      TreeDirsNext(es);
    }
  }

  lemma RootIsDir(es: seq<Member>)
    ensures [] in DirsOf(es)
  {
  }

  lemma TreeDirsNext(es: seq<Member>)
    requires es != []
    ensures var n := |es| - 1; PathOf(es[n]) != []
    ensures var n := |es| - 1;
            && TreeOf(es) == TreeOf(es[..n])[PathOf(es[n]) := es[n].data]
            && DirsOf(es) == DirsOf(es[..n]) + Prefixes(PathOf(es[n]), |PathOf(es[n])| - 1)
  {
  }

  lemma EmptyFs(root: nat)
    ensures Contents(Fs(map[root := EmptyNode()], map[], root + 1), root, map[], {[]})
  {
    hide Shape, Tree;
    var fs := Fs(map[root := EmptyNode()], map[], root + 1);
    EmptyRootIsTree(root);
    TreeShape(fs.st, root);
    assert Typed(fs.st) && TypedBelow(fs.st) && Numbered(fs);
    forall p
      ensures PathIs(fs, root, map[], {[]}, p)
    {
      if p != [] { EmptyStuck(fs.st, root, p); }
    }
  }

  lemma TreeShape(st: Store<nat>, root: nat)
    requires Tree(st, root)
    ensures Shape(st, root)
  {
  }
}

/** What mkdir, open(O_CREAT) and unlink do to paths, when rename succeeds, and the tree invariant
    over every run of the four calls. */
module FsRuns {
  import opened Common
  import opened Paths
  import opened DirTree
  import opened DirOps
  import opened Rename

  /** `st'` resolves every path that does not pass `p` as `st` does. */
  ghost predicate SameElsewhere<D>(st: Store<D>, st': Store<D>, root: D, p: Path) {
    forall q :: !(p <= q) ==> Resolve(st', Dir(root), q) == Resolve(st, Dir(root), q)
  }

  lemma OneEntrySeen<D>(st: Store<D>, st': Store<D>, root: D, p: Path, d: D)
    requires Shape(st, root) && p != [] && SameExcept(st, st', d, Base(p))
    requires Resolve(st, Dir(root), Parent(p)) == Ok(Dir(d))
    ensures SameElsewhere(st, st', root, p)
    ensures Resolve(st', Dir(root), Parent(p)) == Ok(Dir(d))
  {
    hide Rooted, Closed, Acyclic, NodeOk;
    SplitLast(p);
    forall q | !(p <= q)
      ensures Resolve(st', Dir(root), q) == Resolve(st, Dir(root), q)
    {
      EntryFrame(st, st', root, Parent(p), d, Base(p), q);
    }
    assert !(p <= Parent(p));
  }

  lemma CreateDirSameExcept<D>(st: Store<D>, d: D, name: string, child: D)
    requires d in st && child !in st && name !in st[d].entries
    ensures var st' := CreateDir(st, Dir(d), name, child).st;
            && SameExcept(st, st', d, name)
            && name in st'[d].entries && st'[d].entries[name] == Dir(child)
            && child in st' && st'[child].entries == map[]
  {
  }

  /** A new empty directory resolves at its own path and nowhere below. */
  lemma NewDirectoryPaths<D>(st: Store<D>, root: D, cs: Path, d: D, child: D, s: Path)
    requires cs != [] && Resolve(st, Dir(root), Parent(cs)) == Ok(Dir(d)) && d in st
    requires Base(cs) in st[d].entries && st[d].entries[Base(cs)] == Dir(child)
    requires child in st && st[child].entries == map[]
    ensures Resolve(st, Dir(root), cs + s) == if s == [] then Ok(Dir(child)) else Err(ENOENT)
  {
    SplitLast(cs);
    BelowEntry(st, root, Parent(cs), d, Base(cs), s);
    if s != [] { EmptyStuck(st, child, s); }
  }

  lemma AbsentEntryPath<D>(st: Store<D>, root: D, cs: Path, d: D)
    requires cs != [] && Resolve(st, Dir(root), Parent(cs)) == Ok(Dir(d)) && d in st
    ensures Resolve(st, Dir(root), cs).Ok? <==> Base(cs) in st[d].entries
    ensures Resolve(st, Dir(root), cs).Ok? ==> Resolve(st, Dir(root), cs).value == st[d].entries[Base(cs)]
    ensures Resolve(st, Dir(root), cs).Err? ==> Resolve(st, Dir(root), cs).errno == ENOENT
  {
  }

  /** mkdir succeeds exactly where a directory has no such entry, and then binds one new path to a fresh
      empty directory; otherwise it changes nothing. The errno is EINVAL for the root, that of the walk
      to the parent, ENOTDIR for a parent that is no directory, and EEXIST for a path that resolves. */
  lemma MkdirEffect<D>(st: Store<D>, root: D, cwd: string, path: string, child: D)
    requires Shape(st, root) && child !in st
    ensures var cs := NormComponents(cwd, path);
            var o := SysMkdir(st, root, cwd, path, child);
            && o.errno == (if cs == [] then EINVAL
                           else if Resolve(st, Dir(root), Parent(cs)).Err? then Resolve(st, Dir(root), Parent(cs)).errno
                           else if Resolve(st, Dir(root), cs).Ok? then EEXIST
                           else if Resolve(st, Dir(root), Parent(cs)).value.Leaf? then ENOTDIR
                           else 0)
            && if o.errno != 0 then o.st == st
               else
                 && Resolve(st, Dir(root), cs) == Err(ENOENT)
                 && Resolve(o.st, Dir(root), cs) == Ok(Dir(child))
                 && (forall s :: s != [] ==> Resolve(o.st, Dir(root), cs + s) == Err(ENOENT))
                 && SameElsewhere(st, o.st, root, cs)
  {
    hide Rooted, Closed, Acyclic, NodeOk;
    var cs := NormComponents(cwd, path);
    var o := SysMkdir(st, root, cwd, path, child);
    if cs != [] && Resolve(st, Dir(root), Parent(cs)).Ok? && Resolve(st, Dir(root), Parent(cs)).value.Dir? {
      var d := Resolve(st, Dir(root), Parent(cs)).value.dir;
      ResolveInStore(st, root, Parent(cs));
      AbsentEntryPath(st, root, cs, d);
      if o.errno == 0 {
        CreateDirSameExcept(st, d, Base(cs), child);
        OneEntrySeen(st, o.st, root, cs, d);
        forall s
          ensures Resolve(o.st, Dir(root), cs + s) == if s == [] then Ok(Dir(child)) else Err(ENOENT)
        {
          NewDirectoryPaths(o.st, root, cs, d, child, s);
        }
        assert cs + [] == cs;
      }
    }
  }

  lemma CreateFileSameExcept<D>(st: Store<D>, d: D, name: string, ino: nat)
    requires d in st && name !in st[d].entries
    ensures var st' := CreateFile(st, Dir(d), name, ino).st;
            && SameExcept(st, st', d, name)
            && name in st'[d].entries && st'[d].entries[name] == Leaf(ino)
  {
  }

  /** open succeeds on a path that resolves, unless it must be new, and with O_CREAT also where a
      directory has no such entry, and then creates the named file and nothing else; the errno is EEXIST
      or that of the walk. */
  lemma OpenEffect<D>(st: Store<D>, root: D, cwd: string, path: string, create: bool, excl: bool, ino: nat)
    requires Shape(st, root)
    ensures var cs := NormComponents(cwd, path);
            var o := SysOpen(st, root, cwd, path, create, excl, ino);
            var found := Resolve(st, Dir(root), cs);
            if found.Ok? then o.st == st && o.errno == if create && excl then EEXIST else 0
            else
              && cs != []
              && var parent := Resolve(st, Dir(root), Parent(cs));
              if create && parent.Ok? && parent.value.Dir? then
                && found == Err(ENOENT) && o.errno == 0
                && Resolve(o.st, Dir(root), cs) == Ok(Leaf(ino))
                && SameElsewhere(st, o.st, root, cs)
              else o.st == st && o.errno == found.errno != 0
  {
    hide Rooted, Closed, Acyclic, NodeOk;
    var cs := NormComponents(cwd, path);
    var o := SysOpen(st, root, cwd, path, create, excl, ino);
    if Resolve(st, Dir(root), cs).Err? {
      var parent := Resolve(st, Dir(root), Parent(cs));
      if parent.Ok? && parent.value.Dir? {
        var d := parent.value.dir;
        ResolveInStore(st, root, Parent(cs));
        AbsentEntryPath(st, root, cs, d);
        if create {
          CreateFileSameExcept(st, d, Base(cs), ino);
          OneEntrySeen(st, o.st, root, cs, d);
          AbsentEntryPath(o.st, root, cs, d);
        }
      }
    }
  }

  lemma UnlinkSameExcept<D>(st: Store<D>, d: D, name: string)
    requires d in st && name in st[d].entries
    ensures var st' := Unlink(st, Dir(d), name).st; SameExcept(st, st', d, name) && name !in st'[d].entries
  {
  }

  /** unlink succeeds exactly on a path other than the root that resolves, and then removes it with
      everything below it and changes nothing else; otherwise it changes nothing. The errno is EINVAL for
      the root and that of the walk. */
  lemma UnlinkPathEffect<D>(st: Store<D>, root: D, cwd: string, path: string)
    requires Shape(st, root)
    ensures var cs := NormComponents(cwd, path);
            var o := SysUnlink(st, root, cwd, path);
            var found := Resolve(st, Dir(root), cs);
            && o.errno == (if cs == [] then EINVAL else if found.Err? then found.errno else 0)
            && if o.errno != 0 then o.st == st
               else
                 && (forall s :: Resolve(o.st, Dir(root), cs + s) == Err(ENOENT))
                 && SameElsewhere(st, o.st, root, cs)
  {
    hide Rooted, Closed, Acyclic, NodeOk;
    var cs := NormComponents(cwd, path);
    var o := SysUnlink(st, root, cwd, path);
    if o.errno == 0 {
      var d := Resolve(st, Dir(root), Parent(cs)).value.dir;
      UnlinkSameExcept(st, d, Base(cs));
      OneEntrySeen(st, o.st, root, cs, d);
      SplitLast(cs);
      forall s
        ensures Resolve(o.st, Dir(root), cs + s) == Err(ENOENT)
      {
        BelowEntry(o.st, root, Parent(cs), d, Base(cs), s);
      }
    }
  }

  /** Whether `p` names a directory without entries, told by paths alone. */
  ghost predicate EmptyDirAt<D>(st: Store<D>, root: D, p: Path) {
    && Resolve(st, Dir(root), p).Ok? && Resolve(st, Dir(root), p).value.Dir?
    && forall m :: Resolve(st, Dir(root), p + [m]).Err?
  }

  lemma CountedIffNotEmpty<D>(st: Store<D>, root: D, p: Path, d: D)
    requires NodesOk(st) && Resolve(st, Dir(root), p) == Ok(Dir(d)) && d in st
    ensures EmptyDirAt(st, root, p) <==> st[d].count == 0
    ensures st[d].count >= 0
  {
    assert NodeOk(st[d]);
    forall m
      ensures Resolve(st, Dir(root), p + [m]).Ok? <==> m in st[d].entries
    {
      assert (p + [m])[..|p|] == p;
    }
    if st[d].count > 0 {
      var m :| m in st[d].entries;
      assert Resolve(st, Dir(root), p + [m]).Ok?;
    }
  }

  /** Below a leaf or an empty directory nothing resolves. */
  lemma NothingBelow<D>(st: Store<D>, root: D, p: Path, q: Path)
    requires p < q && Resolve(st, Dir(root), p).Ok?
    requires Resolve(st, Dir(root), p).value.Leaf? || EmptyDirAt(st, root, p)
    ensures Resolve(st, Dir(root), q).Err?
  {
    var s := q[|p|..];
    assert q == p + s;
    var i := Resolve(st, Dir(root), p).value;
    ResolveAppend(st, Dir(root), p, s);
    if i.Leaf? {
      LeafStuck(st, i, s);
    } else {
      assert Resolve(st, Dir(root), p + [s[0]]).Err?;
      assert q == (p + [s[0]]) + s[1..];
      ResolveAppend(st, Dir(root), p + [s[0]], s[1..]);
    }
  }

  /** A successful unlink loses no path but the one it names if and only if that is a leaf or an empty
      directory; unlink itself never looks. */
  lemma UnlinkLosesOnlyIff<D>(st: Store<D>, root: D, cwd: string, path: string)
    requires Shape(st, root) && SysUnlink(st, root, cwd, path).errno == 0
    ensures var cs := NormComponents(cwd, path);
            var o := SysUnlink(st, root, cwd, path);
            (forall q :: q != cs && Resolve(st, Dir(root), q).Ok? ==> Resolve(o.st, Dir(root), q).Ok?)
            <==> (Resolve(st, Dir(root), cs).Ok? && Resolve(st, Dir(root), cs).value.Leaf?) || EmptyDirAt(st, root, cs)
  {
    hide Shape, EmptyDirAt;
    UnlinkPathEffect(st, root, cwd, path);
    var cs := NormComponents(cwd, path);
    var o := SysUnlink(st, root, cwd, path);
    if Resolve(st, Dir(root), cs).value.Leaf? || EmptyDirAt(st, root, cs) {
      forall q | q != cs && Resolve(st, Dir(root), q).Ok?
        ensures Resolve(o.st, Dir(root), q).Ok?
      {
        if cs <= q {
          NothingBelow(st, root, cs, q);
        }
      }
    } else {
      var m := SomeChild(st, root, cs);
      assert Resolve(o.st, Dir(root), cs + [m]).Err?;
    }
  }

  lemma SomeChild<D>(st: Store<D>, root: D, p: Path) returns (m: string)
    requires Resolve(st, Dir(root), p).Ok? && Resolve(st, Dir(root), p).value.Dir? && !EmptyDirAt(st, root, p)
    ensures Resolve(st, Dir(root), p + [m]).Ok?
  {
    m :| Resolve(st, Dir(root), p + [m]).Ok?;
  }

  /** A root with one directory "a" that holds one file "f". */
  function TwoLevels(): (st: Store<nat>) {
    map[0 := DirNode(map["a" := Dir(1)], map["a" := 1], 1), 1 := DirNode(map["f" := Leaf(7)], map[], 1)]
  }

  /** Unlinking the directory there succeeds and loses the file. */
  lemma UnlinkLosesFile(cwd: string)
    ensures var o := SysUnlink(TwoLevels(), 0, cwd, "/a");
            && Resolve(TwoLevels(), Dir(0), ["a", "f"]) == Ok(Leaf(7))
            && o.errno == 0 && Resolve(o.st, Dir(0), ["a", "f"]) == Err(ENOENT)
  {
    NameA(cwd);
    var st := TwoLevels();
    var o := SysUnlink(st, 0, cwd, "/a");
    assert Parent(["a"]) == [] && Base(["a"]) == "a";
    assert ["a", "f"][..1] == ["a"] && ["a"][..0] == [];
    assert Resolve(st, Dir(0), ["a"]) == Ok(Dir(1));
    assert Resolve(o.st, Dir(0), ["a"]) == Err(ENOENT);
  }

  lemma NameA(cwd: string)
    ensures NormComponents(cwd, "/a") == ["a"]
  {
    hide NormComponents;
    assert ["a"][1..] == [] && Render(["a"]) == "/" + "a" + "" == "/a";
    RenderedComponents(cwd, ["a"]);
  }

  /** When rename succeeds, in terms of paths only: both paths name something other than the root,
      the source exists, the new parent is a directory, the destination is not inside a source
      directory, and an existing destination has the source's kind and is empty if a directory. */
  ghost predicate RenameAllowed<D>(st: Store<D>, root: D, from: Path, to: Path) {
    var source := Resolve(st, Dir(root), from);
    var target := Resolve(st, Dir(root), to);
    && from != [] && to != [] && source.Ok?
    && (from == to
        || (&& Resolve(st, Dir(root), Parent(to)).Ok? && Resolve(st, Dir(root), Parent(to)).value.Dir?
            && !(from < to)
            && (target.Ok? ==>
                  && source.value.Dir? == target.value.Dir?
                  && (target.value.Dir? ==> EmptyDirAt(st, root, to)))))
  }

  /** The outcome of the checks on an existing target, in terms of paths. */
  lemma ReplaceAllowed<D>(st: Store<D>, root: D, from: Path, self: D, to: Path, dest: D)
    requires Rooted(st, root) && Closed(st) && NodesOk(st) && from != [] && to != []
    requires Resolve(st, Dir(root), Parent(from)) == Ok(Dir(self)) && self in st && Base(from) in st[self].entries
    requires Resolve(st, Dir(root), Parent(to)) == Ok(Dir(dest)) && dest in st && Base(to) in st[dest].entries
    ensures var source, target := st[self].entries[Base(from)], st[dest].entries[Base(to)];
            ReplaceError(st, self, dest, source, target) == 0 <==>
            source.Dir? == target.Dir? && (target.Dir? ==> EmptyDirAt(st, root, to))
  {
    hide UniqueParent, Orphan, Closed;
    var target := st[dest].entries[Base(to)];
    AbsentEntryPath(st, root, to, dest);
    if target.Dir? {
      ResolveInStore(st, root, to);
      CountedIffNotEmpty(st, root, to, target.dir);
      if target.dir == dest {
        PathUnique(st, root, to, Parent(to));
      }
      assert NodeOk(st[self]);
    }
  }

  /** The directory operation succeeds exactly when the target checks pass. */
  lemma DirRenameSucceedsIff<D>(st: Store<D>, root: D, from: Path, self: D, to: Path, dest: D)
    requires Rooted(st, root) && Closed(st) && NodesOk(st) && from != [] && to != [] && from != to
    requires Resolve(st, Dir(root), Parent(from)) == Ok(Dir(self)) && self in st && Base(from) in st[self].entries
    requires Resolve(st, Dir(root), Parent(to)) == Ok(Dir(dest)) && dest in st
    ensures DirRename(st, self, Base(from), Dir(dest), Base(to)).errno == 0 <==>
            (Resolve(st, Dir(root), to).Ok? ==>
               && st[self].entries[Base(from)].Dir? == Resolve(st, Dir(root), to).value.Dir?
               && (Resolve(st, Dir(root), to).value.Dir? ==> EmptyDirAt(st, root, to)))
  {
    hide UniqueParent, Orphan, Closed, NodeOk;
    AbsentEntryPath(st, root, to, dest);
    if self == dest && Base(from) == Base(to) {
      PathUnique(st, root, Parent(from), Parent(to));
      SplitLast(from);
      SplitLast(to);
    }
    if Base(to) in st[dest].entries {
      ReplaceAllowed(st, root, from, self, to, dest);
    }
  }

  /** rename returns 0 exactly on the allowed calls. */
  lemma RenameSucceedsIff<D>(st: Store<D>, root: D, cwd: string, oldPath: string, newPath: string)
    requires Rooted(st, root) && Closed(st) && NodesOk(st)
    ensures SysRename(st, root, cwd, oldPath, newPath).errno == 0 <==>
            RenameAllowed(st, root, NormComponents(cwd, oldPath), NormComponents(cwd, newPath))
  {
    hide UniqueParent, Orphan, Closed, NodeOk;
    var from, to := NormComponents(cwd, oldPath), NormComponents(cwd, newPath);
    NormalizedNames(cwd, oldPath);
    NormalizedNames(cwd, newPath);
    SameStringSamePath(from, to);
    if from != [] && to != [] && from != to && Resolve(st, Dir(root), from).Ok? {
      PrefixStringIffProperPrefix(from, to);
      if Resolve(st, Dir(root), from).value.Leaf? && from < to {
        NotBelowLeaf(st, root, from, to);
      }
      var p := Resolve(st, Dir(root), Parent(to));
      var self := Resolve(st, Dir(root), Parent(from)).value.dir;
      if p.Ok? && p.value.Dir? {
        ResolveInStore(st, root, Parent(to));
        DirRenameSucceedsIff(st, root, from, self, to, p.value.dir);
      }
    }
  }

  /** The errno of rename, in terms of paths only. */
  ghost function RenameErrno<D>(st: Store<D>, root: D, from: Path, to: Path): (e: int) {
    var source, target := Resolve(st, Dir(root), from), Resolve(st, Dir(root), to);
    if from == [] || to == [] then EBUSY
    else if source.Err? then source.errno
    else if from == to then 0
    else if source.value.Dir? && from < to then EINVAL
    else if Resolve(st, Dir(root), Parent(to)).Err? then Resolve(st, Dir(root), Parent(to)).errno
    else if Resolve(st, Dir(root), Parent(to)).value.Leaf? then EXDEV
    else if target.Err? then 0
    else if source.value.Dir? && target.value.Leaf? then ENOTDIR
    else if source.value.Leaf? && target.value.Dir? then EISDIR
    else if target.value.Dir? && !EmptyDirAt(st, root, to) then ENOTEMPTY
    else 0
  }

  lemma ReplaceErrno<D>(st: Store<D>, root: D, from: Path, self: D, to: Path, dest: D)
    requires Rooted(st, root) && Closed(st) && NodesOk(st) && from != [] && to != []
    requires Resolve(st, Dir(root), Parent(from)) == Ok(Dir(self)) && self in st && Base(from) in st[self].entries
    requires Resolve(st, Dir(root), Parent(to)) == Ok(Dir(dest)) && dest in st && Base(to) in st[dest].entries
    ensures var source, target := st[self].entries[Base(from)], st[dest].entries[Base(to)];
            ReplaceError(st, self, dest, source, target) ==
            if source.Dir? && target.Leaf? then ENOTDIR
            else if source.Leaf? && target.Dir? then EISDIR
            else if target.Dir? && !EmptyDirAt(st, root, to) then ENOTEMPTY
            else 0
  {
    hide Rooted, Closed, NodeOk, EmptyDirAt;
    ReplaceAllowed(st, root, from, self, to, dest);
  }

  lemma DirRenameErrno<D>(st: Store<D>, root: D, from: Path, self: D, to: Path, dest: D)
    requires Rooted(st, root) && Closed(st) && NodesOk(st) && from != [] && to != [] && from != to
    requires Resolve(st, Dir(root), Parent(from)) == Ok(Dir(self)) && self in st && Base(from) in st[self].entries
    requires Resolve(st, Dir(root), Parent(to)) == Ok(Dir(dest)) && dest in st
    requires !(st[self].entries[Base(from)].Dir? && from < to)
    ensures DirRename(st, self, Base(from), Dir(dest), Base(to)).errno == RenameErrno(st, root, from, to)
  {
    hide UniqueParent, Orphan, Closed, NodeOk, EmptyDirAt, ReplaceError;
    AbsentEntryPath(st, root, from, self);
    AbsentEntryPath(st, root, to, dest);
    if self == dest && Base(from) == Base(to) {
      PathUnique(st, root, Parent(from), Parent(to));
      SplitLast(from);
      SplitLast(to);
    }
    if Base(to) in st[dest].entries {
      ReplaceErrno(st, root, from, self, to, dest);
    }
  }

  /** rename returns EBUSY for the root, then the errno of the walk to the source, 0 for equal paths,
      EINVAL for a destination inside a source directory, the errno of the walk to the new parent or
      EXDEV if that is no directory, and for an existing destination ENOTDIR, EISDIR or ENOTEMPTY. */
  lemma RenameErrnoIs<D>(st: Store<D>, root: D, cwd: string, oldPath: string, newPath: string)
    requires Rooted(st, root) && Closed(st) && NodesOk(st)
    ensures SysRename(st, root, cwd, oldPath, newPath).errno
         == RenameErrno(st, root, NormComponents(cwd, oldPath), NormComponents(cwd, newPath))
  {
    hide UniqueParent, Orphan, Closed, NodeOk, EmptyDirAt, DirRename, NormComponents, PathString, StartsWith;
    var from, to := NormComponents(cwd, oldPath), NormComponents(cwd, newPath);
    NormalizedNames(cwd, oldPath);
    NormalizedNames(cwd, newPath);
    SameStringSamePath(from, to);
    if from != [] && to != [] && from != to && Resolve(st, Dir(root), from).Ok? {
      PrefixStringIffProperPrefix(from, to);
      ResolvedParent(st, root, from);
      var self := Resolve(st, Dir(root), Parent(from)).value.dir;
      var p := Resolve(st, Dir(root), Parent(to));
      if p.Ok? && p.value.Dir? && !(Resolve(st, Dir(root), from).value.Dir? && from < to) {
        ResolveInStore(st, root, Parent(to));
        DirRenameErrno(st, root, from, self, to, p.value.dir);
      } else if p.Ok? && p.value.Leaf? {
        RenameOntoLeaf(st, self, Base(from), p.value, Base(to));
      }
    }
  }

  lemma RenameOntoLeaf<D>(st: Store<D>, self: D, name: string, parent: Inode<D>, newName: string)
    requires parent.Leaf?
    ensures DirRename(st, self, name, parent, newName).errno == EXDEV
  {
  }

  /** A path that resolves is an entry of the directory its parent path resolves to. */
  lemma ResolvedParent<D>(st: Store<D>, root: D, p: Path)
    requires p != [] && Resolve(st, Dir(root), p).Ok?
    ensures var r := Resolve(st, Dir(root), Parent(p));
            && r.Ok? && r.value.Dir? && r.value.dir in st && Base(p) in st[r.value.dir].entries
            && st[r.value.dir].entries[Base(p)] == Resolve(st, Dir(root), p).value
  {
  }

  /** rename's purely textual cycle test is exactly the ancestor test on the graph: for a source
      directory and a new parent directory, the new path string starts with the old one plus '/'
      if and only if the new parent is the source directory or one of its descendants. */
  lemma TextualTestIsAncestorTest<D>(st: Store<D>, root: D, cwd: string, oldPath: string, newPath: string)
    requires Tree(st, root)
    requires var from, to := NormComponents(cwd, oldPath), NormComponents(cwd, newPath);
             && from != [] && to != []
             && Resolve(st, Dir(root), from).Ok? && Resolve(st, Dir(root), from).value.Dir?
             && Resolve(st, Dir(root), Parent(to)).Ok? && Resolve(st, Dir(root), Parent(to)).value.Dir?
    ensures var from, to := NormComponents(cwd, oldPath), NormComponents(cwd, newPath);
            var source := Resolve(st, Dir(root), from).value;
            StartsWith(PathString(to), PathString(from) + "/") <==>
            exists s :: Resolve(st, source, s) == Resolve(st, Dir(root), Parent(to))
  {
    hide Rooted, Closed, Acyclic, NodeOk;
    var from, to := NormComponents(cwd, oldPath), NormComponents(cwd, newPath);
    NormalizedNames(cwd, oldPath);
    NormalizedNames(cwd, newPath);
    PrefixStringIffProperPrefix(from, to);
    AncestorIffPrefix(st, root, from, Parent(to));
    SplitLast(to);
  }

  // ----- runs -----

  datatype Call<D> =
    | Mkdir(cwd: string, path: string, child: D)
    | Open(cwd: string, path: string, create: bool, excl: bool, ino: nat)
    | UnlinkAt(cwd: string, path: string)
    | RenameAt(cwd: string, path: string, newPath: string)

  function Step<D(==)>(st: Store<D>, root: D, c: Call<D>): (o: Outcome<D>) {
    match c
    case Mkdir(cwd, path, child) => SysMkdir(st, root, cwd, path, child)
    case Open(cwd, path, create, excl, ino) => SysOpen(st, root, cwd, path, create, excl, ino)
    case UnlinkAt(cwd, path) => SysUnlink(st, root, cwd, path)
    case RenameAt(cwd, path, newPath) => SysRename(st, root, cwd, path, newPath)
  }

  function Run<D(==)>(st: Store<D>, root: D, calls: seq<Call<D>>): (r: Store<D>) {
    if calls == [] then st else Step(Run(st, root, calls[..|calls| - 1]), root, calls[|calls| - 1]).st
  }

  /** A run of one call is the call, and a run goes on where it was. */
  lemma {:induction false} RunGoesOn<D>(st: Store<D>, root: D, a: seq<Call<D>>, b: seq<Call<D>>)
    ensures Run(st, root, a + b) == Run(Run(st, root, a), root, b)
    ensures |b| == 1 ==> Run(st, root, b) == Step(st, root, b[0]).st
    decreases |b|
  {
    hide Step;
    if b == [] {
      assert a + b == a;
    } else {
      var n := |b| - 1;
      RunGoesOn(st, root, a, b[..n]);
      assert (a + b)[..|a + b| - 1] == a + b[..n];
      assert n == 0 ==> b[..n] == [];
    }
  }

  /** mkdir always allocates a directory that does not exist yet. */
  ghost predicate FreshRun<D>(st: Store<D>, root: D, calls: seq<Call<D>>) {
    calls != [] ==>
      && FreshRun(st, root, calls[..|calls| - 1])
      && (calls[|calls| - 1].Mkdir? ==> calls[|calls| - 1].child !in Run(st, root, calls[..|calls| - 1]))
  }

  lemma MkdirKeepsTree<D>(st: Store<D>, root: D, cwd: string, path: string, child: D)
    requires Shape(st, root) && NodesOk(st) && child !in st
    ensures Shape(SysMkdir(st, root, cwd, path, child).st, root)
    ensures NodesOk(SysMkdir(st, root, cwd, path, child).st)
  {
    hide Rooted, Closed, Acyclic, NodeOk;
    var cs := NormComponents(cwd, path);
    if cs != [] && Resolve(st, Dir(root), Parent(cs)).Ok? {
      var parent := Resolve(st, Dir(root), Parent(cs)).value;
      CreateDirKeepsShape(st, root, parent, Base(cs), child);
      CreateDirNodes(st, parent, Base(cs), child);
    }
  }

  lemma OpenKeepsTree<D>(st: Store<D>, root: D, cwd: string, path: string, create: bool, excl: bool, ino: nat)
    requires Shape(st, root) && NodesOk(st)
    ensures Shape(SysOpen(st, root, cwd, path, create, excl, ino).st, root)
    ensures NodesOk(SysOpen(st, root, cwd, path, create, excl, ino).st)
  {
    hide Rooted, Closed, Acyclic, NodeOk;
    var cs := NormComponents(cwd, path);
    if cs != [] && Resolve(st, Dir(root), Parent(cs)).Ok? {
      var parent := Resolve(st, Dir(root), Parent(cs)).value;
      CreateFileEffect(st, parent, Base(cs), ino);
      WithinKeepsShape(st, CreateFile(st, parent, Base(cs), ino).st, root);
    }
  }

  lemma UnlinkKeepsTree<D>(st: Store<D>, root: D, cwd: string, path: string)
    requires Shape(st, root) && NodesOk(st)
    ensures Shape(SysUnlink(st, root, cwd, path).st, root)
    ensures NodesOk(SysUnlink(st, root, cwd, path).st)
  {
    hide Rooted, Closed, Acyclic, NodeOk;
    var cs := NormComponents(cwd, path);
    if cs != [] && Resolve(st, Dir(root), Parent(cs)).Ok? {
      var parent := Resolve(st, Dir(root), Parent(cs)).value;
      UnlinkEffect(st, parent, Base(cs));
      WithinKeepsShape(st, Unlink(st, parent, Base(cs)).st, root);
    }
  }

  lemma StepKeepsTree<D>(st: Store<D>, root: D, c: Call<D>)
    requires Tree(st, root) && (c.Mkdir? ==> c.child !in st)
    ensures Tree(Step(st, root, c).st, root)
  {
    hide Rooted, Closed, Acyclic, NodeOk;
    match c
    case Mkdir(cwd, path, child) => MkdirKeepsTree(st, root, cwd, path, child);
    case Open(cwd, path, create, excl, ino) => OpenKeepsTree(st, root, cwd, path, create, excl, ino);
    case UnlinkAt(cwd, path) => UnlinkKeepsTree(st, root, cwd, path);
    case RenameAt(cwd, path, newPath) => RenameKeepsTree(st, root, cwd, path, newPath);
  }

  /** Over every run of the four calls from a tree, such as a single empty root, the store stays a
      tree: one parent entry per directory, none its own descendant, `entry_count` exact and
      `subdirs` a restriction of `entries`. */
  lemma {:induction false} RunKeepsTree<D>(st: Store<D>, root: D, calls: seq<Call<D>>)
    requires Tree(st, root) && FreshRun(st, root, calls)
    ensures Tree(Run(st, root, calls), root)
  {
    hide Rooted, Closed, Acyclic, NodeOk;
    if calls != [] {
      RunKeepsTree(st, root, calls[..|calls| - 1]);
      StepKeepsTree(Run(st, root, calls[..|calls| - 1]), root, calls[|calls| - 1]);
    }
  }

  // ----- typed references -----

  /** Every subdirectory of the node is also recorded as a typed reference. */
  ghost predicate NodeTyped<D>(n: DirNode<D>) {
    forall m :: m in n.entries && n.entries[m].Dir? ==> m in n.subdirs
  }

  ghost predicate AllTyped<D>(st: Store<D>) {
    forall d :: d in st ==> NodeTyped(st[d])
  }

  lemma MoveKeepsTyped<D>(st: Store<D>, self: D, name: string, dest: D, newName: string)
    requires AllTyped(st) && self in st && dest in st && name in st[self].entries
    ensures AllTyped(MoveEntry(st, self, name, dest, newName))
  {
    assert NodeTyped(st[self]) && NodeTyped(st[dest]);
  }

  lemma RenameKeepsTyped<D>(st: Store<D>, root: D, cwd: string, oldPath: string, newPath: string)
    requires AllTyped(st)
    ensures AllTyped(SysRename(st, root, cwd, oldPath, newPath).st)
  {
    hide AllTyped, MoveEntry, NormComponents, PathString, StartsWith, ReplaceError;
    var from, to := NormComponents(cwd, oldPath), NormComponents(cwd, newPath);
    if from != [] && to != [] {
      var a, b := Resolve(st, Dir(root), Parent(from)), Resolve(st, Dir(root), Parent(to));
      if a.Ok? && a.value.Dir? && b.Ok? && b.value.Dir? {
        DirRenameKeepsTyped(st, a.value.dir, Base(from), b.value, Base(to));
      }
    }
  }

  lemma DirRenameKeepsTyped<D>(st: Store<D>, self: D, name: string, parent: Inode<D>, newName: string)
    requires AllTyped(st)
    ensures AllTyped(DirRename(st, self, name, parent, newName).st)
  {
    hide AllTyped, MoveEntry, ReplaceError;
    if parent.Dir? && self in st && parent.dir in st && name in st[self].entries {
      MoveKeepsTyped(st, self, name, parent.dir, newName);
    }
  }

  lemma CreateKeepsTyped<D>(st: Store<D>, parent: Inode<D>, name: string, child: D, ino: nat)
    requires AllTyped(st)
    ensures AllTyped(CreateDir(st, parent, name, child).st) && AllTyped(CreateFile(st, parent, name, ino).st)
    ensures AllTyped(Unlink(st, parent, name).st)
  {
    if parent.Dir? && parent.dir in st {
      assert NodeTyped(st[parent.dir]);
    }
  }

  lemma StepKeepsTyped<D>(st: Store<D>, root: D, c: Call<D>)
    requires AllTyped(st)
    ensures AllTyped(Step(st, root, c).st)
  {
    hide AllTyped, CreateDir, CreateFile, Unlink, NormComponents, SysRename;
    if c.RenameAt? {
      RenameKeepsTyped(st, root, c.cwd, c.path, c.newPath);
    } else {
      var cs := NormComponents(c.cwd, c.path);
      if cs != [] && Resolve(st, Dir(root), Parent(cs)).Ok? {
        var parent := Resolve(st, Dir(root), Parent(cs)).value;
        CreateKeepsTyped(st, parent, Base(cs), if c.Mkdir? then c.child else root, if c.Open? then c.ino else 0);
      }
    }
  }

  /** From a store in which every subdirectory is also a typed reference, such as an empty root, every
      run of the four calls keeps it so; with the tree invariant `subdirs` is then exactly the
      directories among `entries`. */
  lemma {:induction false} RunKeepsTyped<D>(st: Store<D>, root: D, calls: seq<Call<D>>)
    requires AllTyped(st)
    ensures AllTyped(Run(st, root, calls))
  {
    hide AllTyped, Step;
    if calls != [] {
      RunKeepsTyped(st, root, calls[..|calls| - 1]);
      StepKeepsTyped(Run(st, root, calls[..|calls| - 1]), root, calls[|calls| - 1]);
    }
  }

  /** A freshly made root is a tree, with nothing to record. */
  lemma EmptyRootIsTree<D>(root: D)
    ensures Tree(map[root := EmptyNode()], root) && AllTyped(map[root := EmptyNode()])
  {
    var st := map[root := EmptyNode()];
    forall d, p | d in st && Resolve(st, Dir(d), p) == Ok(Dir(d))
      ensures p == []
    {
      if p != [] { EmptyStuck(st, root, p); }
    }
  }
}

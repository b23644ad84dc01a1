/** rename(2): a successful call is a subtree move on paths, a failed one changes nothing, and
    either way the directories stay a tree. */
module Rename {
  import opened Common
  import opened Paths
  import opened DirTree
  import opened DirOps

  /** Neither path is a prefix of the other. */
  predicate Apart(p: Path, q: Path) {
    !(p <= q) && !(q <= p)
  }

  lemma ApartExtends(p: Path, q: Path, s: Path)
    requires Apart(p, q)
    ensures !(p <= q + s)
  {
    assert forall n :: 0 <= n <= |q| ==> (q + s)[..n] == q[..n];
  }

  /** The two store updates inside MoveEntry. */
  function Detached<D(==)>(st: Store<D>, self: D, name: string): (r: Store<D>)
    requires self in st
  {
    st[self := Without(st[self], name)]
  }

  /** What the resolvers have established when the entry is moved. */
  ghost predicate Movable<D>(st: Store<D>, root: D, from: Path, self: D, to: Path, dest: D) {
    && from != [] && to != [] && Apart(from, to)
    && self in st && dest in st
    && Resolve(st, Dir(root), Parent(from)) == Ok(Dir(self))
    && Resolve(st, Dir(root), Parent(to)) == Ok(Dir(dest))
    && Base(from) in st[self].entries
  }

  ghost function Moved<D>(st: Store<D>, root: D, from: Path, self: D, to: Path, dest: D): (r: Store<D>)
    requires Movable(st, root, from, self, to, dest)
  {
    MoveEntry(st, self, Base(from), dest, Base(to))
  }

  lemma SplitLast(p: Path)
    requires p != []
    ensures Parent(p) + [Base(p)] == p
  {
  }

  lemma MoveUpdates<D>(st: Store<D>, root: D, from: Path, self: D, to: Path, dest: D)
    requires Movable(st, root, from, self, to, dest)
    ensures SameExcept(st, Detached(st, self, Base(from)), self, Base(from))
    ensures Base(from) !in Detached(st, self, Base(from))[self].entries
    ensures DirEdgesWithin(st, Detached(st, self, Base(from)))
    ensures SameExcept(Detached(st, self, Base(from)), Moved(st, root, from, self, to, dest), dest, Base(to))
    ensures Base(to) in Moved(st, root, from, self, to, dest)[dest].entries
    ensures Moved(st, root, from, self, to, dest)[dest].entries[Base(to)] == st[self].entries[Base(from)]
  {
  }

  /** Paths through neither end of the move, and the new parent itself, are unaffected. */
  lemma MoveFrame<D>(st: Store<D>, root: D, from: Path, self: D, to: Path, dest: D, q: Path)
    requires Shape(st, root) && Movable(st, root, from, self, to, dest)
    requires !(from <= q)
    ensures Resolve(Detached(st, self, Base(from)), Dir(root), q) == Resolve(st, Dir(root), q)
    ensures !(to <= q) ==> Resolve(Moved(st, root, from, self, to, dest), Dir(root), q) == Resolve(st, Dir(root), q)
  {
    hide Rooted, Closed, Acyclic, NodeOk;
    var st1 := Detached(st, self, Base(from));
    MoveUpdates(st, root, from, self, to, dest);
    SplitLast(from);
    SplitLast(to);
    EntryFrame(st, st1, root, Parent(from), self, Base(from), q);
    WithinKeepsShape(st, st1, root);
    if !(to <= q) {
      assert !(from <= Parent(to));
      EntryFrame(st, st1, root, Parent(from), self, Base(from), Parent(to));
      EntryFrame(st1, Moved(st, root, from, self, to, dest), root, Parent(to), dest, Base(to), q);
    }
  }

  /** Nothing resolves at or below the old path any more. */
  lemma MoveGone<D>(st: Store<D>, root: D, from: Path, self: D, to: Path, dest: D, s: Path)
    requires Shape(st, root) && Movable(st, root, from, self, to, dest)
    ensures Resolve(Moved(st, root, from, self, to, dest), Dir(root), from + s) == Err(ENOENT)
  {
    hide Rooted, Closed, Acyclic, NodeOk;
    var st1 := Detached(st, self, Base(from));
    MoveUpdates(st, root, from, self, to, dest);
    SplitLast(from);
    SplitLast(to);
    WithinKeepsShape(st, st1, root);
    MoveFrame(st, root, from, self, to, dest, Parent(from));
    BelowEntry(st1, root, Parent(from), self, Base(from), s);
    ApartExtends(to, from, s);
    MoveFrame(st, root, from, self, to, dest, Parent(to));
    EntryFrame(st1, Moved(st, root, from, self, to, dest), root, Parent(to), dest, Base(to), from + s);
  }

  /** Walking on from the moved inode never meets either parent, so it goes as before. */
  lemma MoveInside<D>(st: Store<D>, root: D, from: Path, self: D, to: Path, dest: D, s: Path)
    requires Shape(st, root) && Movable(st, root, from, self, to, dest)
    ensures Resolve(st, Dir(root), from + s) == Resolve(st, st[self].entries[Base(from)], s)
    ensures Resolve(Moved(st, root, from, self, to, dest), st[self].entries[Base(from)], s)
      == Resolve(st, Dir(root), from + s)
  {
    hide Rooted, Acyclic;
    var st2 := Moved(st, root, from, self, to, dest);
    var inode := st[self].entries[Base(from)];
    SplitLast(from);
    SplitLast(to);
    assert Lookup(st, Dir(self), Base(from)) == Ok(inode);
    BelowEntry(st, root, Parent(from), self, Base(from), s);
    forall k | 0 <= k < |s|
      ensures var r := Resolve(st, inode, s[..k]);
        r.Ok? && r.value.Dir? && r.value.dir in st ==> st2[r.value.dir].entries == st[r.value.dir].entries
    {
      var r := Resolve(st, inode, s[..k]);
      BelowEntry(st, root, Parent(from), self, Base(from), s[..k]);
      if r == Ok(Dir(self)) {
        PathUnique(st, root, from + s[..k], Parent(from));
      }
      if r == Ok(Dir(dest)) {
        PathUnique(st, root, from + s[..k], Parent(to));
      }
    }
    WalkFrame(st, st2, inode, s);
  }

  /** Every path below the new name resolves to what it resolved to below the old one. */
  lemma MoveArrives<D>(st: Store<D>, root: D, from: Path, self: D, to: Path, dest: D, s: Path)
    requires Shape(st, root) && Movable(st, root, from, self, to, dest)
    ensures Resolve(Moved(st, root, from, self, to, dest), Dir(root), to + s) == Resolve(st, Dir(root), from + s)
  {
    hide Rooted, Closed, Acyclic, NodeOk;
    MoveUpdates(st, root, from, self, to, dest);
    SplitLast(to);
    assert !(from <= Parent(to));
    MoveFrame(st, root, from, self, to, dest, Parent(to));
    BelowEntry(Moved(st, root, from, self, to, dest), root, Parent(to), dest, Base(to), s);
    MoveInside(st, root, from, self, to, dest, s);
  }

  /** Once detached, a directory has no parent entry left; it is not the root. */
  lemma DetachedOrphan<D>(st: Store<D>, root: D, self: D, name: string, c: D)
    requires Rooted(st, root) && Closed(st) && self in st && name in st[self].entries
      && st[self].entries[name] == Dir(c)
    ensures c in st && c != root && Orphan(Detached(st, self, name), c)
  {
    var st1 := Detached(st, self, name);
    assert Lookup(st, Dir(self), name) == Ok(Dir(c));
    forall d, m | d in st1
      ensures Lookup(st1, Dir(d), m) != Ok(Dir(c))
    {
      assert Lookup(st1, Dir(d), m).Ok? ==> Lookup(st1, Dir(d), m) == Lookup(st, Dir(d), m);
    }
  }

  /** The moved directory does not reach its new parent. */
  lemma MovedReachesNot<D>(st: Store<D>, root: D, from: Path, self: D, to: Path, dest: D, c: D, s: Path)
    requires Shape(st, root) && Movable(st, root, from, self, to, dest) && st[self].entries[Base(from)] == Dir(c)
    ensures Resolve(Detached(st, self, Base(from)), Dir(c), s) != Ok(Dir(dest))
  {
    hide Rooted, Closed, Acyclic;
    var st1 := Detached(st, self, Base(from));
    MoveUpdates(st, root, from, self, to, dest);
    if Resolve(st1, Dir(c), s) == Ok(Dir(dest)) {
      WithinWalk(st, st1, Dir(c), s);
      SplitLast(from);
      SplitLast(to);
      BelowEntry(st, root, Parent(from), self, Base(from), s);
      PathUnique(st, root, from + s, Parent(to));
    }
  }

  lemma MoveEdges<D>(st: Store<D>, root: D, from: Path, self: D, to: Path, dest: D)
    requires Movable(st, root, from, self, to, dest)
    ensures var st1, st2 := Detached(st, self, Base(from)), Moved(st, root, from, self, to, dest);
            match st[self].entries[Base(from)]
            case Leaf(_) => DirEdgesWithin(st1, st2)
            case Dir(c) => c in st ==> DirEdgesPlus(st1, st2, dest, Base(to), c)
  {
  }

  lemma MoveKeepsShape<D>(st: Store<D>, root: D, from: Path, self: D, to: Path, dest: D)
    requires Shape(st, root) && Movable(st, root, from, self, to, dest)
    ensures Shape(Moved(st, root, from, self, to, dest), root)
  {
    hide Rooted, Closed, Acyclic, DirEdgesPlus, DirEdgesWithin, Orphan;
    var st1 := Detached(st, self, Base(from));
    var st2 := Moved(st, root, from, self, to, dest);
    MoveUpdates(st, root, from, self, to, dest);
    MoveEdges(st, root, from, self, to, dest);
    WithinKeepsShape(st, st1, root);
    match st[self].entries[Base(from)]
    case Leaf(_) =>
      WithinKeepsShape(st1, st2, root);
    case Dir(c) =>
      DetachedOrphan(st, root, self, Base(from), c);
      forall s
        ensures Resolve(st1, Dir(c), s) != Ok(Dir(dest))
      {
        MovedReachesNot(st, root, from, self, to, dest, c, s);
      }
      PlusKeepsShape(st1, st2, root, dest, Base(to), c);
  }

  lemma MoveKeepsNodes<D>(st: Store<D>, self: D, name: string, dest: D, newName: string)
    requires NodesOk(st) && self in st && dest in st && name in st[self].entries
    ensures NodesOk(MoveEntry(st, self, name, dest, newName))
  {
    var st1 := Detached(st, self, name);
    WithoutOk(st[self], name);
    assert NodesOk(st1);
    BoundOk(st1[dest], newName, st[self].entries[name], SubdirOf(st[self], name));
  }

  // ----- the system call -----

  lemma SameStringSamePath(p: Path, q: Path)
    requires AllNames(p) && AllNames(q)
    ensures PathString(p) == PathString(q) <==> p == q
  {
    PathRoundTrip(p);
    PathRoundTrip(q);
  }

  /** A source that is a leaf can have no destination below it. */
  lemma NotBelowLeaf<D>(st: Store<D>, root: D, from: Path, to: Path)
    requires from < to
    requires Resolve(st, Dir(root), from).Ok? && Resolve(st, Dir(root), from).value.Leaf?
    ensures Resolve(st, Dir(root), Parent(to)).Err? || Resolve(st, Dir(root), Parent(to)).value.Leaf?
  {
    var t := Parent(to)[|from|..];
    assert Parent(to) == from + t;
    ResolveAppend(st, Dir(root), from, t);
    if t != [] {
      LeafStuck(st, Resolve(st, Dir(root), from).value, t);
    }
  }

  /** A directory in which some component resolves has a positive entry count. */
  lemma ResolvesSoCounted<D>(st: Store<D>, i: Inode<D>, t: Path)
    requires NodesOk(st) && t != [] && Resolve(st, i, t).Ok?
    ensures i.Dir? && i.dir in st && st[i.dir].count > 0
  {
    assert [t[0]] + t[1..] == t;
    ResolveAppend(st, i, [t[0]], t[1..]);
    assert [t[0]][..0] == [];
    assert Resolve(st, i, []) == Ok(i);
    assert Resolve(st, i, [t[0]]) == Lookup(st, i, t[0]);
    assert NodeOk(st[i.dir]);
  }

  /** A destination that is a proper ancestor of the source is a directory in use, so it is refused. */
  lemma AncestorRefused<D>(st: Store<D>, root: D, from: Path, self: D, to: Path, dest: D)
    requires NodesOk(st)
    requires from != [] && to < from && to != []
    requires Resolve(st, Dir(root), Parent(from)) == Ok(Dir(self)) && self in st && Base(from) in st[self].entries
    requires Resolve(st, Dir(root), Parent(to)) == Ok(Dir(dest)) && dest in st
    ensures Base(to) in st[dest].entries
    ensures ReplaceError(st, self, dest, st[self].entries[Base(from)], st[dest].entries[Base(to)]) != 0
  {
    var t := Parent(from)[|to|..];
    assert Parent(from) == to + t;
    SplitLast(to);
    BelowEntry(st, root, Parent(to), dest, Base(to), t);
    if t != [] {
      ResolvesSoCounted(st, st[dest].entries[Base(to)], t);
    }
  }

  /** The checks rename has passed when it reaches the directory operation for distinct paths. */
  ghost predicate Reached<D>(st: Store<D>, root: D, from: Path, self: D, to: Path, dest: D) {
    && from != [] && to != [] && from != to
    && Resolve(st, Dir(root), Parent(from)) == Ok(Dir(self)) && self in st && Base(from) in st[self].entries
    && Resolve(st, Dir(root), Parent(to)) == Ok(Dir(dest)) && dest in st
    && (st[self].entries[Base(from)].Dir? ==> !StartsWith(PathString(to), PathString(from) + "/"))
    && (Base(to) in st[dest].entries ==>
          ReplaceError(st, self, dest, st[self].entries[Base(from)], st[dest].entries[Base(to)]) == 0)
  }

  lemma ReachedIsMovable<D>(st: Store<D>, root: D, from: Path, self: D, to: Path, dest: D)
    requires NodesOk(st) && AllNames(from) && AllNames(to)
    requires Reached(st, root, from, self, to, dest)
    ensures Movable(st, root, from, self, to, dest)
  {
    PrefixStringIffProperPrefix(from, to);
    if from < to {
      SplitLast(from);
      NotBelowLeaf(st, root, from, to);
    }
    if to < from {
      AncestorRefused(st, root, from, self, to, dest);
    }
  }

  /** Unfolds a successful call on distinct paths. */
  lemma RenameUnfolds<D>(st: Store<D>, root: D, cwd: string, oldPath: string, newPath: string)
      returns (self: D, dest: D)
    requires Rooted(st, root) && Closed(st)
    requires SysRename(st, root, cwd, oldPath, newPath).errno == 0
    requires PathString(NormComponents(cwd, oldPath)) != PathString(NormComponents(cwd, newPath))
    ensures Reached(st, root, NormComponents(cwd, oldPath), self, NormComponents(cwd, newPath), dest)
    ensures SysRename(st, root, cwd, oldPath, newPath)
         == DirRename(st, self, Base(NormComponents(cwd, oldPath)), Dir(dest), Base(NormComponents(cwd, newPath)))
  {
    hide UniqueParent, Orphan, Closed, NodeOk;
    var from := NormComponents(cwd, oldPath);
    var to := NormComponents(cwd, newPath);
    self := Resolve(st, Dir(root), Parent(from)).value.dir;
    dest := Resolve(st, Dir(root), Parent(to)).value.dir;
    ResolveInStore(st, root, Parent(from));
    ResolveInStore(st, root, Parent(to));
    if self == dest && Base(from) == Base(to) {
      PathUnique(st, root, Parent(from), Parent(to));
      SplitLast(from);
      SplitLast(to);
    }
  }

  lemma RenameReaches<D>(st: Store<D>, root: D, cwd: string, oldPath: string, newPath: string)
      returns (self: D, dest: D)
    requires Shape(st, root) && NodesOk(st)
    requires SysRename(st, root, cwd, oldPath, newPath).errno == 0
    requires NormComponents(cwd, oldPath) != NormComponents(cwd, newPath)
    ensures Movable(st, root, NormComponents(cwd, oldPath), self, NormComponents(cwd, newPath), dest)
    ensures SysRename(st, root, cwd, oldPath, newPath).st
         == Moved(st, root, NormComponents(cwd, oldPath), self, NormComponents(cwd, newPath), dest)
  {
    hide Rooted, Closed, Acyclic, NodeOk;
    var from := NormComponents(cwd, oldPath);
    var to := NormComponents(cwd, newPath);
    NormalizedNames(cwd, oldPath);
    NormalizedNames(cwd, newPath);
    SameStringSamePath(from, to);
    self, dest := RenameUnfolds(st, root, cwd, oldPath, newPath);
    ReachedIsMovable(st, root, from, self, to, dest);
    if self == dest && Base(from) == Base(to) {
      PathUnique(st, root, Parent(from), Parent(to));
      SplitLast(from);
      SplitLast(to);
    }
  }

  lemma DirRenameUnchanged<D>(st: Store<D>, self: D, name: string, parent: Inode<D>, newName: string)
    ensures DirRename(st, self, name, parent, newName).errno != 0 ==>
      DirRename(st, self, name, parent, newName).st == st
  {
  }

  lemma RenameUnchanged<D>(st: Store<D>, root: D, cwd: string, oldPath: string, newPath: string)
    requires var o := SysRename(st, root, cwd, oldPath, newPath);
             o.errno != 0 || NormComponents(cwd, oldPath) == NormComponents(cwd, newPath)
    ensures SysRename(st, root, cwd, oldPath, newPath).st == st
  {
    hide DirRename, NormComponents, PathString, Resolve, Lookup, StartsWith;
    var from, to := NormComponents(cwd, oldPath), NormComponents(cwd, newPath);
    if from != [] && to != [] {
      var oldParent := Resolve(st, Dir(root), Parent(from));
      var newParent := Resolve(st, Dir(root), Parent(to));
      if oldParent.Ok? && oldParent.value.Dir? && newParent.Ok? {
        DirRenameUnchanged(st, oldParent.value.dir, Base(from), newParent.value, Base(to));
      }
    }
  }

  /** rename(2) is atomic and is a subtree move: on error, and for equal paths, nothing changes;
      on success every path below the new name resolves to what it resolved to below the old
      name, nothing resolves at or below the old name, and every other path is as before. */
  lemma RenameMovesSubtree<D>(st: Store<D>, root: D, cwd: string, oldPath: string, newPath: string)
    requires Tree(st, root)
    ensures var from, to := NormComponents(cwd, oldPath), NormComponents(cwd, newPath);
            var o := SysRename(st, root, cwd, oldPath, newPath);
            if o.errno != 0 || from == to then o.st == st
            else
              && (forall s :: Resolve(o.st, Dir(root), to + s) == Resolve(st, Dir(root), from + s))
              && (forall s :: Resolve(o.st, Dir(root), from + s) == Err(ENOENT))
              && (forall q :: !(from <= q) && !(to <= q) ==> Resolve(o.st, Dir(root), q) == Resolve(st, Dir(root), q))
  {
    hide Rooted, Closed, Acyclic, NodeOk;
    var from, to := NormComponents(cwd, oldPath), NormComponents(cwd, newPath);
    var o := SysRename(st, root, cwd, oldPath, newPath);
    if o.errno != 0 || from == to {
      RenameUnchanged(st, root, cwd, oldPath, newPath);
    } else {
      var self, dest := RenameReaches(st, root, cwd, oldPath, newPath);
      forall s
        ensures Resolve(o.st, Dir(root), to + s) == Resolve(st, Dir(root), from + s)
        ensures Resolve(o.st, Dir(root), from + s) == Err(ENOENT)
      {
        MoveArrives(st, root, from, self, to, dest, s);
        MoveGone(st, root, from, self, to, dest, s);
      }
      forall q | !(from <= q) && !(to <= q)
        ensures Resolve(o.st, Dir(root), q) == Resolve(st, Dir(root), q)
      {
        MoveFrame(st, root, from, self, to, dest, q);
      }
    }
  }

  lemma RenameKeepsTree<D>(st: Store<D>, root: D, cwd: string, oldPath: string, newPath: string)
    requires Tree(st, root)
    ensures Tree(SysRename(st, root, cwd, oldPath, newPath).st, root)
  {
    hide Rooted, Closed, Acyclic, NodeOk;
    var from, to := NormComponents(cwd, oldPath), NormComponents(cwd, newPath);
    if SysRename(st, root, cwd, oldPath, newPath).errno == 0 && from != to {
      var self, dest := RenameReaches(st, root, cwd, oldPath, newPath);
      MoveKeepsShape(st, root, from, self, to, dest);
      MoveKeepsNodes(st, self, Base(from), dest, Base(to));
    } else {
      RenameUnchanged(st, root, cwd, oldPath, newPath);
    }
  }
}

/** The tree-changing operations of the filesystem as functions on the directory store, and what
    they do to every path: each call keeps the tree, and rename moves a whole subtree. */
module DirOps {
  import opened Common
  import opened Paths
  import opened DirTree

  /** A call's effect: the new store and 0 or an errno. */
  datatype Outcome<D> = Outcome(st: Store<D>, errno: int)

  // ----- operations of one directory -----

  function CreateFile<D(==)>(st: Store<D>, parent: Inode<D>, name: string, ino: nat): (o: Outcome<D>) {
    match parent
    case Leaf(_) => Outcome(st, ENOTDIR)
    case Dir(d) =>
      if d !in st || name in st[d].entries then Outcome(st, 0)
      else
        var n := st[d];
        Outcome(st[d := n.(entries := n.entries[name := Leaf(ino)], count := n.count + 1)], 0)
  }

  function CreateDir<D(==)>(st: Store<D>, parent: Inode<D>, name: string, child: D): (o: Outcome<D>) {
    match parent
    case Leaf(_) => Outcome(st, ENOTDIR)
    case Dir(d) =>
      if d !in st || name in st[d].entries then Outcome(st, EEXIST)
      else
        var n := st[d];
        var n' := DirNode(n.entries[name := Dir(child)], n.subdirs[name := child], n.count + 1);
        Outcome(st[child := EmptyNode()][d := n'], 0)
  }

  function Unlink<D(==)>(st: Store<D>, parent: Inode<D>, name: string): (o: Outcome<D>) {
    match parent
    case Leaf(_) => Outcome(st, ENOTDIR)
    case Dir(d) =>
      if d !in st || name !in st[d].entries then Outcome(st, ENOENT)
      else
        var n := st[d];
        Outcome(st[d := DirNode(n.entries - {name}, n.subdirs - {name}, n.count - 1)], 0)
  }

  /** The checks made on an existing target of rename; `self` and `dest` are the two parents. */
  function ReplaceError<D(==)>(st: Store<D>, self: D, dest: D, source: Inode<D>, target: Inode<D>): (e: int) {
    if source.Dir? && target.Leaf? then ENOTDIR
    else if source.Leaf? && target.Dir? then EISDIR
    else if source.Dir?
      && (target.dir == self || target.dir == dest || (target.dir in st && st[target.dir].count > 0)) then ENOTEMPTY
    else 0
  }

  /** Node after its entry `name` is taken out. */
  function Without<D>(n: DirNode<D>, name: string): (r: DirNode<D>) {
    DirNode(n.entries - {name}, n.subdirs - {name}, if name in n.entries then n.count - 1 else n.count)
  }

  /** Node after `name` is bound to `i`, with `sub` the typed directory reference if any. */
  function Bound<D>(n: DirNode<D>, name: string, i: Inode<D>, sub: Option<D>): (r: DirNode<D>) {
    var clear := Without(n, name);
    DirNode(clear.entries[name := i],
            if sub.Some? then clear.subdirs[name := sub.value] else clear.subdirs,
            clear.count + 1)
  }

  function SubdirOf<D>(n: DirNode<D>, name: string): (r: Option<D>) {
    if name in n.subdirs then Some(n.subdirs[name]) else None
  }

  /** Moves entry `name` of `self` to `newName` of `dest`, dropping what `newName` named before. */
  function MoveEntry<D(==)>(st: Store<D>, self: D, name: string, dest: D, newName: string): (r: Store<D>)
    requires self in st && dest in st && name in st[self].entries
  {
    var inode := st[self].entries[name];
    var sub := SubdirOf(st[self], name);
    var st1 := st[self := Without(st[self], name)];
    st1[dest := Bound(st1[dest], newName, inode, sub)]
  }

  function DirRename<D(==)>(st: Store<D>, self: D, name: string, parent: Inode<D>, newName: string): (o: Outcome<D>) {
    if parent.Leaf? then Outcome(st, EXDEV)
    else if self !in st || parent.dir !in st || name !in st[self].entries then Outcome(st, ENOENT)
    else if self == parent.dir && name == newName then Outcome(st, 0)
    else
      var source := st[self].entries[name];
      var e := if newName in st[parent.dir].entries
               then ReplaceError(st, self, parent.dir, source, st[parent.dir].entries[newName]) else 0;
      if e != 0 then Outcome(st, e) else Outcome(MoveEntry(st, self, name, parent.dir, newName), 0)
  }

  // ----- system calls -----

  function Parent(p: Path): (r: Path)
    requires p != []
  {
    p[..|p| - 1]
  }

  function Base(p: Path): (r: string)
    requires p != []
  {
    p[|p| - 1]
  }

  function SysMkdir<D(==)>(st: Store<D>, root: D, cwd: string, path: string, child: D): (o: Outcome<D>) {
    var cs := NormComponents(cwd, path);
    if cs == [] then Outcome(st, EINVAL)
    else
      match Resolve(st, Dir(root), Parent(cs))
      case Err(e) => Outcome(st, e)
      case Ok(parent) => CreateDir(st, parent, Base(cs), child)
  }

  /** open(2) with `create` for O_CREAT and `excl` for O_EXCL; only the directory side is kept. */
  function SysOpen<D(==)>(st: Store<D>, root: D, cwd: string, path: string, create: bool, excl: bool,
      ino: nat): (o: Outcome<D>) {
    var cs := NormComponents(cwd, path);
    match Resolve(st, Dir(root), cs)
    case Ok(_) => Outcome(st, if create && excl then EEXIST else 0)
    case Err(e) =>
      if e != ENOENT || !create || cs == [] then Outcome(st, e)
      else
        match Resolve(st, Dir(root), Parent(cs))
        case Err(e') => Outcome(st, e')
        case Ok(parent) => CreateFile(st, parent, Base(cs), ino)
  }

  function SysUnlink<D(==)>(st: Store<D>, root: D, cwd: string, path: string): (o: Outcome<D>) {
    var cs := NormComponents(cwd, path);
    if cs == [] then Outcome(st, EINVAL)
    else
      match Resolve(st, Dir(root), Parent(cs))
      case Err(e) => Outcome(st, e)
      case Ok(parent) => Unlink(st, parent, Base(cs))
  }

  function SysRename<D(==)>(st: Store<D>, root: D, cwd: string, oldPath: string, newPath: string): (o: Outcome<D>) {
    var from := NormComponents(cwd, oldPath);
    var to := NormComponents(cwd, newPath);
    if from == [] || to == [] then Outcome(st, EBUSY)
    else
      match Resolve(st, Dir(root), Parent(from))
      case Err(e) => Outcome(st, e)
      case Ok(oldParent) =>
        match Lookup(st, oldParent, Base(from))
        case Err(e) => Outcome(st, e)
        case Ok(source) =>
          if PathString(from) == PathString(to) then Outcome(st, 0)
          else if source.Dir? && StartsWith(PathString(to), PathString(from) + "/") then Outcome(st, EINVAL)
          else
            match Resolve(st, Dir(root), Parent(to))
            case Err(e) => Outcome(st, e)
            case Ok(newParent) =>
              if oldParent.Leaf? then Outcome(st, EROFS)
              else DirRename(st, oldParent.dir, Base(from), newParent, Base(to))
  }

  // ----- what every call keeps -----

  /** Same directories, and no directory entry that `st` lacks. */
  ghost predicate DirEdgesWithin<D>(st: Store<D>, st': Store<D>) {
    && st'.Keys == st.Keys
    && forall d, m :: d in st && Lookup(st', Dir(d), m).Ok? && Lookup(st', Dir(d), m).value.Dir? ==>
      Lookup(st', Dir(d), m) == Lookup(st, Dir(d), m)
  }

  /** Same directories, and no directory entry that `st` lacks except `name` of `d`, which names `child`. */
  ghost predicate DirEdgesPlus<D>(st: Store<D>, st': Store<D>, d: D, name: string, child: D) {
    && st'.Keys == st.Keys && d in st && child in st
    && forall x, m :: x in st && Lookup(st', Dir(x), m).Ok? && Lookup(st', Dir(x), m).value.Dir? ==>
      || Lookup(st', Dir(x), m) == Lookup(st, Dir(x), m)
      || (x == d && m == name && Lookup(st', Dir(x), m) == Ok(Dir(child)))
  }

  lemma {:induction false} WithinWalk<D>(st: Store<D>, st': Store<D>, i: Inode<D>, p: Path)
    requires DirEdgesWithin(st, st')
    requires Resolve(st', i, p).Ok? && Resolve(st', i, p).value.Dir?
    ensures Resolve(st, i, p) == Resolve(st', i, p)
  {
    if p != [] {
      WithinWalk(st, st', i, p[..|p| - 1]);
    }
  }

  /** Dropping directory entries, or changing leaves, keeps the shape. */
  lemma WithinKeepsShape<D>(st: Store<D>, st': Store<D>, root: D)
    requires Shape(st, root) && DirEdgesWithin(st, st')
    ensures Shape(st', root)
  {
    forall d, p | d in st' && Resolve(st', Dir(d), p) == Ok(Dir(d))
      ensures p == []
    {
      WithinWalk(st, st', Dir(d), p);
    }
  }

  /** The walk of `p` from `i` stands in `d` after `k` steps, takes the added entry, and finishes in `st`. */
  ghost predicate Via<D>(st: Store<D>, st': Store<D>, d: D, child: D, i: Inode<D>, p: Path, k: nat) {
    && k < |p|
    && Resolve(st', i, p[..k]) == Ok(Dir(d))
    && Resolve(st, Dir(child), p[k + 1..]) == Resolve(st', i, p)
  }

  lemma ViaExtends<D>(st: Store<D>, st': Store<D>, d: D, child: D, i: Inode<D>, p: Path, k: nat)
    requires p != [] && Via(st, st', d, child, i, p[..|p| - 1], k)
    requires Resolve(st', i, p[..|p| - 1]).Ok?
    requires Lookup(st, Resolve(st', i, p[..|p| - 1]).value, p[|p| - 1]) == Resolve(st', i, p)
    ensures Via(st, st', d, child, i, p, k)
  {
    hide Resolve, Lookup;
    var p0, m := p[..|p| - 1], p[|p| - 1];
    CutLast(p, k);
    ResolveSnoc(st, Dir(child), p0[k + 1..], m);
  }

  /** A walk in the larger store either was there before or last passes the added entry. */
  lemma {:induction false} PlusWalk<D>(st: Store<D>, st': Store<D>, d: D, name: string, child: D, i: Inode<D>, p: Path)
    requires DirEdgesPlus(st, st', d, name, child)
    requires Resolve(st', i, p).Ok? && Resolve(st', i, p).value.Dir?
    ensures Resolve(st, i, p) == Resolve(st', i, p) || exists k :: Via(st, st', d, child, i, p, k)
  {
    if p != [] {
      var n := |p| - 1;
      var p0 := p[..n];
      PlusWalk(st, st', d, name, child, i, p0);
      var y := Resolve(st', i, p0).value.dir;
      if Lookup(st', Dir(y), p[n]) == Lookup(st, Dir(y), p[n]) {
        if k :| Via(st, st', d, child, i, p0, k) {
          ViaExtends(st, st', d, child, i, p, k);
        }
      } else {
        assert p[n + 1..] == [];
        assert Via(st, st', d, child, i, p, n);
      }
    }
  }

  /** A cycle through the added entry would let the child reach its new parent. */
  lemma NoCycleVia<D>(st: Store<D>, st': Store<D>, d: D, name: string, child: D, x: D, p: Path, k: nat)
    requires DirEdgesPlus(st, st', d, name, child)
    requires Resolve(st', Dir(x), p) == Ok(Dir(x)) && Via(st, st', d, child, Dir(x), p, k)
    ensures exists s :: Resolve(st, Dir(child), s) == Ok(Dir(d))
  {
    PlusWalk(st, st', d, name, child, Dir(x), p[..k]);
    hide DirEdgesPlus;
    if Resolve(st, Dir(x), p[..k]) == Resolve(st', Dir(x), p[..k]) {
      ResolveAppend(st, Dir(child), p[k + 1..], p[..k]);
      assert Resolve(st, Dir(child), p[k + 1..] + p[..k]) == Ok(Dir(d));
    }
  }

  lemma PlusAcyclic<D>(st: Store<D>, st': Store<D>, d: D, name: string, child: D)
    requires Acyclic(st) && DirEdgesPlus(st, st', d, name, child)
    requires forall s :: Resolve(st, Dir(child), s) != Ok(Dir(d))
    ensures Acyclic(st')
  {
    assert st'.Keys == st.Keys;
    hide DirEdgesPlus, Via, Resolve;
    forall x, p | x in st' && Resolve(st', Dir(x), p) == Ok(Dir(x))
      ensures p == []
    {
      PlusWalk(st, st', d, name, child, Dir(x), p);
      if k :| Via(st, st', d, child, Dir(x), p, k) {
        NoCycleVia(st, st', d, name, child, x, p, k);
      }
    }
  }

  /** Hanging a parentless directory below one it does not reach keeps the shape. */
  lemma PlusKeepsShape<D>(st: Store<D>, st': Store<D>, root: D, d: D, name: string, child: D)
    requires Shape(st, root) && DirEdgesPlus(st, st', d, name, child)
    requires Orphan(st, child) && child != root
    requires forall s :: Resolve(st, Dir(child), s) != Ok(Dir(d))
    ensures Shape(st', root)
  {
    PlusAcyclic(st, st', d, name, child);
  }

  lemma WithoutOk<D>(n: DirNode<D>, name: string)
    requires NodeOk(n)
    ensures NodeOk(Without(n, name))
  {
    RemoveSize(n.entries, name);
  }

  /** A new name added to both maps. */
  lemma AddedOk<D>(n: DirNode<D>, name: string, i: Inode<D>, sub: Option<D>)
    requires NodeOk(n) && name !in n.entries && (sub.Some? ==> i == Dir(sub.value))
    ensures var subdirs := if sub.Some? then n.subdirs[name := sub.value] else n.subdirs;
            NodeOk(DirNode(n.entries[name := i], subdirs, n.count + 1))
  {
    AddSize(n.entries, name, i);
  }

  lemma BoundOk<D>(n: DirNode<D>, name: string, i: Inode<D>, sub: Option<D>)
    requires NodeOk(n) && (sub.Some? ==> i == Dir(sub.value))
    ensures NodeOk(Bound(n, name, i, sub))
  {
    hide NodeOk, Without;
    WithoutOk(n, name);
    WithoutGone(n, name);
    AddedOk(Without(n, name), name, i, sub);
  }

  lemma WithoutGone<D>(n: DirNode<D>, name: string)
    ensures name !in Without(n, name).entries
  {
  }

  lemma CreateFileEffect<D>(st: Store<D>, parent: Inode<D>, name: string, ino: nat)
    ensures DirEdgesWithin(st, CreateFile(st, parent, name, ino).st)
    ensures NodesOk(st) ==> NodesOk(CreateFile(st, parent, name, ino).st)
  {
    if parent.Dir? && parent.dir in st && name !in st[parent.dir].entries {
      AddSize(st[parent.dir].entries, name, Leaf(ino));
    }
  }

  lemma UnlinkEffect<D>(st: Store<D>, parent: Inode<D>, name: string)
    ensures DirEdgesWithin(st, Unlink(st, parent, name).st)
    ensures NodesOk(st) ==> NodesOk(Unlink(st, parent, name).st)
  {
    if parent.Dir? && parent.dir in st && name in st[parent.dir].entries && NodesOk(st) {
      WithoutOk(st[parent.dir], name);
      assert Unlink(st, parent, name).st[parent.dir] == Without(st[parent.dir], name);
    }
  }

  /** Adding an empty unattached directory keeps the shape. */
  lemma IsolatedKeepsShape<D>(st: Store<D>, root: D, child: D)
    requires Shape(st, root) && child !in st
    ensures Shape(st[child := EmptyNode()], root)
    ensures Orphan(st[child := EmptyNode()], child)
  {
    var st' := st[child := EmptyNode()];
    assert forall d, m :: d in st' ==> Lookup(st', Dir(d), m) == Lookup(st, Dir(d), m);
    forall d, p | d in st' && Resolve(st', Dir(d), p) == Ok(Dir(d))
      ensures p == []
    {
      if d == child {
        if p != [] { EmptyStuck(st', child, p); }
      } else {
        IsolatedWalk(st, child, d, p);
      }
    }
  }

  lemma {:induction false} EmptyStuck<D>(st: Store<D>, d: D, s: Path)
    requires d in st && st[d].entries == map[] && s != []
    ensures Resolve(st, Dir(d), s) == Err(ENOENT)
  {
    if |s| > 1 {
      EmptyStuck(st, d, s[..|s| - 1]);
    }
  }

  lemma {:induction false} IsolatedWalk<D>(st: Store<D>, child: D, d: D, p: Path)
    requires Closed(st) && child !in st && d in st
    ensures Resolve(st[child := EmptyNode()], Dir(d), p) == Resolve(st, Dir(d), p)
  {
    if p != [] {
      var q := p[..|p| - 1];
      IsolatedWalk(st, child, d, q);
      if Resolve(st, Dir(d), q).Ok? && Resolve(st, Dir(d), q).value.Dir? {
        ResolveClosed(st, d, q);
      }
    }
  }

  lemma CreateDirEdges<D>(st: Store<D>, d: D, name: string, child: D)
    requires d in st && child !in st && name !in st[d].entries
    ensures DirEdgesPlus(st[child := EmptyNode()], CreateDir(st, Dir(d), name, child).st, d, name, child)
  {
  }

  lemma CreateDirNodes<D>(st: Store<D>, parent: Inode<D>, name: string, child: D)
    requires NodesOk(st)
    ensures NodesOk(CreateDir(st, parent, name, child).st)
  {
    if parent.Dir? && parent.dir in st && name !in st[parent.dir].entries {
      var n := st[parent.dir];
      assert NodeOk(n);
      AddSize(n.entries, name, Dir(child));
      assert NodeOk(DirNode(n.entries[name := Dir(child)], n.subdirs[name := child], n.count + 1));
    }
  }

  lemma CreateDirKeepsShape<D>(st: Store<D>, root: D, parent: Inode<D>, name: string, child: D)
    requires Shape(st, root) && child !in st
    ensures Shape(CreateDir(st, parent, name, child).st, root)
  {
    if parent.Dir? && parent.dir in st && name !in st[parent.dir].entries {
      var d := parent.dir;
      IsolatedKeepsShape(st, root, child);
      var mid := st[child := EmptyNode()];
      forall s
        ensures Resolve(mid, Dir(child), s) != Ok(Dir(d))
      {
        if s != [] { EmptyStuck(mid, child, s); }
      }
      CreateDirEdges(st, d, name, child);
      PlusKeepsShape(mid, CreateDir(st, parent, name, child).st, root, d, name, child);
    }
  }
}

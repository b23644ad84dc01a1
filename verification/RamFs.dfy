/** The mutable filesystem: directory objects updated in place, and the system calls that find
    them by path. Every method is tied to the store functions, so the path theorems apply to it. */
module RamFs {
  import opened Common
  import opened Paths
  import opened DirTree
  import opened DirOps
  import Rename
  import FsRuns

  /** The value of the directory objects in `dirs`. */
  ghost function Snapshot(dirs: set<RamFsDir>): (st: Store<RamFsDir>)
    reads dirs
  {
    map d | d in dirs :: d.Node()
  }

  class RamFsDir {
    var entries: map<string, Inode<RamFsDir>>
    var subdirs: map<string, RamFsDir>
    var entryCount: int

    ghost function Node(): (n: DirNode<RamFsDir>)
      reads this
    {
      DirNode(entries, subdirs, entryCount)
    }

    constructor ()
      ensures Node() == EmptyNode()
    {
      entries, subdirs, entryCount := map[], map[], 0;
    }

    method CreateFile(name: string, ino: nat, ghost dirs: set<RamFsDir>)
      requires this in dirs
      modifies this
      ensures Snapshot(dirs) == DirOps.CreateFile(old(Snapshot(dirs)), Dir(this), name, ino).st
    {
      if name in entries {
        return;
      }
      entries := entries[name := Leaf(ino)];
      entryCount := entryCount + 1;
    }

    method CreateDir(name: string, ghost dirs: set<RamFsDir>) returns (errno: int, child: RamFsDir?)
      requires this in dirs
      modifies this
      ensures errno == if name in old(entries) then EEXIST else 0
      ensures errno != 0 ==> Snapshot(dirs) == old(Snapshot(dirs))
      ensures errno == 0 ==>
        && child != null && fresh(child)
        && Snapshot(dirs + {child}) == DirOps.CreateDir(old(Snapshot(dirs)), Dir(this), name, child).st
    {
      if name in entries {
        return EEXIST, null;
      }
      child := new RamFsDir();
      subdirs := subdirs[name := child];
      entries := entries[name := Dir(child)];
      entryCount := entryCount + 1;
      errno := 0;
    }

    method Unlink(name: string, ghost dirs: set<RamFsDir>) returns (errno: int)
      requires this in dirs
      modifies this
      ensures var o := DirOps.Unlink(old(Snapshot(dirs)), Dir(this), name);
              errno == o.errno && Snapshot(dirs) == o.st
    {
      if name in entries {
        entries := entries - {name};
        subdirs := subdirs - {name};
        entryCount := entryCount - 1;
        return 0;
      }
      return ENOENT;
    }

    /** The shared target checks of both rename branches. */
    method CheckReplace(dest: RamFsDir, source: Inode<RamFsDir>, target: Inode<RamFsDir>, ghost dirs: set<RamFsDir>)
        returns (errno: int)
      requires target.Dir? ==> target.dir in dirs
      ensures errno == ReplaceError(Snapshot(dirs), this, dest, source, target)
    {
      if source.Dir? && target.Leaf? {
        return ENOTDIR;
      }
      if source.Leaf? && target.Dir? {
        return EISDIR;
      }
      if source.Dir? && target.Dir? {
        if target.dir == this || target.dir == dest || target.dir.entryCount > 0 {
          return ENOTEMPTY;
        }
      }
      return 0;
    }

    method Rename(oldName: string, newParent: Inode<RamFsDir>, newName: string, ghost dirs: set<RamFsDir>)
        returns (errno: int)
      requires this in dirs && (newParent.Dir? ==> newParent.dir in dirs)
      requires Closed(Snapshot(dirs))
      modifies this, if newParent.Dir? then {newParent.dir} else {}
      ensures var o := DirRename(old(Snapshot(dirs)), this, oldName, newParent, newName);
              errno == o.errno && Snapshot(dirs) == o.st
    {
      hide MoveEntry;
      if newParent.Leaf? {
        return EXDEV;
      }
      var dest := newParent.dir;
      ghost var st := Snapshot(dirs);
      assert st[this] == this.Node() && st[dest] == dest.Node();
      if oldName !in entries {
        return ENOENT;
      }
      var source := entries[oldName];
      if this == dest && oldName == newName {
        return 0;
      }
      if newName in dest.entries {
        assert Lookup(st, Dir(dest), newName) == Ok(dest.entries[newName]);
        var e := CheckReplace(dest, source, dest.entries[newName], dirs);
        if e != 0 {
          return e;
        }
      }
      Move(oldName, dest, newName, dirs);
      errno := 0;
    }

    /** Within one directory or across two, the entry moves and the rest stays. */
    method Move(oldName: string, dest: RamFsDir, newName: string, ghost dirs: set<RamFsDir>)
      requires this in dirs && dest in dirs && oldName in entries && (this != dest || oldName != newName)
      modifies this, dest
      ensures Snapshot(dirs) == MoveEntry(old(Snapshot(dirs)), this, oldName, dest, newName)
    {
      hide Bound, Without, SubdirOf;
      ghost var st := Snapshot(dirs);
      if this == dest {
        RenameWithin(oldName, newName);
      } else {
        RenameAcross(oldName, dest, newName);
      }
      assert forall d :: d in dirs ==> Snapshot(dirs)[d] == MoveEntry(st, this, oldName, dest, newName)[d];
    }

    method RenameWithin(oldName: string, newName: string)
      requires oldName in entries && oldName != newName
      modifies this
      ensures Node()
        == Bound(Without(old(Node()), oldName), newName, old(entries)[oldName], SubdirOf(old(Node()), oldName))
    {
      var inode := entries[oldName];
      var sub := if oldName in subdirs then Some(subdirs[oldName]) else None;
      entries := entries - {oldName};
      subdirs := subdirs - {oldName};
      var replaced := newName in entries;
      entries := entries - {newName};
      subdirs := subdirs - {newName};
      entries := entries[newName := inode];
      if sub.Some? {
        subdirs := subdirs[newName := sub.value];
      }
      if replaced {
        entryCount := entryCount - 1;
      }
    }

    method RenameAcross(oldName: string, dest: RamFsDir, newName: string)
      requires oldName in entries && dest != this
      modifies this, dest
      ensures Node() == Without(old(Node()), oldName)
      ensures dest.Node() == Bound(old(dest.Node()), newName, old(entries)[oldName], SubdirOf(old(Node()), oldName))
    {
      var inode := entries[oldName];
      var sub := if oldName in subdirs then Some(subdirs[oldName]) else None;
      entries := entries - {oldName};
      subdirs := subdirs - {oldName};
      entryCount := entryCount - 1;
      var replaced := newName in dest.entries;
      dest.entries := dest.entries - {newName};
      dest.subdirs := dest.subdirs - {newName};
      dest.entries := dest.entries[newName := inode];
      if sub.Some? {
        dest.subdirs := dest.subdirs[newName := sub.value];
      }
      if !replaced {
        dest.entryCount := dest.entryCount + 1;
      }
    }
  }

  /** The mounted filesystem: a root directory and, as ghost state, every directory made so far. */
  class Vfs {
    const root: RamFsDir
    ghost var dirs: set<RamFsDir>

    ghost predicate Valid()
      reads this, dirs
    {
      root in dirs && Tree(Snapshot(dirs), root)
    }

    constructor ()
      ensures Valid() && fresh(dirs) && Snapshot(dirs) == map[root := EmptyNode()]
    {
      root := new RamFsDir();
      new;
      dirs := {root};
      FsRuns.EmptyRootIsTree(root);
      assert Snapshot(dirs) == map[root := EmptyNode()];
    }

    /** The lookup loop shared by the resolvers. */
    method Walk(parts: seq<string>) returns (r: Result<Inode<RamFsDir>>)
      requires Valid()
      ensures r == Resolve(Snapshot(dirs), Dir(root), parts)
    {
      hide Rooted, Closed, Acyclic, NodesOk;
      ghost var st := Snapshot(dirs);
      var current := Dir(root);
      var i := 0;
      while i < |parts|
        invariant 0 <= i <= |parts|
        invariant Resolve(st, Dir(root), parts[..i]) == Ok(current)
      {
        assert parts[..i + 1][..i] == parts[..i];
        if current.Dir? {
          ResolveInStore(st, root, parts[..i]);
          assert st[current.dir] == current.dir.Node();
        }
        if current.Leaf? || parts[i] !in current.dir.entries {
          r := Err(if current.Leaf? then ENOTDIR else ENOENT);
          ResolveAppend(st, Dir(root), parts[..i + 1], parts[i + 1..]);
          assert parts[..i + 1] + parts[i + 1..] == parts;
          return;
        }
        current := current.dir.entries[parts[i]];
        i := i + 1;
      }
      assert parts[..i] == parts;
      r := Ok(current);
    }

    method ResolvePath(cwd: string, path: string) returns (r: Result<Inode<RamFsDir>>)
      requires Valid()
      ensures r == Resolve(Snapshot(dirs), Dir(root), NormComponents(cwd, path))
    {
      hide Rooted, Closed, Acyclic, NodesOk;
      var norm := NormalizePath(cwd, path);
      NormalizedNames(cwd, path);
      PathRoundTrip(NormComponents(cwd, path));
      if norm == "/" {
        return Ok(Dir(root));
      }
      r := Walk(NonEmptyParts(Split(norm)));
    }

    method ResolveParentAndBasename(cwd: string, path: string) returns (r: Result<(Inode<RamFsDir>, string)>)
      requires Valid()
      ensures var cs := NormComponents(cwd, path);
              if cs == [] then r == Err(EINVAL)
              else match Resolve(Snapshot(dirs), Dir(root), Parent(cs))
                   case Err(e) => r == Err(e)
                   case Ok(i) => r == Ok((i, Base(cs)))
    {
      hide Rooted, Closed, Acyclic, NodesOk;
      var norm := NormalizePath(cwd, path);
      NormalizedNames(cwd, path);
      PathRoundTrip(NormComponents(cwd, path));
      if norm == "/" {
        return Err(EINVAL);
      }
      var parts := NonEmptyParts(Split(norm));
      var parent := Walk(parts[..|parts| - 1]);
      match parent
      case Err(e) => r := Err(e);
      case Ok(i) => r := Ok((i, parts[|parts| - 1]));
    }

    /** The directory objects that a resolved inode may update are known to the filesystem. */
    lemma Known(p: Path)
      requires Valid() && Resolve(Snapshot(dirs), Dir(root), p).Ok? && Resolve(Snapshot(dirs), Dir(root), p).value.Dir?
      ensures Resolve(Snapshot(dirs), Dir(root), p).value.dir in dirs
    {
      hide Rooted, Closed, Acyclic, NodesOk;
      ResolveInStore(Snapshot(dirs), root, p);
    }

    method SysMkdir(cwd: string, path: string) returns (errno: int, ghost child: RamFsDir?)
      requires Valid()
      modifies this, dirs
      ensures Valid()
      ensures errno == DirOps.SysMkdir(old(Snapshot(dirs)), root, cwd, path, root).errno
      ensures errno != 0 ==> dirs == old(dirs) && Snapshot(dirs) == old(Snapshot(dirs))
      ensures errno == 0 ==>
        && child != null && fresh(child) && dirs == old(dirs) + {child}
        && Snapshot(dirs) == DirOps.SysMkdir(old(Snapshot(dirs)), root, cwd, path, child).st
    {
      hide Rooted, Closed, Acyclic, NodesOk;
      hide Resolve, NormComponents;
      ghost var st := Snapshot(dirs);
      child := null;
      var r := ResolveParentAndBasename(cwd, path);
      if r.Err? {
        return r.errno, child;
      }
      if r.value.0.Leaf? {
        return ENOTDIR, child;
      }
      Known(Parent(NormComponents(cwd, path)));
      var parent := r.value.0.dir;
      assert st[parent] == parent.Node();
      var c;
      errno, c := parent.CreateDir(r.value.1, dirs);
      if errno == 0 {
        child := c;
        FsRuns.MkdirKeepsTree(st, root, cwd, path, c);
        dirs := dirs + {c};
      }
    }

    method SysOpenCreate(cwd: string, path: string, create: bool, excl: bool, ino: nat) returns (errno: int)
      requires Valid()
      modifies dirs
      ensures Valid() && dirs == old(dirs)
      ensures DirOps.SysOpen(old(Snapshot(dirs)), root, cwd, path, create, excl, ino) == Outcome(Snapshot(dirs), errno)
    {
      hide Rooted, Closed, Acyclic, NodesOk;
      ghost var st := Snapshot(dirs);
      FsRuns.OpenKeepsTree(st, root, cwd, path, create, excl, ino);
      var found := ResolvePath(cwd, path);
      if found.Ok? {
        return if create && excl then EEXIST else 0;
      }
      if found.errno != ENOENT || !create {
        return found.errno;
      }
      var r := ResolveParentAndBasename(cwd, path);
      if r.Err? {
        return r.errno;
      }
      if r.value.0.Leaf? {
        return ENOTDIR;
      }
      Known(Parent(NormComponents(cwd, path)));
      r.value.0.dir.CreateFile(r.value.1, ino, dirs);
      errno := 0;
    }

    method SysUnlink(cwd: string, path: string) returns (errno: int)
      requires Valid()
      modifies dirs
      ensures Valid() && dirs == old(dirs)
      ensures DirOps.SysUnlink(old(Snapshot(dirs)), root, cwd, path) == Outcome(Snapshot(dirs), errno)
    {
      hide Rooted, Closed, Acyclic, NodesOk;
      ghost var st := Snapshot(dirs);
      FsRuns.UnlinkKeepsTree(st, root, cwd, path);
      var r := ResolveParentAndBasename(cwd, path);
      if r.Err? {
        return r.errno;
      }
      if r.value.0.Leaf? {
        return ENOTDIR;
      }
      Known(Parent(NormComponents(cwd, path)));
      errno := r.value.0.dir.Unlink(r.value.1, dirs);
    }

    method SysRename(cwd: string, oldPath: string, newPath: string) returns (errno: int)
      requires Valid()
      modifies dirs
      ensures Valid() && dirs == old(dirs)
      ensures DirOps.SysRename(old(Snapshot(dirs)), root, cwd, oldPath, newPath) == Outcome(Snapshot(dirs), errno)
    {
      hide Rooted, Closed, Acyclic, NodesOk;
      hide DirRename, Resolve, StartsWith, NormComponents, PathString, AllNames, NonEmptyParts, Split;
      ghost var st := Snapshot(dirs);
      ghost var from, to := NormComponents(cwd, oldPath), NormComponents(cwd, newPath);
      Rename.RenameKeepsTree(st, root, cwd, oldPath, newPath);
      var normOld := NormalizePath(cwd, oldPath);
      var normNew := NormalizePath(cwd, newPath);
      NormalizedNames(cwd, oldPath);
      NormalizedNames(cwd, newPath);
      PathRoundTrip(from);
      PathRoundTrip(to);
      if normOld == "/" || normNew == "/" {
        return EBUSY;
      }
      var o := ResolveParentAndBasename(cwd, oldPath);
      if o.Err? {
        return o.errno;
      }
      var oldParent, oldBase := o.value.0, o.value.1;
      if oldParent.Leaf? {
        return ENOTDIR;
      }
      Known(Parent(from));
      assert st[oldParent.dir] == oldParent.dir.Node();
      if oldBase !in oldParent.dir.entries {
        return ENOENT;
      }
      var source := oldParent.dir.entries[oldBase];
      if normOld == normNew {
        return 0;
      }
      if source.Dir? && StartsWith(normNew, normOld + "/") {
        return EINVAL;
      }
      var n := ResolveParentAndBasename(cwd, newPath);
      if n.Err? {
        return n.errno;
      }
      if n.value.0.Dir? {
        Known(Parent(to));
      }
      errno := oldParent.dir.Rename(oldBase, n.value.0, n.value.1, dirs);
    }
  }
}

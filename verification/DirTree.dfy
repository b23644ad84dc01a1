/** The directory graph of the in-memory filesystem, on values: inodes, name lookup, path
    resolution and the tree invariant, with the lemmas that relate one entry update to every path. */
module DirTree {
  import opened Common

  /** Every directory is a ramfs directory; files and devices are leaves. `D` identifies directories. */
  datatype Inode<D> = Dir(dir: D) | Leaf(ino: nat)

  datatype DirNode<D> = DirNode(entries: map<string, Inode<D>>, subdirs: map<string, D>, count: int)

  type Store<D> = map<D, DirNode<D>>

  type Path = seq<string>

  function EmptyNode<D>(): (n: DirNode<D>) {
    DirNode(map[], map[], 0)
  }

  function Lookup<D(==)>(st: Store<D>, i: Inode<D>, name: string): (r: Result<Inode<D>>)
    ensures r.Err? ==> r.errno == ENOENT || r.errno == ENOTDIR
  {
    match i
    case Leaf(_) => Err(ENOTDIR)
    case Dir(d) =>
      if d in st && name in st[d].entries then Ok(st[d].entries[name]) else Err(ENOENT)
  }

  /** Follows `p` one component at a time from `start`. */
  function Resolve<D(==)>(st: Store<D>, start: Inode<D>, p: Path): (r: Result<Inode<D>>)
    ensures r.Err? ==> r.errno == ENOENT || r.errno == ENOTDIR
  {
    if p == [] then Ok(start)
    else
      match Resolve(st, start, p[..|p| - 1])
      case Err(e) => Err(e)
      case Ok(i) => Lookup(st, i, p[|p| - 1])
  }

  /** `entry_count` is the number of entries and `subdirs` agrees with `entries` where defined. */
  ghost predicate NodeOk<D>(n: DirNode<D>) {
    && n.count == |n.entries|
    && forall m :: m in n.subdirs ==> m in n.entries && n.entries[m] == Dir(n.subdirs[m])
  }

  /** Every directory entry leads to a directory of the store. */
  ghost predicate Closed<D>(st: Store<D>) {
    forall d, m :: d in st && Lookup(st, Dir(d), m).Ok? && Lookup(st, Dir(d), m).value.Dir? ==>
      Lookup(st, Dir(d), m).value.dir in st
  }

  /** No directory has two parent entries. */
  ghost predicate UniqueParent<D>(st: Store<D>) {
    forall d, m, d', m' ::
      && d in st && d' in st
      && Lookup(st, Dir(d), m).Ok? && Lookup(st, Dir(d), m).value.Dir?
      && Lookup(st, Dir(d), m) == Lookup(st, Dir(d'), m')
      ==> d == d' && m == m'
  }

  /** The root has no parent entry. */
  ghost predicate Orphan<D>(st: Store<D>, root: D) {
    forall d, m :: d in st ==> Lookup(st, Dir(d), m) != Ok(Dir(root))
  }

  /** No directory, reachable or detached, is its own descendant. */
  ghost predicate Acyclic<D>(st: Store<D>) {
    forall d, p :: d in st && Resolve(st, Dir(d), p) == Ok(Dir(d)) ==> p == []
  }

  ghost predicate Rooted<D>(st: Store<D>, root: D) {
    root in st && UniqueParent(st) && Orphan(st, root)
  }

  /** One parent entry each, no dangling entry, none its own descendant. */
  ghost predicate Shape<D>(st: Store<D>, root: D) {
    Rooted(st, root) && Closed(st) && Acyclic(st)
  }

  ghost predicate NodesOk<D>(st: Store<D>) {
    forall d :: d in st ==> NodeOk(st[d])
  }

  ghost predicate Tree<D>(st: Store<D>, root: D) {
    Shape(st, root) && NodesOk(st)
  }

  lemma {:induction false} ResolveAppend<D>(st: Store<D>, i: Inode<D>, p: Path, q: Path)
    ensures Resolve(st, i, p).Err? ==> Resolve(st, i, p + q) == Resolve(st, i, p)
    ensures Resolve(st, i, p).Ok? ==> Resolve(st, i, p + q) == Resolve(st, Resolve(st, i, p).value, q)
  {
    if q == [] {
      assert p + q == p;
    } else {
      var n := |q| - 1;
      assert (p + q)[..|p| + n] == p + q[..n];
      ResolveAppend(st, i, p, q[..n]);
    }
  }

  /** A walk fails exactly at the first component that is missing from its directory, with ENOENT, or
      whose predecessor is no directory, with ENOTDIR; every shorter walk succeeds. */
  lemma {:induction false} ResolveFailsAt<D>(st: Store<D>, start: Inode<D>, p: Path, e: int)
    ensures Resolve(st, start, p) == Err(e) <==> exists k :: 0 <= k < |p| && FailsAt(st, start, p, k, e)
  {
    if p != [] {
      var n := |p| - 1;
      ResolveFailsAt(st, start, p[..n], e);
      forall k | 0 <= k < n
        ensures FailsAt(st, start, p[..n], k, e) <==> FailsAt(st, start, p, k, e)
      {
        assert p[..n][..k] == p[..k];
      }
      if Resolve(st, start, p) == Err(e) {
        if Resolve(st, start, p[..n]).Ok? {
          assert FailsAt(st, start, p, n, e);
        } else {
          var k :| 0 <= k < n && FailsAt(st, start, p[..n], k, e);
          assert FailsAt(st, start, p, k, e);
        }
      }
    }
  }

  /** The walk gets as far as component `k` and fails there. */
  ghost predicate FailsAt<D>(st: Store<D>, start: Inode<D>, p: Path, k: int, e: int)
    requires 0 <= k < |p|
  {
    match Resolve(st, start, p[..k])
    case Err(_) => false
    case Ok(Leaf(_)) => e == ENOTDIR
    case Ok(Dir(d)) => e == ENOENT && (d !in st || p[k] !in st[d].entries)
  }

  lemma ResolveSnoc<D>(st: Store<D>, i: Inode<D>, q: Path, m: string)
    ensures Resolve(st, i, q + [m]) ==
            match Resolve(st, i, q)
            case Err(e) => Err(e)
            case Ok(x) => Lookup(st, x, m)
  {
    assert (q + [m])[..|q|] == q;
  }

  lemma {:induction false} ResolveClosed<D>(st: Store<D>, d: D, p: Path)
    requires Closed(st) && d in st
    requires Resolve(st, Dir(d), p).Ok? && Resolve(st, Dir(d), p).value.Dir?
    ensures Resolve(st, Dir(d), p).value.dir in st
  {
    if p != [] {
      var r := Resolve(st, Dir(d), p[..|p| - 1]);
      ResolveClosed(st, d, p[..|p| - 1]);
    }
  }

  lemma ResolveInStore<D>(st: Store<D>, root: D, p: Path)
    requires Rooted(st, root) && Closed(st)
    requires Resolve(st, Dir(root), p).Ok? && Resolve(st, Dir(root), p).value.Dir?
    ensures Resolve(st, Dir(root), p).value.dir in st
  {
    ResolveClosed(st, root, p);
  }

  /** In a rooted store a directory is reached by one path only: the reachable part is a tree. */
  lemma {:induction false} PathUnique<D>(st: Store<D>, root: D, p: Path, q: Path)
    requires Rooted(st, root)
    requires Resolve(st, Dir(root), p).Ok? && Resolve(st, Dir(root), p).value.Dir?
    requires Resolve(st, Dir(root), p) == Resolve(st, Dir(root), q)
    ensures p == q
  {
    if p != [] && q != [] {
      PathUnique(st, root, p[..|p| - 1], q[..|q| - 1]);
      assert p == p[..|p| - 1] + [p[|p| - 1]];
      assert q == q[..|q| - 1] + [q[|q| - 1]];
    }
  }

  /** The graph side of rename's textual test: a directory found at `to` descends from the
      directory found at `from` exactly when `from` is a prefix of `to`. */
  lemma AncestorIffPrefix<D>(st: Store<D>, root: D, from: Path, to: Path)
    requires Rooted(st, root)
    requires Resolve(st, Dir(root), from).Ok? && Resolve(st, Dir(root), from).value.Dir?
    requires Resolve(st, Dir(root), to).Ok? && Resolve(st, Dir(root), to).value.Dir?
    ensures (exists s :: Resolve(st, Resolve(st, Dir(root), from).value, s) == Resolve(st, Dir(root), to)) <==>
      from <= to
  {
    hide Rooted;
    var src := Resolve(st, Dir(root), from).value;
    if s :| Resolve(st, src, s) == Resolve(st, Dir(root), to) {
      ResolveAppend(st, Dir(root), from, s);
      PathUnique(st, root, from + s, to);
    }
    if from <= to {
      var s := to[|from|..];
      assert to == from + s;
      ResolveAppend(st, Dir(root), from, s);
      assert Resolve(st, src, s) == Resolve(st, Dir(root), to);
    }
  }

  /** `st'` differs from `st` at most in entry `name` of `d` and in directories `st` lacks. */
  ghost predicate SameExcept<D>(st: Store<D>, st': Store<D>, d: D, name: string) {
    && d in st
    && st.Keys <= st'.Keys
    && (forall x :: x in st && x != d ==> st'[x].entries == st[x].entries)
    && (forall m :: m != name ==> (m in st'[d].entries <==> m in st[d].entries))
    && (forall m :: m != name && m in st[d].entries ==> st'[d].entries[m] == st[d].entries[m])
  }

  /** One entry update is seen only through paths that pass that entry. */
  lemma {:induction false} EntryFrame<D>(st: Store<D>, st': Store<D>, root: D, at: Path, d: D, name: string, q: Path)
    requires Rooted(st, root) && Closed(st) && SameExcept(st, st', d, name)
    requires Resolve(st, Dir(root), at) == Ok(Dir(d))
    requires !(at + [name] <= q)
    ensures Resolve(st', Dir(root), q) == Resolve(st, Dir(root), q)
  {
    hide Rooted, Closed;
    if q != [] {
      var n := |q| - 1;
      assert q == q[..n] + [q[n]];
      EntryFrame(st, st', root, at, d, name, q[..n]);
      var r := Resolve(st, Dir(root), q[..n]);
      if r.Ok? && r.value.Dir? {
        ResolveInStore(st, root, q[..n]);
        if r == Ok(Dir(d)) {
          PathUnique(st, root, at, q[..n]);
        }
      }
    }
  }

  /** A walk that never stands in the updated directory is unaffected. */
  lemma {:induction false} WalkFrame<D>(st: Store<D>, st': Store<D>, i: Inode<D>, s: Path)
    requires Closed(st) && st.Keys <= st'.Keys
    requires i.Dir? ==> i.dir in st
    requires forall k :: 0 <= k < |s| ==>
      var r := Resolve(st, i, s[..k]);
        r.Ok? && r.value.Dir? && r.value.dir in st ==> st'[r.value.dir].entries == st[r.value.dir].entries
    ensures Resolve(st', i, s) == Resolve(st, i, s)
  {
    if s != [] {
      var n := |s| - 1;
      assert forall k :: 0 <= k < n ==> s[..n][..k] == s[..k];
      WalkFrame(st, st', i, s[..n]);
      var r := Resolve(st, i, s[..n]);
      if r.Ok? && r.value.Dir? && i.Dir? {
        ResolveClosed(st, i.dir, s[..n]);
      }
      if i.Leaf? { LeafStuck(st, i, s); LeafStuck(st', i, s); }
    }
  }

  lemma {:induction false} LeafStuck<D>(st: Store<D>, i: Inode<D>, s: Path)
    requires i.Leaf? && s != []
    ensures Resolve(st, i, s) == Err(ENOTDIR)
  {
    if |s| > 1 {
      LeafStuck(st, i, s[..|s| - 1]);
    }
  }

  /** Paths below an absent entry fail with ENOENT; paths below a present one continue there. */
  lemma {:induction false} BelowEntry<D>(st: Store<D>, root: D, at: Path, d: D, name: string, s: Path)
    requires Resolve(st, Dir(root), at) == Ok(Dir(d)) && d in st
    ensures name !in st[d].entries ==> Resolve(st, Dir(root), at + [name] + s) == Err(ENOENT)
    ensures name in st[d].entries ==>
      Resolve(st, Dir(root), at + [name] + s) == Resolve(st, st[d].entries[name], s)
  {
    assert (at + [name])[..|at|] == at;
    ResolveAppend(st, Dir(root), at + [name], s);
  }
}

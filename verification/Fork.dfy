/** Cloning an address space: an eager copy of every present page onto frames of its own. */
module Fork {
  import opened Common
  import opened Pmm
  import opened Paging
  import opened PageMap
  import opened AddressSpace
  import Mmap
  import opened UserMemory
  import opened Vma
  import VmSpace

  // ----- two spaces in one memory -----

  /** No frame is reached from both roots. */
  ghost predicate Apart(m: Mm, a: nat, b: nat) {
    forall f :: !(Reached(m, a, f) && Reached(m, b, f))
  }

  lemma {:induction false} WalkKept(ts: Tables, ts': Tables, root: nat, p: Path)
    requires TablesOk(ts, root) && Lower(p)
    requires forall q :: Lower(q) && Walk(ts, root, q).Some? && Walk(ts, root, q).value in ts ==>
      Walk(ts, root, q).value in ts' && ts'[Walk(ts, root, q).value] == ts[Walk(ts, root, q).value]
    ensures Walk(ts', root, p) == Walk(ts, root, p)
    ensures p != [] ==> PteAt(ts', root, p) == PteAt(ts, root, p)
    decreases |p|
  {
    if p != [] {
      FrontLast(p);
      WalkKept(ts, ts', root, Front(p));
    }
  }

  /** Frames of a space stay allocated and keep their tables. */
  ghost predicate FramesKept(m: Mm, m': Mm, root: nat) {
    forall f: nat :: Reached(m, root, f) ==>
      f < |m'.pool.used| && m'.pool.used[f] && (f in m.ts ==> f in m'.ts && m'.ts[f] == m.ts[f])
  }

  lemma WalksKept(m: Mm, m': Mm, root: nat)
    requires TablesOk(m.ts, root) && FramesKept(m, m', root)
    ensures forall p :: Lower(p) ==> Walk(m'.ts, root, p) == Walk(m.ts, root, p)
    ensures forall p :: Lower(p) && p != [] ==> PteAt(m'.ts, root, p) == PteAt(m.ts, root, p)
  {
    hide TablesOk, Walk, Lower;
    forall q | Lower(q) && Walk(m.ts, root, q).Some? && Walk(m.ts, root, q).value in m.ts
      ensures Walk(m.ts, root, q).value in m'.ts && m'.ts[Walk(m.ts, root, q).value] == m.ts[Walk(m.ts, root, q).value]
    {
      assert Reached(m, root, Walk(m.ts, root, q).value);
    }
    forall p | Lower(p)
      ensures Walk(m'.ts, root, p) == Walk(m.ts, root, p)
      ensures p != [] ==> PteAt(m'.ts, root, p) == PteAt(m.ts, root, p)
    {
      WalkKept(m.ts, m'.ts, root, p);
    }
  }

  lemma SameReach(m: Mm, m': Mm, root: nat)
    requires forall p :: Lower(p) ==> Walk(m'.ts, root, p) == Walk(m.ts, root, p)
    ensures forall f :: Reached(m', root, f) <==> Reached(m, root, f)
  {
    hide Walk, Lower;
    forall f: nat
      ensures Reached(m', root, f) <==> Reached(m, root, f)
    {
      if p :| Lower(p) && Walk(m.ts, root, p) == Some(f) {
        assert Walk(m'.ts, root, p) == Some(f);
      }
      if p :| Lower(p) && Walk(m'.ts, root, p) == Some(f) {
        assert Walk(m.ts, root, p) == Some(f);
      }
    }
  }

  lemma SameTablesOk(m: Mm, m': Mm, root: nat)
    requires TablesOk(m.ts, root) && Unshared(m.ts, root) && FramesKept(m, m', root)
    requires forall p :: Lower(p) ==> Walk(m'.ts, root, p) == Walk(m.ts, root, p)
    requires forall p :: Lower(p) && p != [] ==> PteAt(m'.ts, root, p) == PteAt(m.ts, root, p)
    ensures TablesOk(m'.ts, root) && Unshared(m'.ts, root)
  {
    hide Walk, PteAt;
    forall p | Lower(p) && |p| < 4 && Walk(m'.ts, root, p).Some?
      ensures Walk(m'.ts, root, p).value in m'.ts && |m'.ts[Walk(m'.ts, root, p).value]| == 512
      ensures p != [] ==> var e := PteAt(m'.ts, root, p); e.flags.writable && e.flags.user && !e.huge
    {
      assert Reached(m, root, Walk(m.ts, root, p).value);
    }
  }

  lemma SameBacked(m: Mm, m': Mm, root: nat)
    requires Backed(m, root) && FramesKept(m, m', root)
    requires forall p :: Lower(p) ==> Walk(m'.ts, root, p) == Walk(m.ts, root, p)
    ensures Backed(m', root)
  {
    hide Walk;
    forall p | Lower(p) && Walk(m'.ts, root, p).Some?
      ensures var f := Walk(m'.ts, root, p).value; 0 < f < |m'.pool.used| && m'.pool.used[f]
    {
      assert Reached(m, root, Walk(m.ts, root, p).value);
    }
  }

  /** A space whose frames are left alone is unchanged. */
  lemma SpaceKept(m: Mm, m': Mm, root: nat)
    requires SpaceOk(m, root) && PoolOk(m'.pool) && FramesKept(m, m', root)
    ensures SpaceOk(m', root) && Flat(m', root) == Flat(m, root)
    ensures forall f :: Reached(m', root, f) <==> Reached(m, root, f)
  {
    hide TablesOk, Unshared, Backed, FramesKept, PoolOk, Reached, Walk, PteAt;
    WalksKept(m, m', root);
    SameReach(m, m', root);
    SameTablesOk(m, m', root);
    SameBacked(m, m', root);
    FlatSame(m, m', root);
  }

  /** What happens under one root leaves a space apart from it unchanged and apart. */
  lemma OtherSpaceKept(m: Mm, m': Mm, root: nat, other: nat)
    requires SpaceOk(m, other) && Apart(m, root, other) && OthersKept(m, m', root) && PoolOk(m'.pool)
    ensures SpaceOk(m', other) && Flat(m', other) == Flat(m, other) && Apart(m', root, other)
  {
    hide SpaceOk, Reached, PoolOk, Flat;
    forall f: nat | Reached(m, other, f)
      ensures f < |m'.pool.used| && m'.pool.used[f] && !Reached(m', root, f)
        && (f in m.ts ==> f in m'.ts && m'.ts[f] == m.ts[f])
    {
      ReachedUsed(m, other, f);
    }
    assert FramesKept(m, m', other);
    SpaceKept(m, m', other);
  }

  lemma ReachedUsed(m: Mm, root: nat, f: nat)
    requires SpaceOk(m, root) && Reached(m, root, f)
    ensures 0 < f < |m.pool.used| && m.pool.used[f]
  {
    hide Unshared, TablesOk;
  }

  /** A new root is apart from every space that exists. */
  lemma NewSpaceApart(m: Mm, active: nat, other: nat)
    requires SpaceOk(m, other) && m.pool.last <= |m.pool.used| && NewSpace(m, active).1.Some?
    ensures var r := NewSpace(m, active); var root := r.1.value;
            && SpaceOk(r.0, root) && SpaceOk(r.0, other) && Apart(r.0, root, other)
            && Flat(r.0, other) == Flat(m, other) && Flat(r.0, root) == map[]
            && root in FreeSet(m.pool) && FreeSet(r.0.pool) == FreeSet(m.pool) - {root} && Owned(r.0, root) == {root}
            && r.0.pool.free == m.pool.free - 1 && |r.0.pool.used| == |m.pool.used|
            && (forall q :: Lower(q) && q != [] ==> Walk(r.0.ts, root, q) == None)
  {
    hide SpaceOk, Reached, Flat, Walk, PteAt, Lower, Alloc, FreeSet, Owned, PoolOk;
    CursorOk(m, other);
    var r := NewSpace(m, active);
    var root := r.1.value;
    NewSpaceOk(m, active);
    NothingMapped(r.0, root);
    CursorOk(r.0, root);
    TakenStillUsed(m.pool, r.0.pool, root);
    FreeBounds(m.pool, root);
    forall f: nat | Reached(m, other, f)
      ensures f < |r.0.pool.used| && r.0.pool.used[f] && f != root
        && (f in m.ts ==> f in r.0.ts && r.0.ts[f] == m.ts[f])
    {
      ReachedUsed(m, other, f);
    }
    assert FramesKept(m, r.0, other);
    SpaceKept(m, r.0, other);
    OwnRootOnly(r.0, root);
  }

  lemma OwnRootOnly(m: Mm, root: nat)
    requires SpaceOk(m, root) && Owned(m, root) == {root}
    ensures forall f :: Reached(m, root, f) ==> f == root
  {
    hide SpaceOk, Reached;
    forall f | Reached(m, root, f)
      ensures f == root
    {
      ReachedUsed(m, root, f);
      assert f in Owned(m, root);
    }
  }

  // ----- copying one page -----

  /** Allocates a frame and maps it. Unlike everywhere else the outcome of the mapping is ignored:
      if it failed the frame stays allocated. */
  function MapIgnoring(m: Mm, root: nat, page: nat, flags: PageFlags): (r: (Mm, Option<nat>, bool))
    requires m.pool.last <= |m.pool.used|
    ensures r.0.pool.last <= |r.0.pool.used|
  {
    var a := Alloc(m.pool);
    if a.1.None? then (m, None, true)
    else
      var t := MapPage(m.(pool := a.0), root, Indices(page), a.1.value, flags);
      (t.0, a.1, t.1)
  }

  /** Mapping a frame in hand touches no frame of another space. */
  lemma MapPageOthers(m: Mm, root: nat, key: Path, f: nat, flags: PageFlags)
    requires SpaceOk(m, root) && Lower(key) && |key| == 4 && flags.user
    requires 0 < f < |m.pool.used| && m.pool.used[f] && !Reached(m, root, f)
    ensures var m' := MapPage(m, root, key, f, flags).0;
            && |m'.pool.used| == |m.pool.used|
            && forall g :: 0 <= g < |m.pool.used| && m.pool.used[g] && g != f && !Reached(m, root, g) ==>
                 && m'.pool.used[g] && !Reached(m', root, g) && (g in m.ts ==> g in m'.ts && m'.ts[g] == m.ts[g])
  {
    hide SpaceOk, Unshared, TablesOk, PteAt, Walk, Descend, Conserved, UpdatedAt;
    CursorOk(m, root);
    FrontLast(key);
    DescendGrows(m, root, Front(key));
    var d := Descend(m, root, Front(key), true);
    GrownSpace(m, d.0, root);
    if d.1.Some? {
      var e := LeafEntry(f, flags);
      StoreLeafUpdates(d.0, root, key, e);
      var m' := StoreLeaf(d.0, d.1.value, Last(key), e);
      forall g | 0 <= g < |m.pool.used| && m.pool.used[g] && g != f && !Reached(m, root, g)
        ensures !Reached(m', root, g)
      {
        NotReachedAfter(d.0, m', root, key, f, g);
      }
    }
  }

  lemma NotReachedAfter(m: Mm, m': Mm, root: nat, key: Path, f: nat, g: nat)
    requires forall q :: Lower(q) ==> Walk(m'.ts, root, q) == if q == key then Some(f) else Walk(m.ts, root, q)
    requires !Reached(m, root, g) && g != f
    ensures !Reached(m', root, g)
  {
    hide Walk, Lower;
  }

  lemma MapIgnoringOthers(m: Mm, root: nat, page: nat, flags: PageFlags)
    requires SpaceOk(m, root) && page < USER_PAGES && flags.user && m.pool.last <= |m.pool.used|
    requires MapIgnoring(m, root, page, flags).1.Some?
    ensures var r := MapIgnoring(m, root, page, flags);
            && SpaceOk(r.0, root) && OthersKept(m, r.0, root) && |r.0.pool.used| == |m.pool.used|
            && r.1.value in FreeSet(m.pool)
            && Flat(r.0, root) == if r.2 then Flat(m, root)[page := LeafEntry(r.1.value, flags)] else Flat(m, root)
  {
    hide SpaceOk, Reached, MapPage, Flat, Indices, Lower, Owned, Alloc, FreeSet;
    InHand(m, root);
    var f := Alloc(m.pool).1.value;
    var m1 := m.(pool := Alloc(m.pool).0);
    PageIndices(page);
    Mmap.FlatOfTables(m, m1, root);
    MapFlat(m1, root, page, f, flags);
    MapPageRefines(m1, root, Indices(page), f, flags);
    MapPageOthers(m1, root, Indices(page), f, flags);
    ReachedByTables(m, m1, root);
    TakenStillUsed(m.pool, m1.pool, f);
    CursorOk(m, root);
    FreeBounds(m.pool, f);
  }

  /** A first mapping of a page conserves frames if it works; if not, exactly its frame is lost. */
  lemma MapIgnoringLoses(m: Mm, root: nat, page: nat, flags: PageFlags)
    requires SpaceOk(m, root) && page < USER_PAGES && flags.user && page !in Flat(m, root)
      && m.pool.last <= |m.pool.used|
    requires MapIgnoring(m, root, page, flags).1.Some?
    ensures var r := MapIgnoring(m, root, page, flags); LostExactly(m, r.0, root, if r.2 then {} else {r.1.value})
  {
    hide SpaceOk, Reached, Flat, Indices, Lower, Owned, Alloc, FreeSet, LostExactly, Descend, Conserved, Walk, PteAt,
      Grown, StoreLeaf, Front;
    var r := MapIgnoring(m, root, page, flags);
    PageIndices(page);
    if r.2 {
      Mmap.MapFreshFlat(m, root, page, flags);
      assert Mmap.HolderOf(Flat(m, root), page) == {};
    } else {
      InHand(m, root);
      var f := Alloc(m.pool).1.value;
      var m1 := m.(pool := Alloc(m.pool).0);
      FrontLast(Indices(page));
      DescendGrows(m1, root, Front(Indices(page)));
      GrownSpace(m1, r.0, root);
      OneLost(m, m1, r.0, root, f);
    }
  }

  lemma OneLost(m: Mm, m1: Mm, m2: Mm, root: nat, f: nat)
    requires f in FreeSet(m.pool) && f !in Owned(m, root) && Owned(m1, root) == Owned(m, root)
    requires FreeSet(m1.pool) == FreeSet(m.pool) - {f} && m1.pool.free == m.pool.free - 1
    requires |m1.pool.used| == |m.pool.used| && Conserved(m1, m2, root)
    ensures LostExactly(m, m2, root, {f})
  {
    hide FreeSet, Owned;
    assert FreeSet(m.pool) + Owned(m, root) - {f} == FreeSet(m.pool) - {f} + Owned(m, root);
  }

  // ----- what has been copied -----

  function FlagsOf(attr: Option<Attr>): (f: Option<PageFlags>) {
    if attr.Some? then Some(VmSpace.FromProt(attr.value.prot)) else None
  }

  /** The flags that a page below `bound` should have in the child, unless it was skipped. */
  ghost function WantAt(vs: seq<Area>, bound: nat, skip: Option<nat>, q: nat): (f: Option<PageFlags>) {
    if q < bound && skip != Some(q) then FlagsOf(VmSpace.PageAttr(vs, q)) else None
  }

  ghost predicate SamePages(ram: Ram, ram': Ram, flat: map<nat, Pte>) {
    && |ram'| == |ram|
    && forall q :: q in flat && flat[q].frame < |ram| ==> ram'[flat[q].frame] == ram[flat[q].frame]
  }

  /** The two spaces are sound and apart, and the parent is as it was. */
  ghost predicate Beside(m: Mm, ram: Ram, parent: nat, child: nat, flat: map<nat, Pte>, ram0: Ram) {
    && SpaceOk(m, child) && SpaceOk(m, parent) && Apart(m, child, parent)
    && Flat(m, parent) == flat && RamOk(ram, |m.pool.used|) && SamePages(ram0, ram, flat)
  }

  ghost predicate PageCopied(flat: map<nat, Pte>, ram: Ram, copy: map<nat, Pte>, q: nat, want: Option<PageFlags>) {
    && (q in copy <==> q in flat && want.Some?)
    && (q in copy ==>
          && copy[q] == LeafEntry(copy[q].frame, want.value)
          && copy[q].frame < |ram| && flat[q].frame < |ram| && ram[copy[q].frame] == ram[flat[q].frame])
  }

  /** The child has exactly the parent's pages below `bound`, but the skipped one, with the flags of
      their areas and the parent's contents. */
  ghost predicate Copied(flat: map<nat, Pte>, ram: Ram, copy: map<nat, Pte>, vs: seq<Area>, bound: nat,
      skip: Option<nat>) {
    forall q: nat :: PageCopied(flat, ram, copy, q, WantAt(vs, bound, skip, q))
  }

  lemma CopyStarts(flat: map<nat, Pte>, ram: Ram, vs: seq<Area>)
    ensures Copied(flat, ram, map[], vs, 0, None)
  {
    hide FlagsOf;
  }

  lemma CopyIn(flat: map<nat, Pte>, ram: Ram, copy: map<nat, Pte>, vs: seq<Area>, page: nat, flags: PageFlags, f: nat)
    requires Copied(flat, ram, copy, vs, page, None) && page in flat
      && FlagsOf(VmSpace.PageAttr(vs, page)) == Some(flags)
    requires f < |ram| && flat[page].frame < |ram|
    requires forall q :: q in flat ==> flat[q].frame != f
    requires forall q :: q in copy ==> copy[q].frame != f
    ensures Copied(flat, ram[f := ram[flat[page].frame]], copy[page := LeafEntry(f, flags)], vs, page + 1, None)
  {
    hide VmSpace.PageAttr, FlagsOf;
    var ram', next := ram[f := ram[flat[page].frame]], page + 1;
    forall q: nat
      ensures PageCopied(flat, ram', copy[page := LeafEntry(f, flags)], q, WantAt(vs, next, None, q))
    {
      assert PageCopied(flat, ram, copy, q, WantAt(vs, page, None, q));
    }
  }

  /** A page whose mapping failed is skipped. */
  lemma CopyTorn(flat: map<nat, Pte>, ram: Ram, copy: map<nat, Pte>, vs: seq<Area>, page: nat, f: nat)
    requires Copied(flat, ram, copy, vs, page, None) && page in flat && f < |ram| && flat[page].frame < |ram|
    requires forall q :: q in flat ==> flat[q].frame != f
    requires forall q :: q in copy ==> copy[q].frame != f
    ensures Copied(flat, ram[f := ram[flat[page].frame]], copy, vs, page + 1, Some(page))
  {
    hide VmSpace.PageAttr, FlagsOf;
    var ram', next := ram[f := ram[flat[page].frame]], page + 1;
    forall q: nat
      ensures PageCopied(flat, ram', copy, q, WantAt(vs, next, Some(page), q))
    {
      assert PageCopied(flat, ram, copy, q, WantAt(vs, page, None, q));
    }
  }

  /** Pages the parent does not have are passed over. */
  lemma CopyPasses(flat: map<nat, Pte>, ram: Ram, copy: map<nat, Pte>, vs: seq<Area>, bound: nat, next: nat,
      skip: Option<nat>)
    requires Copied(flat, ram, copy, vs, bound, skip) && bound <= next
    requires forall q: nat :: bound <= q < next ==> q !in flat
    ensures Copied(flat, ram, copy, vs, next, skip)
  {
    hide VmSpace.PageAttr, FlagsOf;
    forall q: nat
      ensures PageCopied(flat, ram, copy, q, WantAt(vs, next, skip, q))
    {
      assert PageCopied(flat, ram, copy, q, WantAt(vs, bound, skip, q));
    }
  }

  /** A page from `bound` up is not in the child yet. */
  lemma NotYet(flat: map<nat, Pte>, ram: Ram, copy: map<nat, Pte>, vs: seq<Area>, bound: nat, skip: Option<nat>,
      page: nat)
    requires Copied(flat, ram, copy, vs, bound, skip) && page >= bound
    ensures page !in copy
  {
    hide VmSpace.PageAttr, FlagsOf;
    assert PageCopied(flat, ram, copy, page, WantAt(vs, bound, skip, page));
  }

  lemma FreshForBoth(m: Mm, root: nat, f: nat)
    requires SpaceOk(m, root) && f in FreeSet(m.pool)
    ensures forall q :: q in Flat(m, root) ==> Flat(m, root)[q].frame != f
  {
    hide SpaceOk, Flat, FreeSet;
    forall q | q in Flat(m, root)
      ensures Flat(m, root)[q].frame != f
    {
      PageFrameUsed(m, root, q);
    }
  }

  lemma PageFrameUsed(m: Mm, root: nat, page: nat)
    requires SpaceOk(m, root) && page in Flat(m, root)
    ensures Flat(m, root)[page].frame < |m.pool.used| && Flat(m, root)[page].frame !in FreeSet(m.pool)
  {
    hide Unshared, TablesOk;
    PageIndices(page);
    InFlat(m, root, page);
  }

  lemma FreeBelowTotal(m: Mm, f: nat)
    requires f in FreeSet(m.pool)
    ensures f < |m.pool.used|
  {
  }

  /** One page: whatever the mapping did, the parent is as it was. */
  lemma CopyBeside(m: Mm, ram: Ram, parent: nat, child: nat, flat: map<nat, Pte>, ram0: Ram, page: nat,
      flags: PageFlags)
    requires Beside(m, ram, parent, child, flat, ram0) && page in flat && page < USER_PAGES && flags.user
    requires m.pool.last <= |m.pool.used| && MapIgnoring(m, child, page, flags).1.Some?
    ensures var r := MapIgnoring(m, child, page, flags); var f := r.1.value;
            && f < |ram| && flat[page].frame < |ram|
            && Beside(r.0, ram[f := ram[flat[page].frame]], parent, child, flat, ram0)
            && (forall q :: q in flat ==> flat[q].frame != f)
            && (forall q :: q in Flat(m, child) ==> Flat(m, child)[q].frame != f)
  {
    hide SpaceOk, Apart, OthersKept, Flat, MapIgnoring, FreeSet, PoolOk;
    var r := MapIgnoring(m, child, page, flags);
    MapIgnoringOthers(m, child, page, flags);
    var f := r.1.value;
    FreeBelowTotal(m, f);
    PageFrameUsed(m, parent, page);
    FreshForBoth(m, parent, f);
    FreshForBoth(m, child, f);
    CursorOk(r.0, child);
    OtherSpaceKept(m, r.0, child, parent);
  }
}

/** Mapping, unmapping and reprotecting one page in the four-level tables: each changes exactly one
    page of the flat map, and no frame is lost on the way. */
module PageMap {
  import opened Common
  import opened Pmm
  import opened Paging

  /** What building tables may do: existing walks and every page stay, allocated frames stay
      allocated, and frames of other address spaces are left alone. */
  ghost predicate Grown(m: Mm, m': Mm, root: nat) {
    && SpaceOk(m', root) && Conserved(m, m', root)
    && (forall q :: Lower(q) && Walk(m.ts, root, q).Some? ==> Walk(m'.ts, root, q) == Walk(m.ts, root, q))
    && (forall q :: Lower(q) && |q| == 4 ==> PteAt(m'.ts, root, q) == PteAt(m.ts, root, q))
    && OthersKept(m, m', root)
  }

  /** Allocated frames outside the space stay allocated, outside, and unchanged. */
  ghost predicate OthersKept(m: Mm, m': Mm, root: nat) {
    forall f :: 0 <= f < |m.pool.used| && m.pool.used[f] && !Reached(m, root, f) ==>
      && f < |m'.pool.used| && m'.pool.used[f] && !Reached(m', root, f)
      && (f in m.ts ==> f in m'.ts && m'.ts[f] == m.ts[f])
  }

  lemma GrownTransitive(a: Mm, b: Mm, c: Mm, root: nat)
    requires Grown(a, b, root) && Grown(b, c, root)
    ensures Grown(a, c, root)
  {
    hide SpaceOk, Walk, PteAt, Lower, FreeSet, Owned, Reached;
    var free := FreeSet(c.pool) + Owned(c, root);
    assert free == FreeSet(a.pool) + Owned(a, root);
  }

  lemma GrownReflexive(m: Mm, root: nat)
    requires SpaceOk(m, root)
    ensures Grown(m, m, root)
  {
  }

  lemma UnusedUnreached(m: Mm, root: nat, f: nat)
    requires Backed(m, root) && f < |m.pool.used| && !m.pool.used[f]
    ensures !Reached(m, root, f)
  {
    hide Walk, Lower;
  }

  lemma UnreachedWalks(m: Mm, root: nat, f: nat)
    requires !Reached(m, root, f)
    ensures forall p :: Lower(p) ==> Walk(m.ts, root, p) != Some(f)
  {
    hide Walk, Lower;
  }

  lemma CreateUpdates(m: Mm, root: nat, key: Path, f: nat)
    requires SpaceOk(m, root) && Lower(key) && 1 <= |key| <= 3
    requires Walk(m.ts, root, Front(key)).Some? && !PteAt(m.ts, root, key).flags.present
    requires 0 < f < |m.pool.used| && !m.pool.used[f]
    ensures var t := Walk(m.ts, root, Front(key)).value; var e := LinkEntry(f, true);
            && t in m.ts && |m.ts[t]| == 512 && t != f && Last(key) < 512 && !Reached(m, root, f)
            && UpdatedAt(m.ts, SetEntry(m.ts[f := ZeroTable()], t, Last(key), e), root, key, e)
  {
    hide Walk, PteAt, Lower, Unshared, TablesOk, Backed, Reached, Front, Last, ZeroTable;
    FrontLast(key);
    var t := Walk(m.ts, root, Front(key)).value;
    var e := LinkEntry(f, true);
    UnusedUnreached(m, root, f);
    UnreachedWalks(m, root, f);
    LinkUpdate(m.ts, root, key, f, e, key);
    forall q | Lower(q) && q != []
      ensures PteAt(SetEntry(m.ts[f := ZeroTable()], t, Last(key), e), root, q) == if q == key then e
        else PteAt(m.ts, root, q)
    {
      LinkUpdate(m.ts, root, key, f, e, q);
    }
  }

  /** One link entry changed, to a table that is there: the tables stay well formed. */
  lemma KeptTablesOk(ts: Tables, ts': Tables, root: nat, key: Path, f: nat)
    requires TablesOk(ts, root) && Rewalked(ts, ts', root, key, Some(f))
      && UpdatedAt(ts, ts', root, key, LinkEntry(f, true))
    requires f in ts' && |ts'[f]| == 512 && forall g :: g in ts && |ts[g]| == 512 ==> g in ts' && |ts'[g]| == 512
    ensures TablesOk(ts', root)
  {
    hide Walk, PteAt, Lower;
    forall p | Lower(p) && |p| < 4 && Walk(ts', root, p).Some?
      ensures Walk(ts', root, p).value in ts' && |ts'[Walk(ts', root, p).value]| == 512
      ensures p != [] ==> var e := PteAt(ts', root, p); e.flags.writable && e.flags.user && !e.huge
    {
      if p != key {
        assert Walk(ts, root, p).Some?;
      }
    }
  }

  lemma CreateTablesOk(m: Mm, root: nat, key: Path, f: nat)
    requires SpaceOk(m, root) && Lower(key) && 1 <= |key| <= 3
    requires Walk(m.ts, root, Front(key)).Some? && !PteAt(m.ts, root, key).flags.present
    requires 0 < f < |m.pool.used| && !m.pool.used[f]
    ensures var t := Walk(m.ts, root, Front(key)).value;
            && t in m.ts && |m.ts[t]| == 512 && Last(key) < 512
            && var ts' := SetEntry(m.ts[f := ZeroTable()], t, Last(key), LinkEntry(f, true));
            && Unshared(ts', root) && TablesOk(ts', root) && Rewalked(m.ts, ts', root, key, Some(f))
  {
    hide Walk, PteAt, Lower, Unshared, TablesOk, Backed, Reached, Front, Last, ZeroTable, UpdatedAt, Rewalked;
    CreateUpdates(m, root, key, f);
    var t := Walk(m.ts, root, Front(key)).value;
    var ts' := SetEntry(m.ts[f := ZeroTable()], t, Last(key), LinkEntry(f, true));
    UpdatedRewalks(m.ts, ts', root, key, LinkEntry(f, true));
    UnreachedWalks(m, root, f);
    KeptUnshared(m.ts, ts', root, key, Some(f));
    KeptTablesOk(m.ts, ts', root, key, f);
  }

  /** One level of table creation. */
  lemma CreateStep(m: Mm, root: nat, key: Path)
    requires SpaceOk(m, root) && Lower(key) && 1 <= |key| <= 3 && Walk(m.ts, root, Front(key)).Some?
    ensures var r := GetOrCreate(m, Walk(m.ts, root, Front(key)).value, Last(key), true);
            && Grown(m, r.0, root)
            && (r.1.Some? ==> Walk(r.0.ts, root, key) == r.1)
            && (r.1.None? ==> r.0 == m)
  {
    hide Unshared, TablesOk, Backed, Lower, Grown, Rewalked, Alloc, FreeSet, PoolOk, Reached, UpdatedAt, ZeroTable;
    CursorOk(m, root);
    var t := Walk(m.ts, root, Front(key)).value;
    var r := GetOrCreate(m, t, Last(key), true);
    if PteAt(m.ts, root, key).flags.present || Alloc(m.pool).1.None? {
      GrownReflexive(m, root);
    } else {
      AllocCorrect(m.pool);
      var f := Alloc(m.pool).1.value;
      FreeBounds(m.pool, f);
      CreateUpdates(m, root, key, f);
      CreateTablesOk(m, root, key, f);
      CreateGrown(m, root, key, f);
      RewalkedAt(m.ts, r.0.ts, root, key, f);
    }
  }

  lemma CursorOk(m: Mm, root: nat)
    requires SpaceOk(m, root)
    ensures PoolOk(m.pool) && m.pool.last <= |m.pool.used|
  {
  }

  lemma FreeBounds(pool: Pool, f: nat)
    requires PoolOk(pool) && f in FreeSet(pool)
    ensures 0 < f < |pool.used| && !pool.used[f]
  {
  }

  lemma RewalkedAt(ts: Tables, ts': Tables, root: nat, key: Path, f: nat)
    requires Rewalked(ts, ts', root, key, Some(f)) && Lower(key)
    ensures Walk(ts', root, key) == Some(f)
  {
    hide Walk, Lower;
  }

  /** A frame that moves from the free set to the owned set is conserved. */
  lemma TakenConserved(m: Mm, m': Mm, root: nat, f: nat)
    requires |m'.pool.used| == |m.pool.used|
    requires f in FreeSet(m.pool) && f !in Owned(m, root)
    requires FreeSet(m'.pool) == FreeSet(m.pool) - {f} && Owned(m', root) == Owned(m, root) + {f}
    requires m'.pool.free == m.pool.free - 1
    ensures Conserved(m, m', root)
  {
    hide FreeSet, Owned;
    assert FreeSet(m'.pool) + Owned(m', root) == FreeSet(m.pool) + Owned(m, root);
  }

  /** Frames of others when one entry of an owned table starts to lead to `f`. */
  lemma OthersAfter(m: Mm, m': Mm, root: nat, key: Path, t: nat, f: nat)
    requires |m'.pool.used| == |m.pool.used| && Reached(m, root, t) && Rewalked(m.ts, m'.ts, root, key, Some(f))
    requires 0 <= f < |m.pool.used| && !m.pool.used[f] && StillUsed(m.pool, m'.pool)
    requires forall g :: g in m.ts && g != t && g != f ==> g in m'.ts && m'.ts[g] == m.ts[g]
    ensures OthersKept(m, m', root)
  {
    hide Walk, Lower;
    forall g | 0 <= g < |m.pool.used| && m.pool.used[g] && !Reached(m, root, g)
      ensures !Reached(m', root, g)
    {
      forall p | Lower(p)
        ensures Walk(m'.ts, root, p) != Some(g)
      {
      }
    }
  }

  /** Frames in use stay in use. */
  ghost predicate StillUsed(pool: Pool, pool': Pool) {
    |pool'.used| == |pool.used| && forall g :: 0 <= g < |pool.used| && pool.used[g] ==> pool'.used[g]
  }

  lemma TakenStillUsed(pool: Pool, pool': Pool, f: nat)
    requires FreeSet(pool') == FreeSet(pool) - {f} && |pool'.used| == |pool.used|
    ensures StillUsed(pool, pool')
    ensures f < |pool.used| ==> pool'.used[f]
  {
    forall g | 0 <= g < |pool.used| && pool.used[g]
      ensures pool'.used[g]
    {
      assert g !in FreeSet(pool);
      assert g !in FreeSet(pool');
    }
    if f < |pool.used| {
      assert f !in FreeSet(pool');
    }
  }

  /** Collects what a changed walk at `key` keeps. */
  lemma GrownFrom(m: Mm, m': Mm, root: nat, key: Path, f: nat)
    requires SpaceOk(m, root) && PoolOk(m'.pool) && Unshared(m'.ts, root) && TablesOk(m'.ts, root)
    requires Conserved(m, m', root) && OthersKept(m, m', root) && StillUsed(m.pool, m'.pool)
    requires Walk(m.ts, root, key).None? && |key| < 4 && 0 < f < |m'.pool.used| && m'.pool.used[f]
    requires Rewalked(m.ts, m'.ts, root, key, Some(f)) && UpdatedAt(m.ts, m'.ts, root, key, LinkEntry(f, true))
    ensures Grown(m, m', root)
  {
    hide Unshared, TablesOk, Conserved, OthersKept, Walk, PteAt, PoolOk;
    forall p | Lower(p) && Walk(m'.ts, root, p).Some?
      ensures var g := Walk(m'.ts, root, p).value; 0 < g < |m'.pool.used| && m'.pool.used[g]
    {
      if p != key {
        assert Walk(m.ts, root, p).Some?;
      }
    }
  }

  lemma CreateGrown(m: Mm, root: nat, key: Path, f: nat)
    requires SpaceOk(m, root) && Lower(key) && 1 <= |key| <= 3
    requires Walk(m.ts, root, Front(key)).Some? && !PteAt(m.ts, root, key).flags.present
    requires m.pool.last <= |m.pool.used| && Alloc(m.pool).1 == Some(f)
    ensures var t := Walk(m.ts, root, Front(key)).value;
            && t in m.ts && |m.ts[t]| == 512 && Last(key) < 512
            && Grown(m, Mm(Alloc(m.pool).0, SetEntry(m.ts[f := ZeroTable()], t, Last(key), LinkEntry(f, true))), root)
  {
    hide PteAt, Lower, Unshared, TablesOk, Backed, Reached, Front, Last, ZeroTable, UpdatedAt, Rewalked, FreeSet, Owned,
      Alloc, Conserved, PoolOk, OthersKept, StillUsed, Grown, HeldAt;
    CursorOk(m, root);
    AllocCorrect(m.pool);
    FreeBounds(m.pool, f);
    CreateUpdates(m, root, key, f);
    CreateTablesOk(m, root, key, f);
    FrontLast(key);
    var t := Walk(m.ts, root, Front(key)).value;
    var m' := Mm(Alloc(m.pool).0, SetEntry(m.ts[f := ZeroTable()], t, Last(key), LinkEntry(f, true)));
    OwnedAfter(m, m', root, key, Some(f));
    NothingHeld(m, root, key);
    NotOwned(m, root, f);
    assert Owned(m', root) == Owned(m, root) + {f};
    TakenConserved(m, m', root, f);
    TakenStillUsed(m.pool, m'.pool, f);
    WalkReached(m, root, Front(key));
    OthersAfter(m, m', root, key, t, f);
    GrownFrom(m, m', root, key, f);
  }

  lemma NothingHeld(m: Mm, root: nat, key: Path)
    requires Walk(m.ts, root, key).None?
    ensures HeldAt(m, root, key) == {}
  {
  }

  lemma NotOwned(m: Mm, root: nat, f: nat)
    requires !Reached(m, root, f)
    ensures f !in Owned(m, root)
  {
    hide Reached;
  }

  lemma WalkReached(m: Mm, root: nat, p: Path)
    requires Lower(p) && Walk(m.ts, root, p).Some?
    ensures Reached(m, root, Walk(m.ts, root, p).value)
  {
    hide Walk, Lower;
  }

  // ----- one page -----

  /** The chain of table lookups of map_page: creates what is missing along `p`. */
  function Descend(m: Mm, root: nat, p: Path, user: bool): (r: (Mm, Option<nat>))
    requires m.pool.last <= |m.pool.used|
    ensures r.0.pool.last <= |r.0.pool.used|
  {
    if p == [] then (m, Some(root))
    else
      var d := Descend(m, root, Front(p), user);
      if d.1.None? then d else GetOrCreate(d.0, d.1.value, Last(p), user)
  }

  function LeafEntry(f: nat, flags: PageFlags): (e: Pte) {
    Pte(flags.(present := true), false, f)
  }

  function StoreLeaf(m: Mm, t: nat, i: nat, e: Pte): (r: Mm) {
    if t in m.ts && i < |m.ts[t]| then m.(ts := SetEntry(m.ts, t, i, e)) else m
  }

  /** map_page: the final store overwrites whatever the leaf held. */
  function MapPage(m: Mm, root: nat, key: Path, frame: nat, flags: PageFlags): (r: (Mm, bool))
    requires m.pool.last <= |m.pool.used| && key != []
    ensures r.0.pool.last <= |r.0.pool.used|
  {
    var d := Descend(m, root, Front(key), flags.user);
    if d.1.None? then (d.0, false) else (StoreLeaf(d.0, d.1.value, Last(key), LeafEntry(frame, flags)), true)
  }

  function UnmapPage(m: Mm, root: nat, key: Path): (r: (Mm, Option<nat>))
    requires key != []
  {
    var t := Walk(m.ts, root, Front(key));
    var e := PteAt(m.ts, root, key);
    if t.None? || !e.flags.present then (m, None)
    else (StoreLeaf(m, t.value, Last(key), ABSENT), Some(e.frame))
  }

  function SetPageFlags(m: Mm, root: nat, key: Path, flags: PageFlags): (r: Mm)
    requires key != []
  {
    var t := Walk(m.ts, root, Front(key));
    var e := PteAt(m.ts, root, key);
    if t.None? || !e.flags.present then m
    else StoreLeaf(m, t.value, Last(key), LeafEntry(e.frame, flags))
  }

  lemma {:induction false} DescendGrows(m: Mm, root: nat, p: Path)
    requires SpaceOk(m, root) && Lower(p) && |p| <= 3
    ensures m.pool.last <= |m.pool.used|
    ensures var d := Descend(m, root, p, true);
            Grown(m, d.0, root) && (d.1.Some? ==> Walk(d.0.ts, root, p) == d.1)
    decreases |p|
  {
    hide SpaceOk, Grown, Lower, GetOrCreate, Front, Last, PteAt;
    CursorOk(m, root);
    if p == [] {
      GrownReflexive(m, root);
    } else {
      FrontLast(p);
      DescendGrows(m, root, Front(p));
      var d := Descend(m, root, Front(p), true);
      if d.1.Some? {
        GrownSpace(m, d.0, root);
        CreateStep(d.0, root, p);
        GrownTransitive(m, d.0, GetOrCreate(d.0, d.1.value, Last(p), true).0, root);
      }
    }
  }

  lemma GrownSpace(m: Mm, m': Mm, root: nat)
    requires Grown(m, m', root)
    ensures SpaceOk(m', root) && Conserved(m, m', root) && |m'.pool.used| == |m.pool.used|
  {
    hide SpaceOk, OthersKept, Walk, PteAt;
  }

  /** Storing a leaf changes exactly that path and keeps the tables. */
  lemma StoreLeafUpdates(m: Mm, root: nat, key: Path, e: Pte)
    requires SpaceOk(m, root) && Lower(key) && |key| == 4 && Walk(m.ts, root, Front(key)).Some?
    requires e.flags.present ==> forall p :: Lower(p) && p != key ==> Walk(m.ts, root, p) != Some(e.frame)
    ensures var m' := StoreLeaf(m, Walk(m.ts, root, Front(key)).value, Last(key), e);
            && m'.pool == m.pool && UpdatedAt(m.ts, m'.ts, root, key, e)
            && Unshared(m'.ts, root) && TablesOk(m'.ts, root) && Rewalked(m.ts, m'.ts, root, key, Target(e))
            && (forall g :: g in m.ts && !Reached(m, root, g) ==> g in m'.ts && m'.ts[g] == m.ts[g])
  {
    hide PteAt, Lower, Unshared, TablesOk, Backed, Reached, Front, Last, UpdatedAt, Rewalked, PoolOk;
    FrontLast(key);
    WalkReached(m, root, Front(key));
    LeafSeen(m.ts, root, key, e);
    var m' := StoreLeaf(m, Walk(m.ts, root, Front(key)).value, Last(key), e);
    UpdatedRewalks(m.ts, m'.ts, root, key, e);
    KeptUnshared(m.ts, m'.ts, root, key, Target(e));
    LeafKeepsTables(m.ts, m'.ts, root, key, e);
  }

  lemma LeafSeen(ts: Tables, root: nat, key: Path, e: Pte)
    requires Unshared(ts, root) && TablesOk(ts, root) && Lower(key) && |key| == 4 && Walk(ts, root, Front(key)).Some?
    ensures var t := Walk(ts, root, Front(key)).value;
            && t in ts && |ts[t]| == 512 && Last(key) < 512
            && UpdatedAt(ts, SetEntry(ts, t, Last(key), e), root, key, e)
  {
    hide PteAt, Lower, Unshared, TablesOk, Front, Last, Walk;
    FrontLast(key);
    LeafUpdate(ts, root, key, e, key);
    var t := Walk(ts, root, Front(key)).value;
    forall q | Lower(q) && q != []
      ensures PteAt(SetEntry(ts, t, Last(key), e), root, q) == if q == key then e else PteAt(ts, root, q)
    {
      LeafUpdate(ts, root, key, e, q);
    }
  }

  lemma LeafKeepsTables(ts: Tables, ts': Tables, root: nat, key: Path, e: Pte)
    requires TablesOk(ts, root) && |key| == 4 && UpdatedAt(ts, ts', root, key, e)
      && Rewalked(ts, ts', root, key, Target(e))
    requires forall g :: g in ts && |ts[g]| == 512 ==> g in ts' && |ts'[g]| == 512
    ensures TablesOk(ts', root)
  {
    hide Walk, PteAt, Lower;
    forall p | Lower(p) && |p| < 4 && Walk(ts', root, p).Some?
      ensures Walk(ts', root, p).value in ts' && |ts'[Walk(ts', root, p).value]| == 512
      ensures p != [] ==> var x := PteAt(ts', root, p); x.flags.writable && x.flags.user && !x.huge
    {
      assert Walk(ts', root, p) == Walk(ts, root, p);
    }
  }

  /** A store of a present leaf whose frame is in use keeps the space. */
  lemma StoredOk(m: Mm, m': Mm, root: nat, key: Path, e: Pte)
    requires SpaceOk(m, root) && m'.pool == m.pool && Unshared(m'.ts, root) && TablesOk(m'.ts, root)
    requires Rewalked(m.ts, m'.ts, root, key, Target(e))
    requires e.flags.present ==> 0 < e.frame < |m.pool.used| && m.pool.used[e.frame]
    ensures SpaceOk(m', root)
  {
    hide Walk, Lower, Unshared, TablesOk, PoolOk;
  }

  lemma LeavesUpdated(ts: Tables, ts': Tables, root: nat, key: Path, e: Pte)
    requires UpdatedAt(ts, ts', root, key, e)
    ensures forall q :: Lower(q) && |q| == 4 ==> PteAt(ts', root, q) == if q == key then e else PteAt(ts, root, q)
  {
    hide PteAt, Lower;
  }

  lemma GrownLeaves(m: Mm, m': Mm, root: nat)
    requires Grown(m, m', root)
    ensures forall q :: Lower(q) && |q| == 4 ==> PteAt(m'.ts, root, q) == PteAt(m.ts, root, q)
  {
    hide PteAt, Lower, SpaceOk, Conserved, OthersKept;
  }

  /** A frame in hand stays in hand while tables are built. */
  lemma HandKept(m: Mm, m': Mm, root: nat, f: nat)
    requires Grown(m, m', root) && 0 <= f < |m.pool.used| && m.pool.used[f] && !Reached(m, root, f)
    ensures PoolOk(m'.pool) && f < |m'.pool.used| && m'.pool.used[f] && !Reached(m', root, f)
  {
    hide PteAt, Walk, Unshared, TablesOk, Backed, Reached, Conserved, PoolOk;
  }

  /** The four-level tables refine a flat map: mapping a page stores its leaf entry and changes no
      other page, and a failed mapping changes no page at all. */
  lemma MapPageRefines(m: Mm, root: nat, key: Path, frame: nat, flags: PageFlags)
    requires SpaceOk(m, root) && Lower(key) && |key| == 4 && flags.user
    requires 0 < frame < |m.pool.used| && m.pool.used[frame] && !Reached(m, root, frame)
    ensures m.pool.last <= |m.pool.used|
    ensures var r := MapPage(m, root, key, frame, flags);
            && SpaceOk(r.0, root)
            && (forall q :: Lower(q) && |q| == 4 ==>
                  PteAt(r.0.ts, root, q) == if r.1 && q == key then LeafEntry(frame, flags) else PteAt(m.ts, root, q))
            && (!r.1 ==> Grown(m, r.0, root))
  {
    hide SpaceOk, Grown, Lower, Descend, Front, Last, PteAt, Reached, UpdatedAt, Rewalked, Unshared, TablesOk;
    CursorOk(m, root);
    FrontLast(key);
    DescendGrows(m, root, Front(key));
    var d := Descend(m, root, Front(key), true);
    GrownSpace(m, d.0, root);
    GrownLeaves(m, d.0, root);
    if d.1.Some? {
      HandKept(m, d.0, root, frame);
      UnreachedWalks(d.0, root, frame);
      var e := LeafEntry(frame, flags);
      StoreLeafUpdates(d.0, root, key, e);
      var m' := MapPage(m, root, key, frame, flags).0;
      StoredOk(d.0, m', root, key, e);
      LeavesUpdated(d.0.ts, m'.ts, root, key, e);
    }
  }

  lemma WalkFront(ts: Tables, root: nat, key: Path)
    requires key != []
    ensures Walk(ts, root, key) == Target(PteAt(ts, root, key))
    ensures Walk(ts, root, key).Some? ==> Walk(ts, root, Front(key)).Some?
  {
  }

  /** Unmapping clears exactly one page and returns its frame. */
  lemma UnmapPageRefines(m: Mm, root: nat, key: Path)
    requires SpaceOk(m, root) && Lower(key) && |key| == 4
    ensures var r := UnmapPage(m, root, key);
            && SpaceOk(r.0, root) && r.0.pool == m.pool
            && r.1 == Walk(m.ts, root, key)
            && (forall q :: Lower(q) && |q| == 4 ==>
                  PteAt(r.0.ts, root, q).flags.present == (q != key && PteAt(m.ts, root, q).flags.present)
                  && (q != key ==> PteAt(r.0.ts, root, q) == PteAt(m.ts, root, q)))
  {
    hide SpaceOk, Lower, Front, Last, PteAt, Walk, Reached, UpdatedAt, Rewalked, Unshared, TablesOk, StoreLeaf;
    WalkFront(m.ts, root, key);
    if UnmapPage(m, root, key).1.Some? {
      StoreLeafUpdates(m, root, key, ABSENT);
      var m' := UnmapPage(m, root, key).0;
      StoredOk(m, m', root, key, ABSENT);
      LeavesUpdated(m.ts, m'.ts, root, key, ABSENT);
    }
  }

  lemma OnlyPath(m: Mm, root: nat, key: Path)
    requires SpaceOk(m, root) && Lower(key) && Walk(m.ts, root, key).Some?
    ensures forall p :: Lower(p) && p != key ==> Walk(m.ts, root, p) != Walk(m.ts, root, key)
    ensures var f := Walk(m.ts, root, key).value; 0 < f < |m.pool.used| && m.pool.used[f]
  {
    hide Walk, Lower, TablesOk;
  }

  /** Reprotecting changes the flags of exactly one present page and keeps its frame. */
  lemma SetPageFlagsRefines(m: Mm, root: nat, key: Path, flags: PageFlags)
    requires SpaceOk(m, root) && Lower(key) && |key| == 4
    ensures var m' := SetPageFlags(m, root, key, flags);
            && SpaceOk(m', root) && m'.pool == m.pool
            && (forall q :: Lower(q) && |q| == 4 ==>
                  PteAt(m'.ts, root, q) ==
                  if q == key && PteAt(m.ts, root, q).flags.present then LeafEntry(PteAt(m.ts, root, q).frame, flags)
                  else PteAt(m.ts, root, q))
  {
    hide SpaceOk, Lower, Front, Last, PteAt, Walk, Reached, UpdatedAt, Rewalked, Unshared, TablesOk, StoreLeaf;
    WalkFront(m.ts, root, key);
    if Walk(m.ts, root, key).Some? {
      OnlyPath(m, root, key);
      var e := LeafEntry(PteAt(m.ts, root, key).frame, flags);
      StoreLeafUpdates(m, root, key, e);
      var m' := SetPageFlags(m, root, key, flags);
      StoredOk(m, m', root, key, e);
      LeavesUpdated(m.ts, m'.ts, root, key, e);
    }
  }
}

/** Life of an address space: creation, page faults' worth of maps and unmaps, teardown. Every frame
    taken is given back exactly once. */
module AddressSpace {
  import opened Common
  import opened Pmm
  import opened Paging
  import opened PageMap

  // ----- page numbers -----

  /** Pages of the lower canonical half. */
  const USER_PAGES := 0x8_0000_0000

  /** The four 9-bit indices of a virtual address, top level first. */
  function PtIndices(v: nat): (p: Path) {
    [(v / 0x80_0000_0000) % 512, (v / 0x4000_0000) % 512, (v / 0x20_0000) % 512, (v / 0x1000) % 512]
  }

  function Indices(page: nat): (p: Path) {
    PtIndices(page * PAGE_SIZE)
  }

  function PageOf(p: Path): (n: nat)
    requires |p| == 4
  {
    ((p[0] * 512 + p[1]) * 512 + p[2]) * 512 + p[3]
  }

  /** Each level's quotient is the next lower one's divided by 512. */
  lemma Quotients(v: nat)
    ensures v / 0x20_0000 == v / 0x1000 / 512
    ensures v / 0x4000_0000 == v / 0x20_0000 / 512
    ensures v / 0x80_0000_0000 == v / 0x4000_0000 / 512
  {
  }

  /** The indices of a user address are those of its page, and name that page and no other. */
  lemma IndicesOfPage(v: nat)
    requires v < USER_SPACE_END
    ensures PtIndices(v) == Indices(v / PAGE_SIZE)
    ensures Lower(PtIndices(v)) && |PtIndices(v)| == 4
    ensures PageOf(PtIndices(v)) == v / PAGE_SIZE < USER_PAGES
  {
    var n := v / PAGE_SIZE;
    assert n * PAGE_SIZE / 0x1000 == n == v / 0x1000;
    Digits(v);
    Digits(n * PAGE_SIZE);
    Recombine(n);
  }

  /** The indices are the base-512 digits of the page number. */
  lemma Digits(v: nat)
    ensures var n := v / 0x1000;
      PtIndices(v) == [n / 512 / 512 / 512 % 512, n / 512 / 512 % 512, n / 512 % 512, n % 512]
  {
    Quotients(v);
  }

  lemma Recombine(n: nat)
    requires n < USER_PAGES
    ensures var a, b, c := n / 512, n / 512 / 512, n / 512 / 512 / 512;
            c < 256 && ((c % 512 * 512 + b % 512) * 512 + a % 512) * 512 + n % 512 == n
  {
    var a, b, c := n / 512, n / 512 / 512, n / 512 / 512 / 512;
    assert c % 512 == c;
    assert c * 512 + b % 512 == b;
    assert b * 512 + a % 512 == a;
    assert a * 512 + n % 512 == n;
  }

  lemma IndicesInjective(a: nat, b: nat)
    requires a < USER_PAGES && b < USER_PAGES && Indices(a) == Indices(b)
    ensures a == b
  {
    IndicesOfPage(a * PAGE_SIZE);
    IndicesOfPage(b * PAGE_SIZE);
  }

  /** Every four-level user path belongs to a page. */
  lemma IndicesOnto(p: Path)
    requires Lower(p) && |p| == 4
    ensures PageOf(p) < USER_PAGES && Indices(PageOf(p)) == p
  {
    hide PtIndices;
    var a := p[0] * 512 + p[1];
    var b := a * 512 + p[2];
    var c := b * 512 + p[3];
    Digit(p[0], p[1]);
    Digit(a, p[2]);
    Digit(b, p[3]);
    Digits(c * PAGE_SIZE);
    PageStart(c);
    assert PtIndices(c * PAGE_SIZE) == [p[0], p[1], p[2], p[3]] == p;
  }

  lemma PageStart(n: nat)
    ensures n * PAGE_SIZE / 0x1000 == n
  {
  }

  lemma Digit(n: nat, d: nat)
    requires d < 512
    ensures (n * 512 + d) / 512 == n && (n * 512 + d) % 512 == d
  {
  }

  function PageAt(m: Mm, root: nat, page: nat): (e: Pte) {
    PteAt(m.ts, root, Indices(page))
  }

  /** The flat map that the tables refine: the present user pages with their entries. */
  ghost function Flat(m: Mm, root: nat): (r: map<nat, Pte>) {
    map page: nat | page < USER_PAGES && PageAt(m, root, page).flags.present :: PageAt(m, root, page)
  }

  /** Pages and four-level user paths correspond. */
  lemma PageIndices(page: nat)
    requires page < USER_PAGES
    ensures Lower(Indices(page)) && |Indices(page)| == 4
    ensures forall q :: 0 <= q < USER_PAGES ==> (Indices(q) == Indices(page) <==> q == page)
  {
    IndicesOfPage(page * PAGE_SIZE);
    forall q | 0 <= q < USER_PAGES
      ensures Indices(q) == Indices(page) <==> q == page
    {
      if Indices(q) == Indices(page) { IndicesInjective(q, page); }
    }
  }

  lemma PageUpdated(m: Mm, m': Mm, root: nat, page: nat, e: Pte, q: nat)
    requires page < USER_PAGES && q < USER_PAGES
    requires forall p :: Lower(p) && |p| == 4 ==>
      PteAt(m'.ts, root, p) == if p == Indices(page) then e else PteAt(m.ts, root, p)
    ensures PageAt(m', root, q) == if q == page then e else PageAt(m, root, q)
  {
    IndicesOfPage(q * PAGE_SIZE);
    PageIndices(page);
  }

  lemma FlatFrom(m: Mm, m': Mm, root: nat, page: nat, e: Pte)
    requires page < USER_PAGES
    requires forall q: nat :: q < USER_PAGES ==> PageAt(m', root, q) == if q == page then e else PageAt(m, root, q)
    ensures Flat(m', root) == if e.flags.present then Flat(m, root)[page := e] else Flat(m, root) - {page}
  {
    hide PageAt;
  }

  /** An update of one leaf path is an update of one page of the flat map. */
  lemma FlatUpdated(m: Mm, m': Mm, root: nat, page: nat, e: Pte)
    requires page < USER_PAGES
    requires forall p :: Lower(p) && |p| == 4 ==>
      PteAt(m'.ts, root, p) == if p == Indices(page) then e else PteAt(m.ts, root, p)
    ensures Flat(m', root) == if e.flags.present then Flat(m, root)[page := e] else Flat(m, root) - {page}
  {
    forall q: nat | q < USER_PAGES
      ensures PageAt(m', root, q) == if q == page then e else PageAt(m, root, q)
    {
      PageUpdated(m, m', root, page, e, q);
    }
    FlatFrom(m, m', root, page, e);
  }

  lemma FlatSame(m: Mm, m': Mm, root: nat)
    requires forall q :: Lower(q) && |q| == 4 ==> PteAt(m'.ts, root, q) == PteAt(m.ts, root, q)
    ensures Flat(m', root) == Flat(m, root)
  {
    forall q: nat | q < USER_PAGES
      ensures PageAt(m', root, q) == PageAt(m, root, q)
    {
      IndicesOfPage(q * PAGE_SIZE);
    }
  }

  /** The four-level tables refine the flat map, operation by operation: mapping a page binds it,
      failure changes nothing, unmapping removes it and returns its frame, and reprotecting rewrites
      the flags of a present page and keeps its frame. */
  lemma TablesRefineFlatMap(m: Mm, root: nat, page: nat, frame: nat, flags: PageFlags)
    requires SpaceOk(m, root) && page < USER_PAGES && flags.user
    requires 0 < frame < |m.pool.used| && m.pool.used[frame] && !Reached(m, root, frame)
    ensures var key := Indices(page); var flat := Flat(m, root);
            && (var r := MapPage(m, root, key, frame, flags);
                Flat(r.0, root) == if r.1 then flat[page := LeafEntry(frame, flags)] else flat)
            && (var u := UnmapPage(m, root, key);
                Flat(u.0, root) == flat - {page} && u.1 == if page in flat then Some(flat[page].frame) else None)
            && Flat(SetPageFlags(m, root, key, flags), root)
               == if page in flat then flat[page := LeafEntry(flat[page].frame, flags)] else flat
  {
    MapFlat(m, root, page, frame, flags);
    UnmapFlat(m, root, page);
    SetFlagsFlat(m, root, page, flags);
  }

  lemma InFlat(m: Mm, root: nat, page: nat)
    requires page < USER_PAGES
    ensures page in Flat(m, root) <==> PageAt(m, root, page).flags.present
    ensures page in Flat(m, root) ==> Flat(m, root)[page] == PageAt(m, root, page)
    ensures page in Flat(m, root) <==> Walk(m.ts, root, Indices(page)).Some?
  {
  }

  lemma MapFlat(m: Mm, root: nat, page: nat, frame: nat, flags: PageFlags)
    requires SpaceOk(m, root) && page < USER_PAGES && flags.user
    requires 0 < frame < |m.pool.used| && m.pool.used[frame] && !Reached(m, root, frame)
    ensures var r := MapPage(m, root, Indices(page), frame, flags);
            Flat(r.0, root) == if r.1 then Flat(m, root)[page := LeafEntry(frame, flags)] else Flat(m, root)
  {
    PageIndices(page);
    MapPageRefines(m, root, Indices(page), frame, flags);
    var r := MapPage(m, root, Indices(page), frame, flags);
    if r.1 {
      FlatUpdated(m, r.0, root, page, LeafEntry(frame, flags));
    } else {
      FlatSame(m, r.0, root);
    }
  }

  lemma UnmapFlat(m: Mm, root: nat, page: nat)
    requires SpaceOk(m, root) && page < USER_PAGES
    ensures var u := UnmapPage(m, root, Indices(page));
            && Flat(u.0, root) == Flat(m, root) - {page}
            && u.1 == if page in Flat(m, root) then Some(Flat(m, root)[page].frame) else None
  {
    PageIndices(page);
    InFlat(m, root, page);
    UnmapPageRefines(m, root, Indices(page));
    var u := UnmapPage(m, root, Indices(page));
    FlatUpdated(m, u.0, root, page, PteAt(u.0.ts, root, Indices(page)));
  }

  lemma SetFlagsFlat(m: Mm, root: nat, page: nat, flags: PageFlags)
    requires SpaceOk(m, root) && page < USER_PAGES
    ensures var m' := SetPageFlags(m, root, Indices(page), flags);
            && SpaceOk(m', root) && m'.pool == m.pool
            && Flat(m', root)
               == if page in Flat(m, root) then Flat(m, root)[page := LeafEntry(Flat(m, root)[page].frame, flags)]
                 else Flat(m, root)
  {
    PageIndices(page);
    InFlat(m, root, page);
    SetPageFlagsRefines(m, root, Indices(page), flags);
    var m' := SetPageFlags(m, root, Indices(page), flags);
    FlatUpdated(m, m', root, page, PteAt(m'.ts, root, Indices(page)));
  }

  lemma NothingMapped(m: Mm, root: nat)
    requires forall q :: Lower(q) && |q| == 4 ==> !PteAt(m.ts, root, q).flags.present
    ensures Flat(m, root) == map[]
  {
    hide PteAt, Indices;
    forall q: nat | q < USER_PAGES
      ensures !PageAt(m, root, q).flags.present
    {
      PageIndices(q);
    }
  }

  lemma FlatBelow(m: Mm, root: nat)
    ensures forall q :: q in Flat(m, root) ==> q < USER_PAGES
  {
  }

  // ----- steps -----

  /** Allocates a frame and maps it; the frame goes back if a table could not be made. */
  function MapFresh(m: Mm, root: nat, key: Path, flags: PageFlags): (r: (Mm, Option<nat>))
    requires m.pool.last <= |m.pool.used| && key != []
    ensures r.0.pool.last <= |r.0.pool.used|
  {
    var a := Alloc(m.pool);
    if a.1.None? then (m, None)
    else
      var r := MapPage(m.(pool := a.0), root, key, a.1.value, flags);
      if r.1 then (r.0, a.1) else (r.0.(pool := Free(r.0.pool, a.1.value)), None)
  }

  /** Unmaps a page and frees its frame if it had one. */
  function UnmapFree(m: Mm, root: nat, key: Path): (r: Mm)
    requires key != []
  {
    var u := UnmapPage(m, root, key);
    if u.1.Some? then u.0.(pool := Free(u.0.pool, u.1.value)) else u.0
  }

  /** A new root: lower half empty, upper half copied from the active root. */
  function NewSpace(m: Mm, active: nat): (r: (Mm, Option<nat>))
    requires m.pool.last <= |m.pool.used|
  {
    var a := Alloc(m.pool);
    if a.1.None? then (m, None)
    else
      var table := seq(512, i => if i < 256 then ABSENT else Entry(m.ts, active, i));
      (Mm(a.0, m.ts[a.1.value := table]), a.1)
  }

  /** Holding an allocated frame in hand: it is neither free nor under the root. */
  lemma InHand(m: Mm, root: nat)
    requires SpaceOk(m, root)
    ensures m.pool.last <= |m.pool.used| && (Alloc(m.pool).1.Some? <==> FreeSet(m.pool) != {})
    ensures Alloc(m.pool).1.Some? ==>
            var f := Alloc(m.pool).1.value; var m1 := m.(pool := Alloc(m.pool).0);
            && SpaceOk(m1, root) && Owned(m1, root) == Owned(m, root)
            && 0 < f < |m1.pool.used| == |m.pool.used| && m1.pool.used[f] && !Reached(m1, root, f)
            && f !in Owned(m, root)
            && FreeSet(m1.pool) == FreeSet(m.pool) - {f} && f in FreeSet(m.pool)
            && m1.pool.free == m.pool.free - 1
  {
    hide Alloc, FreeSet, Owned, Unshared, TablesOk, PoolOk, Reached;
    CursorOk(m, root);
    AllocCorrect(m.pool);
    if Alloc(m.pool).1.Some? {
      var f := Alloc(m.pool).1.value;
      var m1 := m.(pool := Alloc(m.pool).0);
      FreeBounds(m.pool, f);
      TakenStillUsed(m.pool, m1.pool, f);
      UnusedUnreached(m, root, f);
      ReachedByTables(m, m1, root);
      NotOwned(m, root, f);
      PoolOnly(m, m1, root);
      TakenBacked(m, m1, root);
    }
  }

  lemma TakenBacked(m: Mm, m': Mm, root: nat)
    requires Backed(m, root) && m'.ts == m.ts && StillUsed(m.pool, m'.pool)
    ensures Backed(m', root)
  {
    hide Walk, Lower;
  }

  lemma ReachedByTables(m: Mm, m': Mm, root: nat)
    requires m'.ts == m.ts
    ensures forall f :: Reached(m', root, f) <==> Reached(m, root, f)
  {
    hide Walk, Lower;
  }

  /** Giving the frame in hand back restores the balance. */
  lemma HandBack(m: Mm, m2: Mm, root: nat, f: nat)
    requires SpaceOk(m2, root) && !Reached(m2, root, f) && 0 < f < |m2.pool.used| && m2.pool.used[f]
    requires |m2.pool.used| == |m.pool.used| && f in FreeSet(m.pool)
    requires FreeSet(m2.pool) + Owned(m2, root) == FreeSet(m.pool) - {f} + Owned(m, root)
    requires m2.pool.free + |Owned(m2, root)| == m.pool.free - 1 + |Owned(m, root)|
    ensures var m3 := m2.(pool := Free(m2.pool, f));
            SpaceOk(m3, root) && Conserved(m, m3, root) && FreeSet(m3.pool) == FreeSet(m2.pool) + {f}
  {
    hide FreeSet, Owned, PoolOk, Unshared, TablesOk, Backed, Free, Reached;
    FreeCorrect(m2.pool, f);
    var m3 := m2.(pool := Free(m2.pool, f));
    PoolOnly(m2, m3, root);
    FreedStillBacked(m2, root, f);
    assert FreeSet(m.pool) - {f} + Owned(m, root) + {f} == FreeSet(m.pool) + Owned(m, root);
    assert FreeSet(m3.pool) + Owned(m3, root) == FreeSet(m.pool) + Owned(m, root);
  }

  /** Set arithmetic of a mapping: the frame in hand becomes owned, what the page held is lost. */
  lemma HandCounted(free: set<nat>, free2: set<nat>, own: set<nat>, own2: set<nat>, held: set<nat>, f: nat)
    requires f in free && f !in own2 && f !in own && free2 + own2 == free - {f} + own
    requires held <= own && held <= own2 && held !! free2 && held !! free
    ensures free2 + (own2 - held + {f}) == free + own - held
    ensures |own2 - held + {f}| == |own2| - |held| + 1
  {
    assert free - {f} + own + {f} == free + own;
    assert |own2 - held| == |own2| - |held|;
  }

  lemma HeldOwned(m: Mm, root: nat, key: Path)
    requires SpaceOk(m, root) && Lower(key)
    ensures HeldAt(m, root, key) <= Owned(m, root) && HeldAt(m, root, key) !! FreeSet(m.pool)
  {
    hide Walk, Lower, Unshared, TablesOk;
  }

  lemma HeldSame(m: Mm, m': Mm, root: nat, key: Path)
    requires Grown(m, m', root) && Lower(key) && |key| == 4
    ensures HeldAt(m', root, key) == HeldAt(m, root, key)
  {
    hide PteAt, SpaceOk, Conserved, OthersKept;
    GrownLeaves(m, m', root);
    WalkFront(m.ts, root, key);
    WalkFront(m'.ts, root, key);
  }

  /** Mapping the frame in hand makes it owned and loses what the page held. */
  lemma HandMapped(m: Mm, m1: Mm, m2: Mm, root: nat, key: Path, f: nat, e: Pte)
    requires SpaceOk(m, root) && Lower(key) && |key| == 4 && Walk(m2.ts, root, Front(key)).Some?
    requires m1.ts == m.ts && SpaceOk(m1, root) && |m1.pool.used| == |m.pool.used|
    requires f in FreeSet(m.pool) && FreeSet(m1.pool) == FreeSet(m.pool) - {f} && m1.pool.free == m.pool.free - 1
    requires Owned(m1, root) == Owned(m, root) && f !in Owned(m, root)
    requires Grown(m1, m2, root) && !Reached(m2, root, f) && f < |m2.pool.used| && e.flags.present && e.frame == f
    ensures var m3 := StoreLeaf(m2, Walk(m2.ts, root, Front(key)).value, Last(key), e);
            LostExactly(m, m3, root, HeldAt(m, root, key)) && FreeSet(m3.pool) == FreeSet(m2.pool)
  {
    hide SpaceOk, Grown, FreeSet, Owned, HeldAt, Lower, Rewalked, UpdatedAt, Unshared, TablesOk, Reached, Walk,
      StoreLeaf;
    GrownSpace(m1, m2, root);
    UnreachedWalks(m2, root, f);
    SpaceUnshared(m2, root);
    StoreLeafUpdates(m2, root, key, e);
    var m3 := StoreLeaf(m2, Walk(m2.ts, root, Front(key)).value, Last(key), e);
    OwnedAfter(m2, m3, root, key, Some(f));
    HeldOwned(m, root, key);
    HeldOwned(m2, root, key);
    HeldByTables(m, m1, root, key);
    HeldSame(m1, m2, root, key);
    NotOwned(m2, root, f);
    HandCounted(FreeSet(m.pool), FreeSet(m2.pool), Owned(m, root), Owned(m2, root), HeldAt(m, root, key), f);
  }

  lemma SpaceUnshared(m: Mm, root: nat)
    requires SpaceOk(m, root)
    ensures Unshared(m.ts, root)
  {
  }

  lemma HeldByTables(m: Mm, m': Mm, root: nat, key: Path)
    requires m'.ts == m.ts
    ensures HeldAt(m', root, key) == HeldAt(m, root, key)
  {
  }

  lemma FreeUnreached(m: Mm, m': Mm, root: nat, f: nat)
    requires Grown(m, m', root) && f in FreeSet(m'.pool)
    ensures !Reached(m, root, f)
  {
    hide Unshared, TablesOk, PteAt, Walk, PoolOk, Lower, Conserved, OthersKept;
    forall p | Lower(p)
      ensures Walk(m.ts, root, p) != Some(f)
    {
      assert Walk(m'.ts, root, p) != Some(f);
    }
  }

  /** Building tables frees nothing. */
  lemma FreshSubset(m: Mm, m': Mm, root: nat)
    requires SpaceOk(m, root) && Grown(m, m', root)
    ensures FreeSet(m'.pool) <= FreeSet(m.pool)
  {
    hide SpaceOk, Grown, Reached, FreeSet;
    GrownSpace(m, m', root);
    forall f | f in FreeSet(m'.pool)
      ensures f in FreeSet(m.pool)
    {
      FreeUnreached(m, m', root, f);
      assert f in FreeSet(m'.pool) + Owned(m', root);
    }
  }

  /** Mapping a fresh frame at any page, whether it succeeds or fails at any point. On success the
      page holds a frame that was free and what it held before is lost, on failure nothing is; no other
      page changes and no frame in use is freed. */
  lemma MapFreshLoses(m: Mm, root: nat, key: Path, flags: PageFlags)
    requires SpaceOk(m, root) && Lower(key) && |key| == 4 && flags.user
    ensures m.pool.last <= |m.pool.used|
    ensures var r := MapFresh(m, root, key, flags);
            && SpaceOk(r.0, root) && LostExactly(m, r.0, root, if r.1.Some? then HeldAt(m, root, key) else {})
            && FreeSet(r.0.pool) <= FreeSet(m.pool) && (r.1.Some? ==> r.1.value in FreeSet(m.pool))
            && (forall q :: Lower(q) && |q| == 4 ==>
                  PteAt(r.0.ts, root, q) == if r.1.Some? && q == key then LeafEntry(r.1.value, flags)
                    else PteAt(m.ts, root, q))
  {
    hide SpaceOk, Grown, FreeSet, Owned, HeldAt, Lower, Reached, Walk, PteAt, Alloc, Descend, Free, Conserved,
      LostExactly, Front, StoreLeaf;
    InHand(m, root);
    if Alloc(m.pool).1.Some? {
      var f := Alloc(m.pool).1.value;
      var m1 := m.(pool := Alloc(m.pool).0);
      MapPageRefines(m1, root, key, f, flags);
      FrontLast(key);
      DescendGrows(m1, root, Front(key));
      var d := Descend(m1, root, Front(key), true);
      FreshSubset(m1, d.0, root);
      HandKept(m1, d.0, root, f);
      SameLeaves(m, m1, root);
      if d.1.Some? {
        HandMapped(m, m1, d.0, root, key, f, LeafEntry(f, flags));
      } else {
        HandReturned(m, m1, d.0, root, f);
      }
    } else {
      ConservedSame(m, root);
    }
  }

  lemma HandReturned(m: Mm, m1: Mm, m2: Mm, root: nat, f: nat)
    requires SpaceOk(m1, root) && Grown(m1, m2, root) && |m1.pool.used| == |m.pool.used|
    requires f in FreeSet(m.pool) && FreeSet(m1.pool) == FreeSet(m.pool) - {f} && m1.pool.free == m.pool.free - 1
    requires Owned(m1, root) == Owned(m, root)
    requires !Reached(m2, root, f) && 0 < f < |m2.pool.used| && m2.pool.used[f]
    ensures var m3 := m2.(pool := Free(m2.pool, f));
            && SpaceOk(m3, root) && LostExactly(m, m3, root, {}) && FreeSet(m3.pool) <= FreeSet(m.pool)
  {
    hide SpaceOk, Grown, FreeSet, Owned, Reached, Free;
    GrownSpace(m1, m2, root);
    FreshSubset(m1, m2, root);
    HandBack(m, m2, root, f);
    ConservedLoses(m, m2.(pool := Free(m2.pool, f)), root);
  }

  lemma SameLeaves(m: Mm, m': Mm, root: nat)
    requires m'.ts == m.ts
    ensures forall q :: Lower(q) && |q| == 4 ==> PteAt(m'.ts, root, q) == PteAt(m.ts, root, q)
  {
  }

  lemma ConservedSame(m: Mm, root: nat)
    ensures LostExactly(m, m, root, {})
  {
    hide FreeSet, Owned;
  }

  /** Frames are conserved by a mapping exactly when it fails or the page was not mapped. */
  lemma MapFreshConserves(m: Mm, root: nat, key: Path, flags: PageFlags)
    requires SpaceOk(m, root) && Lower(key) && |key| == 4 && flags.user
    ensures m.pool.last <= |m.pool.used|
    ensures var r := MapFresh(m, root, key, flags);
            Conserved(m, r.0, root) <==> r.1.None? || Walk(m.ts, root, key).None?
  {
    hide SpaceOk, LostExactly, Conserved, MapFresh, Lower, Walk;
    MapFreshLoses(m, root, key, flags);
    var r := MapFresh(m, root, key, flags);
    ConservedIff(m, r.0, root, if r.1.Some? then HeldAt(m, root, key) else {});
  }

  /** Unmapping conserves frames. */
  lemma UnmapFreeConserves(m: Mm, root: nat, key: Path)
    requires SpaceOk(m, root) && Lower(key) && |key| == 4
    ensures var m' := UnmapFree(m, root, key);
            && SpaceOk(m', root) && Conserved(m, m', root)
            && (forall q :: Lower(q) && |q| == 4 && q != key ==> PteAt(m'.ts, root, q) == PteAt(m.ts, root, q))
            && !PteAt(m'.ts, root, key).flags.present
  {
    hide SpaceOk, Lower, Walk, PteAt, FreeSet, Owned, HeldAt, Reached, Free, StoreLeaf, Rewalked, UpdatedAt, Front,
      Last, Unshared, TablesOk;
    UnmapPageRefines(m, root, key);
    var u := UnmapPage(m, root, key);
    if u.1.Some? {
      var f := u.1.value;
      FrontLast(key);
      WalkFront(m.ts, root, key);
      SpaceUnshared(m, root);
      StoreLeafUpdates(m, root, key, ABSENT);
      OwnedAfter(m, u.0, root, key, None);
      ReachedAfter(m, u.0, root, key, None, f);
      OneHeld(m, root, key);
      UnmapBalance(m, u.0, root, f);
    }
  }

  lemma OneHeld(m: Mm, root: nat, key: Path)
    requires SpaceOk(m, root) && Lower(key) && Walk(m.ts, root, key).Some?
    ensures var f := Walk(m.ts, root, key).value;
            && HeldAt(m, root, key) == {f} && f in Owned(m, root) && 0 < f < |m.pool.used| && m.pool.used[f]
  {
    hide Walk, Lower, Unshared, TablesOk;
  }

  lemma UnmapBalance(m: Mm, m2: Mm, root: nat, f: nat)
    requires SpaceOk(m2, root) && m2.pool == m.pool && !Reached(m2, root, f) && 0 < f < |m.pool.used| && m.pool.used[f]
    requires f in Owned(m, root) && Owned(m2, root) == Owned(m, root) - {f}
    ensures var m3 := m2.(pool := Free(m2.pool, f)); SpaceOk(m3, root) && Conserved(m, m3, root)
  {
    hide FreeSet, Owned, PoolOk, Unshared, TablesOk, Backed, Free, Reached;
    CursorOk(m2, root);
    FreeCorrect(m2.pool, f);
    var m3 := m2.(pool := Free(m2.pool, f));
    PoolOnly(m2, m3, root);
    FreedStillBacked(m2, root, f);
    assert FreeSet(m3.pool) + Owned(m3, root) == FreeSet(m.pool) + Owned(m, root);
  }

  /** What a space owns depends on its tables alone. */
  lemma PoolOnly(m: Mm, m': Mm, root: nat)
    requires m'.ts == m.ts && |m'.pool.used| == |m.pool.used|
    ensures Owned(m', root) == Owned(m, root)
  {
    hide Walk;
    assert forall g :: Reached(m', root, g) <==> Reached(m, root, g);
  }

  lemma FreedStillBacked(m: Mm, root: nat, f: nat)
    requires Backed(m, root) && !Reached(m, root, f)
    ensures Backed(m.(pool := Free(m.pool, f)), root)
  {
    hide Walk;
    var m' := m.(pool := Free(m.pool, f));
    forall p | Lower(p) && Walk(m'.ts, root, p).Some?
      ensures var g := Walk(m'.ts, root, p).value; 0 < g < |m'.pool.used| && m'.pool.used[g]
    {
      assert Reached(m, root, Walk(m.ts, root, p).value);
    }
  }

  /** A new space owns its root and nothing else. */
  lemma NewSpaceOk(m: Mm, active: nat)
    requires PoolOk(m.pool) && NewSpace(m, active).1.Some?
    ensures var r := NewSpace(m, active); var root := r.1.value;
            && SpaceOk(r.0, root) && Owned(r.0, root) == {root} && root in FreeSet(m.pool)
            && FreeSet(r.0.pool) == FreeSet(m.pool) - {root} && r.0.pool.free == m.pool.free - 1
            && |r.0.pool.used| == |m.pool.used|
            && (forall q :: Lower(q) && q != [] ==> Walk(r.0.ts, root, q) == None)
            && (forall q :: Lower(q) && |q| == 4 ==> !PteAt(r.0.ts, root, q).flags.present)
  {
    hide Alloc, FreeSet, Owned, Walk, PteAt, SpaceOk, Lower;
    CursorOfPool(m.pool);
    AllocCorrect(m.pool);
    var r := NewSpace(m, active);
    var root := r.1.value;
    FreeBounds(m.pool, root);
    TakenStillUsed(m.pool, r.0.pool, root);
    forall q | Lower(q) && q != []
      ensures Walk(r.0.ts, root, q) == None && !PteAt(r.0.ts, root, q).flags.present
    {
      EmptyBelowRoot(r.0.ts, root, q);
      WalkFront(r.0.ts, root, q);
    }
    OnlyRoot(r.0, root);
  }

  /** The upper half of a new root is that of the active one, and every other table stays. */
  lemma NewSpaceUpper(m: Mm, active: nat)
    requires m.pool.last <= |m.pool.used| && NewSpace(m, active).1.Some?
    ensures var r := NewSpace(m, active); var root := r.1.value;
            && root in r.0.ts && |r.0.ts[root]| == 512
            && (forall i :: 256 <= i < 512 ==> r.0.ts[root][i] == Entry(m.ts, active, i))
            && (forall i :: 0 <= i < 256 ==> r.0.ts[root][i] == ABSENT)
            && (forall f :: f in m.ts && f != root ==> f in r.0.ts && r.0.ts[f] == m.ts[f])
  {
    hide Alloc;
  }

  lemma CursorOfPool(pool: Pool)
    requires PoolOk(pool)
    ensures pool.last <= |pool.used|
  {
  }

  lemma OnlyRoot(m: Mm, root: nat)
    requires PoolOk(m.pool) && 0 < root < |m.pool.used| && m.pool.used[root] && root in m.ts && |m.ts[root]| == 512
    requires forall q :: Lower(q) && q != [] ==> Walk(m.ts, root, q) == None
    ensures SpaceOk(m, root) && Owned(m, root) == {root}
  {
    hide PoolOk, PteAt;
    assert Walk(m.ts, root, []) == Some(root);
    assert Reached(m, root, root);
  }

  lemma {:induction false} EmptyBelowRoot(ts: Tables, root: nat, q: Path)
    requires Lower(q) && q != [] && root in ts && |ts[root]| == 512
    requires forall i :: 0 <= i < 256 ==> ts[root][i] == ABSENT
    ensures PteAt(ts, root, q) == ABSENT
  {
    FrontLast(q);
    if |q| > 1 {
      EmptyBelowRoot(ts, root, Front(q));
    }
  }
}

/** What mappings cost: a page takes one frame for itself and one for every table on its path that is
    not there yet, so whether a set of pages can be mapped is known before the first of them is. */
module Costs {
  import opened Common
  import opened Pmm
  import opened Paging
  import opened PageMap
  import opened AddressSpace

  // ----- the tables along one path -----

  /** The non-empty prefixes of a path. */
  ghost function Prefixes(p: Path): (s: set<Path>) {
    if p == [] then {} else Prefixes(Front(p)) + {p}
  }

  /** Those of the paths that lead nowhere yet. */
  ghost function Missing(ts: Tables, root: nat, paths: set<Path>): (s: set<Path>) {
    set p | p in paths && Walk(ts, root, p).None?
  }

  /** The tables of `ts'` are those of `ts` and the ones at the paths `added`. */
  ghost predicate TablesAdded(ts: Tables, ts': Tables, root: nat, added: set<Path>) {
    forall q :: Lower(q) && |q| <= 3 ==> (Walk(ts', root, q).Some? <==> Walk(ts, root, q).Some? || q in added)
  }

  lemma {:induction false} PrefixesLower(p: Path)
    requires Lower(p)
    ensures forall q :: q in Prefixes(p) ==> Lower(q) && 1 <= |q| <= |p|
  {
    hide Lower;
    if p != [] {
      FrontLast(p);
      PrefixesLower(Front(p));
    }
  }

  /** Creating one missing table takes one frame, and works exactly when there is one. */
  lemma CreateCost(m: Mm, root: nat, key: Path)
    requires SpaceOk(m, root) && Lower(key) && 1 <= |key| <= 3 && Walk(m.ts, root, Front(key)).Some?
    requires m.pool.last <= |m.pool.used| && Walk(m.ts, root, key).None?
    ensures var r := GetOrCreate(m, Walk(m.ts, root, Front(key)).value, Last(key), true);
            && (r.1.Some? <==> FreeSet(m.pool) != {})
            && (r.1.Some? ==> |FreeSet(r.0.pool)| == |FreeSet(m.pool)| - 1 && TablesAdded(m.ts, r.0.ts, root, {key}))
            && (r.1.None? ==> r.0 == m)
  {
    hide Unshared, TablesOk, Backed, Lower, Rewalked, Alloc, FreeSet, PoolOk, Reached, UpdatedAt, ZeroTable,
      TablesAdded;
    CursorOk(m, root);
    AllocCorrect(m.pool);
    if Alloc(m.pool).1.Some? {
      var f := Alloc(m.pool).1.value;
      FreeBounds(m.pool, f);
      CreateUpdates(m, root, key, f);
      CreateTablesOk(m, root, key, f);
      var r := GetOrCreate(m, Walk(m.ts, root, Front(key)).value, Last(key), true);
      OneAdded(m.ts, r.0.ts, root, key, f);
    }
  }

  lemma OneAdded(ts: Tables, ts': Tables, root: nat, key: Path, f: nat)
    requires Rewalked(ts, ts', root, key, Some(f))
    ensures TablesAdded(ts, ts', root, {key})
  {
    hide Walk, Lower;
  }

  lemma AddedTwice(ts: Tables, ts1: Tables, ts2: Tables, root: nat, a: set<Path>, b: set<Path>)
    requires TablesAdded(ts, ts1, root, a) && TablesAdded(ts1, ts2, root, b)
    ensures TablesAdded(ts, ts2, root, a + b)
  {
    hide Walk, Lower;
  }

  lemma NothingAdded(ts: Tables, root: nat)
    ensures TablesAdded(ts, ts, root, {})
  {
    hide Walk, Lower;
  }

  /** Splits the missing tables of a path at its last index. */
  lemma MissingStep(ts: Tables, ts': Tables, root: nat, p: Path)
    requires p != [] && Lower(p) && |p| <= 3 && TablesAdded(ts, ts', root, Missing(ts, root, Prefixes(Front(p))))
    ensures Walk(ts', root, p).Some? <==> Walk(ts, root, p).Some?
    ensures p !in Missing(ts, root, Prefixes(Front(p)))
    ensures Missing(ts, root, Prefixes(p)) ==
            Missing(ts, root, Prefixes(Front(p))) + if Walk(ts, root, p).None? then {p} else {}
  {
    hide Walk, Lower;
    FrontLast(p);
    PrefixesLower(Front(p));
  }

  ghost predicate Paid(m: Mm, m': Mm, root: nat, paths: set<Path>) {
    && |FreeSet(m'.pool)| == |FreeSet(m.pool)| - |paths|
    && TablesAdded(m.ts, m'.ts, root, paths)
  }

  /** A descent takes one frame per missing table and works exactly when there are that many; a
      descent that fails has used up every frame. */
  lemma {:induction false} DescendCost(m: Mm, root: nat, p: Path)
    requires SpaceOk(m, root) && Lower(p) && |p| <= 3 && m.pool.last <= |m.pool.used|
    ensures var d := Descend(m, root, p, true); var missing := Missing(m.ts, root, Prefixes(p));
            && (d.1.Some? <==> |missing| <= |FreeSet(m.pool)|)
            && (d.1.Some? ==> Paid(m, d.0, root, missing))
            && (d.1.None? ==> FreeSet(d.0.pool) == {})
    decreases |p|
  {
    hide SpaceOk, Lower, GetOrCreate, Front, Last, Missing, FreeSet, TablesAdded, Walk, PteAt, Grown;
    if p == [] {
      NothingAdded(m.ts, root);
      NoneMissing(m.ts, root);
    } else {
      FrontLast(p);
      DescendCost(m, root, Front(p));
      DescendGrows(m, root, Front(p));
      var d := Descend(m, root, Front(p), true);
      var before := Missing(m.ts, root, Prefixes(Front(p)));
      if d.1.Some? {
        MissingStep(m.ts, d.0.ts, root, p);
        GrownSpace(m, d.0, root);
        NextTableCost(m, d.0, root, p, before);
      } else {
        MoreMissing(m.ts, root, p);
      }
    }
  }

  lemma NoneMissing(ts: Tables, root: nat)
    ensures Missing(ts, root, Prefixes([])) == {}
  {
  }

  lemma MoreMissing(ts: Tables, root: nat, p: Path)
    requires p != []
    ensures |Missing(ts, root, Prefixes(Front(p)))| <= |Missing(ts, root, Prefixes(p))|
  {
    hide Walk;
    var a, b := Missing(ts, root, Prefixes(Front(p))), Missing(ts, root, Prefixes(p));
    SubsetSize(a, b);
  }

  lemma SubsetSize<T>(a: set<T>, b: set<T>)
    requires a <= b
    ensures |a| <= |b|
  {
    assert b == a + (b - a);
  }

  lemma NextTableCost(m: Mm, m1: Mm, root: nat, p: Path, before: set<Path>)
    requires SpaceOk(m1, root) && m1.pool.last <= |m1.pool.used| && Lower(p) && 1 <= |p| <= 3
    requires Walk(m1.ts, root, Front(p)).Some? && Paid(m, m1, root, before) && p !in before
    requires Walk(m1.ts, root, p).Some? <==> Walk(m.ts, root, p).Some?
    ensures var r := GetOrCreate(m1, Walk(m1.ts, root, Front(p)).value, Last(p), true);
            var missing := before + if Walk(m.ts, root, p).None? then {p} else {};
            && (r.1.Some? <==> |missing| <= |FreeSet(m.pool)|)
            && (r.1.Some? ==> Paid(m, r.0, root, missing))
            && (r.1.None? ==> FreeSet(r.0.pool) == {})
  {
    hide SpaceOk, Lower, FreeSet, TablesAdded, PteAt;
    WalkFront(m1.ts, root, p);
    var r := GetOrCreate(m1, Walk(m1.ts, root, Front(p)).value, Last(p), true);
    if Walk(m1.ts, root, p).None? {
      CreateCost(m1, root, p);
      assert |before + {p}| == |before| + 1;
      if r.1.Some? {
        AddedTwice(m.ts, m1.ts, r.0.ts, root, before, {p});
      }
    } else {
      PresentTable(m1, root, p);
      assert before + {} == before;
    }
  }

  lemma PresentTable(m: Mm, root: nat, p: Path)
    requires p != [] && Walk(m.ts, root, p).Some? && m.pool.last <= |m.pool.used|
    ensures Walk(m.ts, root, Front(p)).Some?
    ensures GetOrCreate(m, Walk(m.ts, root, Front(p)).value, Last(p), true) == (m, Walk(m.ts, root, p))
  {
  }

  // ----- one page -----

  /** The tables a page is mapped through. */
  ghost function TablesOf(page: nat): (s: set<Path>) {
    Prefixes(Front(Indices(page)))
  }

  lemma TablesOfLower(page: nat)
    requires page < USER_PAGES
    ensures forall p :: p in TablesOf(page) ==> Lower(p) && 1 <= |p| <= 3
  {
    hide Lower, Indices, Prefixes;
    PageIndices(page);
    FrontLast(Indices(page));
    PrefixesLower(Front(Indices(page)));
  }

  lemma LeafAddsNoTable(ts: Tables, ts': Tables, root: nat, key: Path, to: Option<nat>)
    requires Rewalked(ts, ts', root, key, to) && |key| == 4
    ensures TablesAdded(ts, ts', root, {})
  {
    hide Walk, Lower;
  }

  /** Mapping a frame in hand works exactly when every missing table finds a frame; a mapping that
      fails has used up every frame. */
  lemma MapPageCost(m: Mm, root: nat, page: nat, f: nat, flags: PageFlags)
    requires SpaceOk(m, root) && page < USER_PAGES && flags.user && m.pool.last <= |m.pool.used|
    requires 0 < f < |m.pool.used| && m.pool.used[f] && !Reached(m, root, f)
    ensures var r := MapPage(m, root, Indices(page), f, flags); var missing := Missing(m.ts, root, TablesOf(page));
            && (r.1 <==> |missing| <= |FreeSet(m.pool)|)
            && (r.1 ==> Paid(m, r.0, root, missing))
            && (!r.1 ==> FreeSet(r.0.pool) == {})
  {
    hide SpaceOk, Lower, Front, Missing, FreeSet, TablesAdded, Walk, PteAt, Grown, Reached, Descend, StoreLeaf, Indices,
      UpdatedAt, Rewalked, Unshared, TablesOk, Last, Prefixes;
    PageIndices(page);
    var key := Indices(page);
    FrontLast(key);
    DescendCost(m, root, Front(key));
    DescendGrows(m, root, Front(key));
    var d := Descend(m, root, Front(key), true);
    GrownSpace(m, d.0, root);
    if d.1.Some? {
      HandKept(m, d.0, root, f);
      UnreachedWalks(d.0, root, f);
      var e := LeafEntry(f, flags);
      StoreLeafUpdates(d.0, root, key, e);
      var m' := StoreLeaf(d.0, d.1.value, Last(key), e);
      LeafAddsNoTable(d.0.ts, m'.ts, root, key, Target(e));
      var missing := Missing(m.ts, root, TablesOf(page));
      AddedTwice(m.ts, d.0.ts, m'.ts, root, missing, {});
      assert missing + {} == missing;
    }
  }

  // ----- sets of pages -----

  /** The tables that a set of pages is mapped through, each once. */
  ghost function TablesFor(pages: set<nat>): (s: set<Path>) {
    set q, p | q in pages && p in TablesOf(q) :: p
  }

  /** The frames that mapping all of `pages` takes. */
  ghost function Needs(ts: Tables, root: nat, pages: set<nat>): (n: nat) {
    |pages| + |Missing(ts, root, TablesFor(pages))|
  }

  lemma NeedsMonotone(ts: Tables, root: nat, a: set<nat>, b: set<nat>)
    requires a <= b
    ensures Needs(ts, root, a) <= Needs(ts, root, b)
  {
    hide TablesOf, Walk;
    SubsetSize(a, b);
    SubsetSize(Missing(ts, root, TablesFor(a)), Missing(ts, root, TablesFor(b)));
  }

  /** `m'` is `m` with `pages` mapped: the tables are there and paid for. */
  ghost predicate Spent(m: Mm, m': Mm, root: nat, pages: set<nat>) {
    && |FreeSet(m'.pool)| + Needs(m.ts, root, pages) == |FreeSet(m.pool)|
    && TablesAdded(m.ts, m'.ts, root, Missing(m.ts, root, TablesFor(pages)))
  }

  lemma NothingSpent(m: Mm, root: nat)
    ensures Spent(m, m, root, {}) && Needs(m.ts, root, {}) == 0
  {
    hide Walk, FreeSet;
    assert TablesFor({}) == {};
    NothingAdded(m.ts, root);
    assert Missing(m.ts, root, TablesFor({})) == {};
  }

  /** One more page needs a frame and the tables that the pages before it did not bring. */
  lemma NeedsNext(ts: Tables, ts': Tables, root: nat, pages: set<nat>, q: nat)
    requires q !in pages && q < USER_PAGES && TablesAdded(ts, ts', root, Missing(ts, root, TablesFor(pages)))
    ensures Needs(ts, root, pages + {q}) == Needs(ts, root, pages) + 1 + |Missing(ts', root, TablesOf(q))|
    ensures Missing(ts, root, TablesFor(pages + {q}))
      == Missing(ts, root, TablesFor(pages)) + Missing(ts', root, TablesOf(q))
  {
    hide Walk, TablesOf, TablesFor, Missing, TablesAdded;
    var a, b := Missing(ts, root, TablesFor(pages)), Missing(ts', root, TablesOf(q));
    TablesForNext(pages, q);
    StillMissing(ts, ts', root, TablesFor(pages), q);
    assert |a + b| == |a| + |b|;
  }

  lemma TablesForNext(pages: set<nat>, q: nat)
    ensures TablesFor(pages + {q}) == TablesFor(pages) + TablesOf(q)
  {
    hide TablesOf;
  }

  lemma StillMissing(ts: Tables, ts': Tables, root: nat, paths: set<Path>, q: nat)
    requires q < USER_PAGES && TablesAdded(ts, ts', root, Missing(ts, root, paths))
    ensures Missing(ts, root, paths + TablesOf(q)) == Missing(ts, root, paths) + Missing(ts', root, TablesOf(q))
    ensures Missing(ts, root, paths) !! Missing(ts', root, TablesOf(q))
  {
    hide Walk, TablesOf, Lower;
    TablesOfLower(q);
  }

  /** A frame in hand for one more page: whether its mapping works is known from what was free at the
      start, and so is what is left. */
  lemma SpendInHand(m: Mm, m1: Mm, root: nat, pages: set<nat>, q: nat, flags: PageFlags)
    requires SpaceOk(m1, root) && Spent(m, m1, root, pages) && q !in pages && q < USER_PAGES && flags.user
    ensures m1.pool.last <= |m1.pool.used|
    ensures Alloc(m1.pool).1.Some? <==> Needs(m.ts, root, pages) < |FreeSet(m.pool)|
    ensures Alloc(m1.pool).1.Some? ==>
            var m2 := m1.(pool := Alloc(m1.pool).0);
            var r := MapPage(m2, root, Indices(q), Alloc(m1.pool).1.value, flags);
            && (r.1 <==> Needs(m.ts, root, pages + {q}) <= |FreeSet(m.pool)|)
            && (r.1 ==> Spent(m, r.0, root, pages + {q}))
            && (!r.1 ==> FreeSet(r.0.pool) == {})
  {
    hide SpaceOk, Needs, Missing, FreeSet, TablesAdded, TablesFor, TablesOf, Alloc, MapPage, Walk, Reached, Owned,
      Indices, Prefixes;
    InHand(m1, root);
    PageIndices(q);
    if Alloc(m1.pool).1.Some? {
      var f := Alloc(m1.pool).1.value;
      var m2 := m1.(pool := Alloc(m1.pool).0);
      MapPageCost(m2, root, q, f, flags);
      NeedsNext(m.ts, m1.ts, root, pages, q);
      assert |FreeSet(m2.pool)| == |FreeSet(m1.pool)| - 1;
      var r := MapPage(m2, root, Indices(q), f, flags);
      if r.1 {
        AddedTwice(m.ts, m1.ts, r.0.ts, root, Missing(m.ts, root, TablesFor(pages)), Missing(m1.ts, root, TablesOf(q)));
      }
    }
  }

  /** The same for a mapping that gives its frame back when it fails. */
  lemma SpendPage(m: Mm, m1: Mm, root: nat, pages: set<nat>, q: nat, flags: PageFlags)
    requires SpaceOk(m1, root) && Spent(m, m1, root, pages) && q !in pages && q < USER_PAGES && flags.user
    ensures m1.pool.last <= |m1.pool.used|
    ensures var r := MapFresh(m1, root, Indices(q), flags);
            && (r.1.Some? <==> Needs(m.ts, root, pages + {q}) <= |FreeSet(m.pool)|)
            && (r.1.Some? ==> Spent(m, r.0, root, pages + {q}))
  {
    hide SpaceOk, Needs, FreeSet, Spent, Alloc, MapPage, Indices;
    SpendInHand(m, m1, root, pages, q, flags);
    PageIndices(q);
    if Alloc(m1.pool).1.None? {
      AtLeastOneMore(m.ts, root, pages, q);
    }
  }

  lemma AtLeastOneMore(ts: Tables, root: nat, pages: set<nat>, q: nat)
    requires q !in pages
    ensures Needs(ts, root, pages) + 1 <= Needs(ts, root, pages + {q})
  {
    hide TablesOf, Walk;
    SubsetSize(Missing(ts, root, TablesFor(pages)), Missing(ts, root, TablesFor(pages + {q})));
    assert |pages + {q}| == |pages| + 1;
  }
}

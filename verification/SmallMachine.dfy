/** A machine of eight frames on which mmap loses a frame and unmaps a page, and a clone loses a frame
    and hands out a child without a page: inputs that fail the conditions of AddressSpace, Mmap and
    Clone. */
module SmallMachine {
  import opened Common
  import opened Pmm
  import opened Paging
  import PageMap
  import opened AddressSpace
  import opened Costs
  import opened Mmap
  import Fork
  import Clone

  /** Frame 0 is reserved, the others are free. */
  function BarePool(): (p: Pool)
    ensures p.last <= |p.used|
  {
    Pool([true, false, false, false, false, false, false, false], 7, 1)
  }

  lemma BarePoolOk()
    ensures PoolOk(BarePool()) && FreeSet(BarePool()) == {1, 2, 3, 4, 5, 6, 7} && |FreeSet(BarePool())| == 7
  {
    assert FreeSet(BarePool()) == {1, 2, 3, 4, 5, 6, 7};
  }

  const ROOT: nat := 1

  /** The last page of the first leaf table. */
  const PAGE: nat := 511

  function Born(): (m: Mm)
    ensures m.pool.last <= |m.pool.used|
  {
    NewSpace(Mm(BarePool(), map[]), 0).0
  }

  /** A new space with one page mapped. */
  function OnePage(flags: PageFlags): (m: Mm)
    ensures m.pool.last <= |m.pool.used|
  {
    MapFresh(Born(), ROOT, Indices(PAGE), flags).0
  }

  lemma BornOk()
    ensures SpaceOk(Born(), ROOT) && |FreeSet(Born().pool)| == 6 && Flat(Born(), ROOT) == map[]
    ensures forall q :: Lower(q) && q != [] ==> Walk(Born().ts, ROOT, q) == None
  {
    hide FreeSet, SpaceOk, Walk, PteAt, Lower, Owned, Flat;
    var m := Mm(BarePool(), map[]);
    BarePoolOk();
    assert NewSpace(m, 0).1 == Some(ROOT);
    NewSpaceOk(m, 0);
    NothingMapped(Born(), ROOT);
    assert |FreeSet(Born().pool)| == |FreeSet(m.pool)| - 1;
  }

  lemma ThreePrefixes(a: nat, b: nat, c: nat)
    ensures Prefixes([a, b, c]) == {[a], [a, b], [a, b, c]}
  {
    assert Front([a, b, c]) == [a, b] && Front([a, b]) == [a] && Front([a]) == [];
    assert Prefixes([a]) == {[a]};
    assert Prefixes([a, b]) == {[a], [a, b]};
  }

  lemma ThreePaths(p: Path, q: Path, r: Path)
    requires |p| < |q| < |r|
    ensures |{p, q, r}| == 3
  {
    assert p != q && q != r && p != r;
  }

  lemma TheIndices()
    ensures Indices(PAGE) == [0, 0, 0, 511] && Indices(PAGE + 1) == [0, 0, 1, 0]
    ensures Front(Indices(PAGE)) == [0, 0, 0] && Front(Indices(PAGE + 1)) == [0, 0, 1]
  {
  }

  /** The tables of the page and of the one after it. */
  lemma TheTables()
    ensures TablesOf(PAGE) == {[0], [0, 0], [0, 0, 0]} && |TablesOf(PAGE)| == 3
    ensures TablesOf(PAGE + 1) == {[0], [0, 0], [0, 0, 1]}
  {
    hide Prefixes, Indices;
    TheIndices();
    ThreePrefixes(0, 0, 0);
    ThreePrefixes(0, 0, 1);
    ThreePaths([0], [0, 0], [0, 0, 0]);
  }

  lemma ThePaths()
    ensures Lower([0]) && Lower([0, 0]) && Lower([0, 0, 0]) && Lower([0, 0, 1])
  {
  }

  lemma AllMissing(ts: Tables, root: nat)
    requires forall q :: Lower(q) && q != [] ==> Walk(ts, root, q) == None
    ensures Missing(ts, root, TablesFor({PAGE})) == TablesOf(PAGE) && Needs(ts, root, {PAGE}) == 4
  {
    hide Walk, TablesOf, Lower;
    TheTables();
    ThePaths();
    TablesForNext({}, PAGE);
    assert TablesFor({}) == {} && {} + {PAGE} == {PAGE};
    assert Missing(ts, root, TablesFor({PAGE})) == TablesOf(PAGE);
  }

  /** Two frames are free when the page is mapped, and its tables are the only ones there. */
  lemma OnePageOk(flags: PageFlags)
    requires flags.user
    ensures SpaceOk(OnePage(flags), ROOT) && |FreeSet(OnePage(flags).pool)| == 2
    ensures Flat(OnePage(flags), ROOT).Keys == {PAGE}
    ensures TablesAdded(Born().ts, OnePage(flags).ts, ROOT, TablesOf(PAGE))
  {
    hide SpaceOk, FreeSet, Walk, PteAt, Lower, Flat, TablesFor, TablesOf, Missing, Born, MapFresh, TablesAdded, Needs,
      Indices, LostExactly, HolderOf;
    BornOk();
    PageIndices(PAGE);
    AllMissing(Born().ts, ROOT);
    NothingSpent(Born(), ROOT);
    assert {} + {PAGE} == {PAGE};
    SpendPage(Born(), Born(), ROOT, {}, PAGE, flags);
    MapFreshFlat(Born(), ROOT, PAGE, flags);
  }

  /** The tables of the page are there. */
  lemma NoShortage(flags: PageFlags)
    requires flags.user
    ensures Needs(OnePage(flags).ts, ROOT, PageSet(PAGE, 1)) == 1
  {
    hide SpaceOk, FreeSet, Walk, Flat, TablesOf, Born, OnePage, Lower;
    TheTables();
    ThePaths();
    OnePageOk(flags);
    assert PageSet(PAGE, 1) == {PAGE};
    assert TablesFor({}) == {} && {} + {PAGE} == {PAGE};
    TablesForNext({}, PAGE);
    assert Missing(OnePage(flags).ts, ROOT, TablesFor({PAGE})) == {};
  }

  /** The next page needs a table of its own. */
  lemma Shortage(flags: PageFlags)
    requires flags.user
    ensures Needs(OnePage(flags).ts, ROOT, PageSet(PAGE, 2)) >= 3
  {
    hide SpaceOk, FreeSet, Walk, Flat, TablesOf, Born, OnePage, Lower, TablesFor;
    TheTables();
    ThePaths();
    BornOk();
    OnePageOk(flags);
    TablesForNext({PAGE}, PAGE + 1);
    assert {PAGE} + {PAGE + 1} == {PAGE, PAGE + 1} == PageSet(PAGE, 2);
    assert [0, 0, 1] !in TablesOf(PAGE);
    assert [0, 0, 1] in Missing(OnePage(flags).ts, ROOT, TablesFor({PAGE, PAGE + 1}));
  }

  function NoFaults(): (f: nat -> Fault) {
    _ => NoFault
  }

  lemma ThePlan(flags: PageFlags, n: nat)
    requires flags.user && 1 <= n <= 2
    ensures PlanFor(PAGE * PAGE_SIZE, n * PAGE_SIZE, USER_SPACE_END, OnePage(flags).pool.free, 0)
         == Place(PAGE * PAGE_SIZE, n, 0)
  {
    hide OnePage, Flat, FreeSet, TablesAdded;
    OnePageOk(flags);
    assert OnePage(flags).pool.free >= 2;
    assert (n * PAGE_SIZE + PAGE_SIZE - 1) / PAGE_SIZE == n;
  }

  /** A request for two pages of which the first is mapped. There is a frame for the first and none for
      the second with its table, so the call fails, and the rollback unmaps the page that was mapped
      before the call. */
  lemma RollbackUnmaps(flags: PageFlags)
    requires flags.user
    ensures PAGE in Flat(OnePage(flags), ROOT)
    ensures var r := MmapAllocate(OnePage(flags), ROOT, PAGE * PAGE_SIZE, 2 * PAGE_SIZE, flags, 0, NoFaults());
            r.result == Err(ENOMEM) && PAGE !in Flat(r.m, ROOT)
  {
    hide SpaceOk, FreeSet, Flat, TablesOf, Born, OnePage, TablesAdded, Needs, MmapAllocate, PlanFor, LostExactly;
    OnePageOk(flags);
    NoShortage(flags);
    Shortage(flags);
    ThePlan(flags, 2);
    var m := OnePage(flags);
    MmapReaches(m, ROOT, PAGE * PAGE_SIZE, 2 * PAGE_SIZE, flags, 0, NoFaults(), 1);
    MmapEffect(m, ROOT, PAGE * PAGE_SIZE, 2 * PAGE_SIZE, flags, 0, NoFaults());
    assert Reaches(m, ROOT, PAGE, 1, NoFaults());
    assert !Reaches(m, ROOT, PAGE, 2, NoFaults());
    var r := MmapAllocate(m, ROOT, PAGE * PAGE_SIZE, 2 * PAGE_SIZE, flags, 0, NoFaults());
    assert InRange(PAGE, PAGE, |r.frames|);
  }

  /** A request for the mapped page alone succeeds, and the frame it was on is neither free nor part of
      the space any more. */
  lemma OverwriteLoses(flags: PageFlags)
    requires flags.user
    ensures PAGE in Flat(OnePage(flags), ROOT)
    ensures var f := Flat(OnePage(flags), ROOT)[PAGE].frame;
            var r := MmapAllocate(OnePage(flags), ROOT, PAGE * PAGE_SIZE, PAGE_SIZE, flags, 0, NoFaults());
            && r.result == Ok(PAGE * PAGE_SIZE)
            && f in Owned(OnePage(flags), ROOT) && f !in FreeSet(r.m.pool) && f !in Owned(r.m, ROOT)
  {
    hide SpaceOk, FreeSet, Flat, TablesOf, Born, OnePage, TablesAdded, Needs, MmapAllocate, PlanFor, Owned;
    OnePageOk(flags);
    NoShortage(flags);
    ThePlan(flags, 1);
    var m := OnePage(flags);
    MmapReaches(m, ROOT, PAGE * PAGE_SIZE, PAGE_SIZE, flags, 0, NoFaults(), 1);
    MmapEffect(m, ROOT, PAGE * PAGE_SIZE, PAGE_SIZE, flags, 0, NoFaults());
    assert Reaches(m, ROOT, PAGE, 1, NoFaults());
    var f := Flat(m, ROOT)[PAGE].frame;
    assert InRange(PAGE, PAGE, 1);
    assert f in OldFrames(Flat(m, ROOT), PAGE, 1);
    PageOwned(m, ROOT, PAGE);
  }

  lemma PageOwned(m: Mm, root: nat, page: nat)
    requires SpaceOk(m, root) && page in Flat(m, root)
    ensures Flat(m, root)[page].frame in Owned(m, root)
  {
    hide SpaceOk, Lower, Owned, Walk, FreeSet, HeldAt, Flat;
    FlatBelow(m, root);
    PageIndices(page);
    HeldOwned(m, root, Indices(page));
    HeldByPage(m, root, page);
  }

  lemma TheCosts()
    ensures Clone.CopyCost({}) == 0 && Clone.CopyCost({PAGE}) == 4
  {
    hide TablesOf;
    TheTables();
    TablesForNext({}, PAGE);
    assert TablesFor({}) == {} && {} + {PAGE} == {PAGE} && {} + TablesOf(PAGE) == TablesOf(PAGE);
  }

  /** With two free frames, a clone of the space with one page is torn at that page. */
  lemma CloneTears(flags: PageFlags)
    requires flags.user
    ensures Clone.Tears(Flat(OnePage(flags), ROOT), |FreeSet(OnePage(flags).pool)|, PAGE)
  {
    hide SpaceOk, FreeSet, Flat, OnePage, Born, TablesAdded, Clone.CopyCost;
    OnePageOk(flags);
    TheCosts();
    var flat := Flat(OnePage(flags), ROOT);
    assert Clone.PagesBelow(flat, PAGE) == {} && Clone.PagesBelow(flat, PAGE + 1) == {PAGE};
  }

  /** Step by step: the child's root takes one frame and the page's frame the other. No table can be
      made, so the page stays unmapped, and its frame is neither free nor the child's. */
  lemma CloneLosesFrame(flags: PageFlags)
    requires flags.user
    ensures NewSpace(OnePage(flags), ROOT).1.Some?
    ensures var born := NewSpace(OnePage(flags), ROOT).0; var child := NewSpace(OnePage(flags), ROOT).1.value;
            && born.pool.last <= |born.pool.used|
            && var r := Fork.MapIgnoring(born, child, PAGE, flags);
            && r.1.Some? && !r.2 && FreeSet(r.0.pool) == {} && PAGE !in Flat(r.0, child)
            && r.1.value !in Owned(r.0, child)
  {
    hide SpaceOk, FreeSet, Flat, OnePage, Born, TablesAdded, Needs, Owned, Walk, Lower, Alloc, PageMap.MapPage,
      Fork.Apart, Reached, Indices, Missing, TablesFor, TablesOf;
    OnePageOk(flags);
    InHand(OnePage(flags), ROOT);
    Fork.NewSpaceApart(OnePage(flags), ROOT, ROOT);
    var born := NewSpace(OnePage(flags), ROOT).0;
    var child := NewSpace(OnePage(flags), ROOT).1.value;
    assert |FreeSet(born.pool)| == 1;
    AllMissing(born.ts, child);
    NothingSpent(born, child);
    assert {} + {PAGE} == {PAGE};
    SpendInHand(born, born, child, {}, PAGE, flags);
    Fork.MapIgnoringOthers(born, child, PAGE, flags);
    Fork.MapIgnoringLoses(born, child, PAGE, flags);
  }
}

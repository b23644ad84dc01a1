/** clone_from as a whole, and what fork relies on: the two spaces never see each other's writes. */
module Clone {
  import opened Common
  import opened Pmm
  import opened Paging
  import PageMap
  import opened AddressSpace
  import opened Costs
  import Mmap
  import opened Teardown
  import opened UserMemory
  import opened Vma
  import opened VmSpace
  import opened Fork

  // ----- what a clone costs -----

  ghost function PagesBelow(flat: map<nat, Pte>, bound: nat): (s: set<nat>) {
    set q | q in flat && q < bound
  }

  /** The frames a copy of these pages takes in a space that has no tables yet. */
  ghost function CopyCost(pages: set<nat>): (n: nat) {
    |pages| + |TablesFor(pages)|
  }

  lemma CostIsNeeds(ts: Tables, root: nat, pages: set<nat>)
    requires forall q :: Lower(q) && q != [] ==> Walk(ts, root, q) == None
    requires forall q :: q in pages ==> q < USER_PAGES
    ensures Needs(ts, root, pages) == CopyCost(pages)
  {
    hide Walk, Lower, TablesOf;
    forall p | p in TablesFor(pages)
      ensures Walk(ts, root, p) == None
    {
      var q :| q in pages && p in TablesOf(q);
      TablesOfLower(q);
    }
    assert Missing(ts, root, TablesFor(pages)) == TablesFor(pages);
  }

  lemma CostMonotone(a: set<nat>, b: set<nat>)
    requires a <= b
    ensures CopyCost(a) <= CopyCost(b)
  {
    hide TablesOf;
    SubsetSize(a, b);
    SubsetSize(TablesFor(a), TablesFor(b));
  }

  /** With `free` frames, one of them for the root, there is a frame for page `q` after the pages below
      it were copied, but not for all the tables it needs. */
  ghost predicate Tears(flat: map<nat, Pte>, free: nat, q: nat) {
    && q in flat
    && CopyCost(PagesBelow(flat, q)) + 2 <= free < CopyCost(PagesBelow(flat, q + 1)) + 1
  }

  /** Frames for the root, every page and every table of a copy. */
  ghost predicate Affords(flat: map<nat, Pte>, free: nat) {
    CopyCost(flat.Keys) + 1 <= free
  }

  lemma NextBelow(flat: map<nat, Pte>, q: nat)
    ensures PagesBelow(flat, q + 1) == PagesBelow(flat, q) + (if q in flat then {q} else {})
    ensures q !in PagesBelow(flat, q)
  {
  }

  lemma GapBelow(flat: map<nat, Pte>, bound: nat, next: nat)
    requires bound <= next && forall q: nat :: bound <= q < next ==> q !in flat
    ensures PagesBelow(flat, next) == PagesBelow(flat, bound)
  {
  }

  lemma AllBelow(flat: map<nat, Pte>, bound: nat)
    requires forall q :: q in flat ==> q < bound
    ensures PagesBelow(flat, bound) == flat.Keys
  {
  }

  /** A copy that used up its frames at page `bound`, with none in hand, tears nowhere. */
  lemma DryTearsNowhere(flat: map<nat, Pte>, free: nat, bound: nat, q: nat)
    requires free == CopyCost(PagesBelow(flat, bound)) + 1
    ensures !Tears(flat, free, q)
  {
    hide CopyCost;
    if q < bound {
      CostMonotone(PagesBelow(flat, q + 1), PagesBelow(flat, bound));
    } else {
      CostMonotone(PagesBelow(flat, bound), PagesBelow(flat, q));
    }
  }

  lemma AffordsTearsNowhere(flat: map<nat, Pte>, free: nat, q: nat)
    requires Affords(flat, free)
    ensures !Tears(flat, free, q)
  {
    hide CopyCost;
    CostMonotone(PagesBelow(flat, q + 1), flat.Keys);
  }

  /** At most one page finds a frame but not all its tables. */
  lemma TearsOnce(flat: map<nat, Pte>, free: nat, q: nat, r: nat)
    requires Tears(flat, free, q) && Tears(flat, free, r)
    ensures q == r
  {
    hide CopyCost;
    if q < r {
      CostMonotone(PagesBelow(flat, q + 1), PagesBelow(flat, r));
    } else if r < q {
      CostMonotone(PagesBelow(flat, r + 1), PagesBelow(flat, q));
    }
  }

  lemma TearsNotAffords(flat: map<nat, Pte>, free: nat, q: nat)
    requires Tears(flat, free, q)
    ensures !Affords(flat, free)
  {
    hide CopyCost;
    CostMonotone(PagesBelow(flat, q + 1), flat.Keys);
  }

  // ----- progress -----

  /** When cloning starts: the parent's root, pages, contents and areas, and the memory right after the
      child's root was made. */
  datatype Origin = Origin(parent: nat, flat: map<nat, Pte>, ram: Ram, vs: seq<Area>, born: Mm)

  /** The page whose mapping failed, and the frame that was meant for it. */
  datatype Torn = Torn(page: nat, frame: nat)

  function SkipOf(torn: Option<Torn>): (r: Option<nat>) {
    if torn.Some? then Some(torn.value.page) else None
  }

  function LostTo(torn: Option<Torn>): (s: set<nat>) {
    if torn.Some? then {torn.value.frame} else {}
  }

  /** What is known about the frames: all paid for, or none left since a page was torn. */
  ghost predicate Funded(o: Origin, m: Mm, child: nat, bound: nat, torn: Option<Torn>) {
    if torn.None? then Spent(o.born, m, child, PagesBelow(o.flat, bound))
    else
      && FreeSet(m.pool) == {} && Tears(o.flat, |FreeSet(o.born.pool)| + 1, torn.value.page)
      && PagesBelow(o.flat, bound) == PagesBelow(o.flat, torn.value.page + 1)
  }

  /** The parent's pages below `bound` have been dealt with. */
  ghost predicate Progress(o: Origin, m: Mm, ram: Ram, child: nat, bound: nat, torn: Option<Torn>) {
    && Beside(m, ram, o.parent, child, o.flat, o.ram)
    && Copied(o.flat, ram, Flat(m, child), o.vs, bound, SkipOf(torn))
    && LostExactly(o.born, m, child, LostTo(torn))
    && Funded(o, m, child, bound, torn)
  }

  /** The child's tables were empty and the parent is in user space. */
  ghost predicate OriginOk(o: Origin, child: nat) {
    && (forall q :: Lower(q) && q != [] ==> Walk(o.born.ts, child, q) == None)
    && (forall q :: q in o.flat ==> q < USER_PAGES)
  }

  lemma BelowCost(o: Origin, child: nat, bound: nat)
    requires OriginOk(o, child)
    ensures Needs(o.born.ts, child, PagesBelow(o.flat, bound)) == CopyCost(PagesBelow(o.flat, bound))
  {
    hide Walk, Lower, CopyCost, Needs;
    CostIsNeeds(o.born.ts, child, PagesBelow(o.flat, bound));
  }

  lemma BesideGives(m: Mm, ram: Ram, parent: nat, child: nat, flat: map<nat, Pte>, ram0: Ram)
    requires Beside(m, ram, parent, child, flat, ram0)
    ensures SpaceOk(m, child) && SpaceOk(m, parent) && Apart(m, child, parent) && Flat(m, parent) == flat
    ensures RamOk(ram, |m.pool.used|) && SamePages(ram0, ram, flat) && m.pool.last <= |m.pool.used|
  {
    hide SpaceOk, Apart, Flat, RamOk, SamePages;
    PageMap.CursorOk(m, child);
  }

  /** Pages that the parent does not have change nothing. */
  lemma Passes(o: Origin, m: Mm, ram: Ram, child: nat, bound: nat, next: nat, torn: Option<Torn>)
    requires Progress(o, m, ram, child, bound, torn) && bound <= next
    requires forall q: nat :: bound <= q < next ==> q !in o.flat
    ensures Progress(o, m, ram, child, next, torn)
  {
    hide Beside, Copied, LostExactly, Spent, FreeSet, Tears, Flat;
    CopyPasses(o.flat, ram, Flat(m, child), o.vs, bound, next, SkipOf(torn));
    GapBelow(o.flat, bound, next);
  }

  /** A frame for the page is there exactly when nothing is torn and frames are left. */
  lemma FrameFor(o: Origin, m: Mm, ram: Ram, child: nat, bound: nat, torn: Option<Torn>, flags: PageFlags)
    requires OriginOk(o, child) && Progress(o, m, ram, child, bound, torn) && bound in o.flat && flags.user
    ensures m.pool.last <= |m.pool.used|
    ensures var r := MapIgnoring(m, child, bound, flags); var pages := PagesBelow(o.flat, bound);
            && (r.1.Some? <==> torn.None? && CopyCost(pages) < |FreeSet(o.born.pool)|)
            && (r.1.None? && torn.None? ==> CopyCost(pages) == |FreeSet(o.born.pool)|)
            && (r.1.Some? ==>
                  && (r.2 ==> Spent(o.born, r.0, child, PagesBelow(o.flat, bound + 1)))
                  && (!r.2 ==> FreeSet(r.0.pool) == {} && Tears(o.flat, |FreeSet(o.born.pool)| + 1, bound)))
  {
    hide Beside, Copied, LostExactly, FreeSet, Flat, Alloc, PageMap.MapPage, SpaceOk, CopyCost, Owned, Reached, Spent,
      Needs, OriginOk;
    BesideGives(m, ram, o.parent, child, o.flat, o.ram);
    InHand(m, child);
    if torn.None? {
      BelowUser(o, child, bound);
      BelowCost(o, child, bound);
      BelowCost(o, child, bound + 1);
      NextBelow(o.flat, bound);
      SpendInHand(o.born, m, child, PagesBelow(o.flat, bound), bound, flags);
      SpentBound(o.born, m, child, PagesBelow(o.flat, bound));
    }
  }

  lemma BelowUser(o: Origin, child: nat, q: nat)
    requires OriginOk(o, child) && q in o.flat
    ensures q < USER_PAGES
  {
    hide Walk, Lower;
  }

  lemma SpentBound(m: Mm, m': Mm, root: nat, pages: set<nat>)
    requires Spent(m, m', root, pages)
    ensures Needs(m.ts, root, pages) <= |FreeSet(m.pool)|
  {
    hide Needs, TablesAdded, FreeSet;
  }

  /** Copying one page of the parent onto a frame of its own. */
  lemma CopyStep(o: Origin, m: Mm, ram: Ram, child: nat, page: nat, flags: PageFlags)
    requires OriginOk(o, child) && Progress(o, m, ram, child, page, None) && page in o.flat
    requires FlagsOf(PageAttr(o.vs, page)) == Some(flags) && flags.user
    requires m.pool.last <= |m.pool.used| && MapIgnoring(m, child, page, flags).1.Some?
    ensures var r := MapIgnoring(m, child, page, flags); var f := r.1.value;
            && f < |ram| && o.flat[page].frame < |ram|
            && var torn := if r.2 then None else Some(Torn(page, f));
            Progress(o, r.0, ram[f := ram[o.flat[page].frame]], child, page + 1, torn)
  {
    hide Beside, Copied, LostExactly, FreeSet, Flat, MapIgnoring, SpaceOk, OriginOk, CopyCost, Spent, Tears, FlagsOf,
      PageAttr;
    BelowUser(o, child, page);
    FrameFor(o, m, ram, child, page, None, flags);
    BesideGives(m, ram, o.parent, child, o.flat, o.ram);
    NotYet(o.flat, ram, Flat(m, child), o.vs, page, None, page);
    var r := MapIgnoring(m, child, page, flags);
    var f := r.1.value;
    CopyBeside(m, ram, o.parent, child, o.flat, o.ram, page, flags);
    MapIgnoringOthers(m, child, page, flags);
    MapIgnoringLoses(m, child, page, flags);
    LossesAdd(o.born, m, r.0, child, {}, LostTo(if r.2 then None else Some(Torn(page, f))));
    assert {} + LostTo(if r.2 then None else Some(Torn(page, f))) == LostTo(if r.2 then None else Some(Torn(page, f)));
    if r.2 {
      CopyIn(o.flat, ram, Flat(m, child), o.vs, page, flags, f);
    } else {
      CopyTorn(o.flat, ram, Flat(m, child), o.vs, page, f);
    }
  }

  /** What stops a clone: no frame left at a page of the parent. */
  ghost predicate Stuck(o: Origin, m: Mm, ram: Ram, child: nat, torn: Option<Torn>) {
    exists bound ::
      && Progress(o, m, ram, child, bound, torn) && bound in o.flat
      && (torn.None? ==> CopyCost(PagesBelow(o.flat, bound)) == |FreeSet(o.born.pool)|)
  }

  /** One round of the page loop. */
  method CopyPage(ghost o: Origin, m: Mm, ram: Ram, parent: nat, child: nat, vaddr: nat, flags: PageFlags,
                  ghost torn: Option<Torn>)
    returns (alive: bool, m': Mm, ram': Ram, ghost torn': Option<Torn>)
    requires parent == o.parent && OriginOk(o, child) && vaddr < USER_SPACE_END && vaddr % PAGE_SIZE == 0
    requires Progress(o, m, ram, child, vaddr / PAGE_SIZE, torn)
    requires FlagsOf(PageAttr(o.vs, vaddr / PAGE_SIZE)) == Some(flags) && flags.user
    ensures alive ==> Progress(o, m', ram', child, vaddr / PAGE_SIZE + 1, torn')
    ensures !alive ==> Stuck(o, m', ram', child, torn')
  {
    hide Beside, Copied, LostExactly, Funded, FreeSet, Flat, MapIgnoring, SpaceOk, OriginOk, CopyCost, FlagsOf,
      PageAttr, Translate;
    ghost var page := vaddr / PAGE_SIZE;
    m', ram', torn' := m, ram, torn;
    BesideGives(m, ram, parent, child, o.flat, o.ram);
    TranslateFlat(m, parent, vaddr);
    var t := Translate(m, parent, vaddr);
    if t.None? {
      Passes(o, m, ram, child, page, page + 1, torn);
      return true, m, ram, torn;
    }
    FrameFor(o, m, ram, child, page, torn, flags);
    var r := MapIgnoring(m, child, vaddr / PAGE_SIZE, flags);
    if r.1.None? {
      return false, m, ram, torn;
    }
    CopyStep(o, m, ram, child, page, flags);
    return true, r.0, ram[r.1.value := ram[t.value.0]], if r.2 then None else Some(Torn(page, r.1.value));
  }

  function RoundUp(a: nat): (r: nat) {
    (a + PAGE_SIZE - 1) / PAGE_SIZE * PAGE_SIZE
  }

  lemma PageOfAddress(q: nat)
    ensures q * PAGE_SIZE / PAGE_SIZE == q && q * PAGE_SIZE % PAGE_SIZE == 0
    ensures RoundUp(q * PAGE_SIZE) == q * PAGE_SIZE
  {
  }

  /** The page loop over one area, whose pages are `[page, page + n)`. */
  method CloneArea(ghost o: Origin, m: Mm, ram: Ram, parent: nat, child: nat, v: Area, ghost page: nat, ghost n: nat,
                   ghost torn: Option<Torn>)
    returns (alive: bool, m': Mm, ram': Ram, ghost torn': Option<Torn>)
    requires parent == o.parent && OriginOk(o, child) && Progress(o, m, ram, child, page, torn)
    requires v.start == page * PAGE_SIZE && v.end == (page + n) * PAGE_SIZE <= USER_SPACE_END
    requires forall q :: Mmap.InRange(q, page, n) ==> PageAttr(o.vs, q) == Some(v.attr)
    ensures alive ==> Progress(o, m', ram', child, page + n, torn')
    ensures !alive ==> Stuck(o, m', ram', child, torn')
  {
    hide Progress, FromProt, OriginOk, PageAttr, Stuck, RoundUp;
    m', ram', torn' := m, ram, torn;
    ghost var j := 0;
    var flags := FromProt(v.attr.prot);
    PageOfAddress(page);
    PageOfAddress(page + n);
    var vaddr := v.start - v.start % PAGE_SIZE;
    var end := RoundUp(v.end);
    UserProt(v.attr.prot);
    while vaddr < end
      invariant 0 <= j <= n && vaddr == (page + j) * PAGE_SIZE
      invariant Progress(o, m', ram', child, page + j, torn')
    {
      PageOfAddress(page + j);
      assert Mmap.InRange(page + j, page, n);
      alive, m', ram', torn' := CopyPage(o, m', ram', parent, child, vaddr, flags, torn');
      if !alive {
        return;
      }
      vaddr := vaddr + PAGE_SIZE;
      j := j + 1;
    }
    alive := true;
  }

  lemma UserProt(prot: bv32)
    ensures FromProt(prot).user
  {
  }

  // ----- areas and pages -----

  /** Areas of a page-wise canonical list begin and end on page boundaries. */
  lemma AlignedAreas(vs: seq<Area>, i: nat)
    requires Canonical(vs) && PageWise(vs) && i < |vs|
    ensures vs[i].start % PAGE_SIZE == 0 && vs[i].end % PAGE_SIZE == 0 && vs[i].end <= USER_SPACE_END
  {
    hide At, PageWise;
    var v := vs[i];
    AtIndex(vs, i, v.start);
    AtIndex(vs, i, v.end - 1);
    ChangesAtEnds(vs, i);
    if v.start > 0 && (v.start - 1) / PAGE_SIZE == v.start / PAGE_SIZE {
      SamePageAt(vs, v.start, v.start - 1);
    } else if (v.end - 1) / PAGE_SIZE == v.end / PAGE_SIZE {
      SamePageAt(vs, v.end - 1, v.end);
    } else if (v.end - 1) / PAGE_SIZE >= USER_PAGES {
      NothingAbove(vs, v.end - 1);
    }
  }

  /** The map changes at both ends of an area. */
  lemma ChangesAtEnds(vs: seq<Area>, i: nat)
    requires Canonical(vs) && i < |vs|
    ensures vs[i].start > 0 ==> At(vs, vs[i].start - 1) != Some(vs[i].attr)
    ensures At(vs, vs[i].end) != Some(vs[i].attr)
  {
    hide At;
    var v := vs[i];
    assert i > 0 ==> vs[i - 1].start < vs[i - 1].end <= v.start;
    assert i + 1 < |vs| ==> v.end <= vs[i + 1].start < vs[i + 1].end;
    if v.start > 0 && At(vs, v.start - 1).Some? {
      var j := AtSome(vs, v.start - 1);
      assert j == i - 1;
    }
    if At(vs, v.end).Some? {
      var j := AtSome(vs, v.end);
      assert j == i + 1;
    }
  }

  lemma NothingAbove(vs: seq<Area>, a: nat)
    requires PageWise(vs) && a / PAGE_SIZE >= USER_PAGES
    ensures At(vs, a) == None
  {
    hide At, PageAttr;
  }

  lemma SamePageAt(vs: seq<Area>, a: nat, b: nat)
    requires PageWise(vs) && a / PAGE_SIZE == b / PAGE_SIZE
    ensures At(vs, a) == At(vs, b)
  {
    hide At, PageAttr;
  }

  /** The pages of an area, and that no page lies between it and the area before. */
  lemma AreaPages(vs: seq<Area>, i: nat) returns (page: nat, n: nat)
    requires Canonical(vs) && PageWise(vs) && i < |vs|
    ensures vs[i].start == page * PAGE_SIZE && vs[i].end == (page + n) * PAGE_SIZE <= USER_SPACE_END
    ensures forall q :: Mmap.InRange(q, page, n) ==> PageAttr(vs, q) == Some(vs[i].attr)
  {
    hide At, PageWise, Canonical;
    AlignedAreas(vs, i);
    CanonicalSorted(vs);
    AreaNonEmpty(vs, i);
    page, n := vs[i].start / PAGE_SIZE, (vs[i].end - vs[i].start) / PAGE_SIZE;
    forall q: nat | Mmap.InRange(q, page, n)
      ensures PageAttr(vs, q) == Some(vs[i].attr)
    {
      AtIndex(vs, i, q * PAGE_SIZE);
    }
  }

  lemma AreaNonEmpty(vs: seq<Area>, k: nat)
    requires Canonical(vs) && k < |vs|
    ensures vs[k].start < vs[k].end
  {
  }

  /** Addresses between two areas, or after the last, are not covered. */
  lemma GapUncovered(vs: seq<Area>, k: nat, a: nat)
    requires Sorted(vs) && k <= |vs| && EndOf(vs, k) <= a && (k < |vs| ==> a < vs[k].start)
    ensures At(vs, a) == None
  {
    hide At;
    if At(vs, a).Some? {
      var i := AtSome(vs, a);
    }
  }

  /** So the parent has no page there. */
  lemma GapUnmapped(flat: map<nat, Pte>, vs: seq<Area>, k: nat, bound: nat, next: nat)
    requires Sorted(vs) && PagesAgree(flat, vs) && k <= |vs| && EndOf(vs, k) <= bound * PAGE_SIZE
    requires k < |vs| ==> next * PAGE_SIZE <= vs[k].start
    requires next <= USER_PAGES
    ensures forall q: nat :: bound <= q < next ==> q !in flat
  {
    hide At, Sorted;
    forall q: nat | bound <= q < next
      ensures q !in flat
    {
      GapUncovered(vs, k, q * PAGE_SIZE);
      assert PageAgrees(flat, PageAttr(vs, q), q);
    }
  }

  // ----- the clone -----

  /** Every address reads the same. */
  ghost predicate SameBytes(ram: Ram, flat: map<nat, Pte>, ram': Ram, flat': map<nat, Pte>) {
    forall a: nat :: ByteAt(ram', flat', a) == ByteAt(ram, flat, a)
  }

  lemma Starts(o: Origin, ram: Ram, child: nat)
    requires Beside(o.born, ram, o.parent, child, o.flat, o.ram) && Flat(o.born, child) == map[]
    ensures Progress(o, o.born, ram, child, 0, None)
  {
    hide Beside, Copied, LostExactly, Spent, Flat, PageAttr;
    CopyStarts(o.flat, ram, o.vs);
    ConservedSame(o.born, child);
    NothingSpent(o.born, child);
    assert PagesBelow(o.flat, 0) == {};
  }

  lemma ParentBytes(o: Origin, m: Mm, ram: Ram, child: nat)
    requires Beside(m, ram, o.parent, child, o.flat, o.ram) && RamOk(o.ram, |m.pool.used|)
    ensures SpaceOk(m, o.parent) && Flat(m, o.parent) == o.flat && SameBytes(o.ram, o.flat, ram, o.flat)
  {
    hide SpaceOk, Apart, Flat;
  }

  /** Dropping the child half way leaves the parent as it was. */
  lemma DropKeeps(m: Mm, parent: nat, child: nat)
    requires SpaceOk(m, child) && SpaceOk(m, parent) && Apart(m, child, parent)
    ensures var m' := m.(pool := FreeTree(m.pool, m.ts, child, []));
            && SpaceOk(m', parent) && Flat(m', parent) == Flat(m, parent)
            && FreedExactly(m.pool, m'.pool, Owned(m, child))
  {
    hide SpaceOk, Reached, Flat, FreeTree;
    DropFreesOwned(m, child);
    var m' := m.(pool := FreeTree(m.pool, m.ts, child, []));
    forall f: nat | Reached(m, parent, f)
      ensures f < |m'.pool.used| && m'.pool.used[f]
    {
      ReachedUsed(m, parent, f);
      assert f !in FreeSet(m.pool) && f !in Owned(m, child);
      assert f !in FreeSet(m'.pool);
    }
    assert FramesKept(m, m', parent);
    SpaceKept(m, m', parent);
  }

  /** The parent is as it was: sound, with the same pages and the same bytes. */
  ghost predicate ParentKept(m: Mm, ram: Ram, parent: nat, m': Mm, ram': Ram) {
    SpaceOk(m', parent) && Flat(m', parent) == Flat(m, parent) && SameBytes(ram, Flat(m, parent), ram', Flat(m, parent))
  }

  /** The child has the parent's pages but those of `gone`, with the same bytes, on frames of its own,
      and apart from `lost` every frame that was free is still free or the child's. */
  ghost predicate ChildOf(m: Mm, ram: Ram, parent: nat, m': Mm, ram': Ram, child: nat, gone: set<nat>, lost: set<nat>) {
    && SpaceOk(m', child) && Apart(m', child, parent)
    && Flat(m', child).Keys == Flat(m, parent).Keys - gone
    && SameBytes(ram, Flat(m, parent) - gone, ram', Flat(m', child))
    && FreeSet(m'.pool) + Owned(m', child) == FreeSet(m.pool) - lost
  }

  /** Everything but `lost` is free again. */
  ghost predicate GivenBack(m: Mm, m': Mm, lost: set<nat>) {
    FreeSet(m'.pool) == FreeSet(m.pool) - lost && m'.pool.free == m.pool.free - |lost|
  }

  /** A page that was torn: the frame that was meant for it is lost. There is a child exactly when that
      page is the parent's last, and the child lacks it. */
  ghost predicate TornOutcome(m: Mm, ram: Ram, parent: nat, r: Option<nat>, m': Mm, ram': Ram, torn: Torn) {
    && torn.frame in FreeSet(m.pool) && torn.page in Flat(m, parent)
    && (r.Some? <==> forall q :: q in Flat(m, parent) ==> q <= torn.page)
    && (r.None? ==> GivenBack(m, m', {torn.frame}))
    && (r.Some? ==> ChildOf(m, ram, parent, m', ram', r.value, {torn.page}, {torn.frame}))
  }

  /** The origin of a clone of `m`. */
  ghost predicate OriginOf(o: Origin, m: Mm, child: nat, active: nat) {
    && m.pool.last <= |m.pool.used| && NewSpace(m, active) == (o.born, Some(child))
    && SpaceOk(m, o.parent) && Flat(m, o.parent) == o.flat && RamOk(o.ram, |m.pool.used|)
    && PagesAgree(o.flat, o.vs) && Canonical(o.vs) && PageWise(o.vs)
  }

  /** Makes the child's root. */
  method NewChild(m: Mm, ram: Ram, parent: nat, active: nat, vs: seq<Area>) returns (r: (Mm, Option<nat>))
    requires Agree(m, parent, vs) && RamOk(ram, |m.pool.used|)
    ensures SpaceOk(m, parent) && Canonical(vs) && PageWise(vs) && PagesAgree(Flat(m, parent), vs)
    ensures r.1.None? ==> FreeSet(m.pool) == {}
    ensures r.1.Some? ==>
      var o := Origin(parent, Flat(m, parent), ram, vs, r.0);
      OriginOf(o, m, r.1.value, active) && OriginOk(o, r.1.value) && Progress(o, r.0, ram, r.1.value, 0, None)
  {
    hide SpaceOk, Canonical, PageWise, PagesAgree, Flat, Progress, Apart, FreeSet, RamOk, Owned, Walk, Lower, Reached,
      Alloc;
    InHand(m, parent);
    r := NewSpace(m, active);
    if r.1.Some? {
      NewSpaceApart(m, active, parent);
      FlatBelow(m, parent);
      Starts(Origin(parent, Flat(m, parent), ram, vs, r.0), ram, r.1.value);
    }
  }

  lemma SomeFrames(o: Origin, m: Mm, child: nat, active: nat)
    requires OriginOf(o, m, child, active)
    ensures |FreeSet(m.pool)| == |FreeSet(o.born.pool)| + 1 && |o.born.pool.used| == |m.pool.used|
    ensures child in FreeSet(m.pool) && FreeSet(o.born.pool) == FreeSet(m.pool) - {child}
    ensures Owned(o.born, child) == {child} && o.born.pool.free == m.pool.free - 1
  {
    hide SpaceOk, Canonical, PageWise, PagesAgree, Flat, Apart, FreeSet, RamOk, Owned, Walk, Lower, NewSpace;
    NewSpaceApart(m, active, o.parent);
  }

  lemma StillSame(ram: Ram, flat: map<nat, Pte>)
    ensures SameBytes(ram, flat, ram, flat)
  {
  }

  /** With no frame at all nothing happens. */
  lemma NoFrames(m: Mm, ram: Ram, parent: nat)
    requires SpaceOk(m, parent) && FreeSet(m.pool) == {}
    ensures ParentKept(m, ram, parent, m, ram) && GivenBack(m, m, {})
    ensures !Affords(Flat(m, parent), |FreeSet(m.pool)|)
    ensures forall q :: !Tears(Flat(m, parent), |FreeSet(m.pool)|, q)
  {
    hide SpaceOk, Flat, FreeSet, CopyCost, SameBytes;
    StillSame(ram, Flat(m, parent));
  }

  lemma SameTotal(o: Origin, m: Mm, m': Mm, child: nat, torn: Option<Torn>)
    requires LostExactly(o.born, m', child, LostTo(torn)) && |o.born.pool.used| == |m.pool.used|
    ensures |m'.pool.used| == |m.pool.used|
  {
    hide FreeSet, Owned;
  }

  /** A clone that ran dry or was torn was short of frames, and was torn only if the count says so. */
  lemma StuckShort(o: Origin, m: Mm, ram: Ram, child: nat, torn: Option<Torn>)
    requires Stuck(o, m, ram, child, torn)
    ensures var free := |FreeSet(o.born.pool)| + 1;
            && !Affords(o.flat, free)
            && (torn.Some? ==> Tears(o.flat, free, torn.value.page))
            && (torn.None? ==> forall q :: !Tears(o.flat, free, q))
            && (torn.Some? ==> exists q :: q in o.flat && q > torn.value.page)
  {
    hide Beside, Copied, LostExactly, FreeSet, CopyCost, PagesBelow, Flat, Spent, Tears;
    var free := |FreeSet(o.born.pool)| + 1;
    var bound :|
      && Progress(o, m, ram, child, bound, torn) && bound in o.flat
      && (torn.None? ==> CopyCost(PagesBelow(o.flat, bound)) == |FreeSet(o.born.pool)|);
    if torn.Some? {
      TearsNotAffords(o.flat, free, torn.value.page);
      TornPageIn(o.flat, free, torn.value.page);
      TornBelow(o.flat, torn.value.page, bound);
    } else {
      DryShort(o.flat, free, bound);
      forall q
        ensures !Tears(o.flat, free, q)
      {
        DryTearsNowhere(o.flat, free, bound, q);
      }
    }
  }

  lemma TornBelow(flat: map<nat, Pte>, page: nat, bound: nat)
    requires PagesBelow(flat, bound) == PagesBelow(flat, page + 1) && page in flat
    ensures page < bound
  {
    assert page in PagesBelow(flat, page + 1);
  }

  lemma DryShort(flat: map<nat, Pte>, free: nat, bound: nat)
    requires bound in flat && free == CopyCost(PagesBelow(flat, bound)) + 1
    ensures !Affords(flat, free)
  {
    hide TablesFor;
    NextBelow(flat, bound);
    CostMonotone(PagesBelow(flat, bound + 1), flat.Keys);
    var a, b := PagesBelow(flat, bound), PagesBelow(flat, bound + 1);
    assert |b| == |a| + 1;
    FewerTables(a, b);
  }

  lemma FewerTables(a: set<nat>, b: set<nat>)
    requires a <= b
    ensures |TablesFor(a)| <= |TablesFor(b)|
  {
    hide TablesOf;
    SubsetSize(TablesFor(a), TablesFor(b));
  }

  /** Dropping an unfinished child. */
  lemma AbandonOk(o: Origin, m: Mm, active: nat, m': Mm, ram: Ram, child: nat, torn: Option<Torn>)
    requires OriginOf(o, m, child, active) && Stuck(o, m', ram, child, torn)
    ensures var m2 := m'.(pool := FreeTree(m'.pool, m'.ts, child, [])); var free := |FreeSet(m.pool)|;
            && ParentKept(m, o.ram, o.parent, m2, ram) && !Affords(o.flat, free)
            && (torn.Some? <==> exists q :: Tears(o.flat, free, q))
            && (torn.Some? ==> Tears(o.flat, free, torn.value.page)
                               && TornOutcome(m, o.ram, o.parent, None, m2, ram, torn.value))
            && (torn.None? ==> GivenBack(m, m2, {}))
  {
    hide SpaceOk, Flat, Beside, FreeTree, FreeSet, Copied, NewSpace, Owned, Apart, LostExactly, SameBytes, RamOk,
      FreedExactly, Affords, Tears, Funded, Canonical, PageWise, PagesAgree;
    SomeFrames(o, m, child, active);
    StuckShort(o, m', ram, child, torn);
    SameTotal(o, m, m', child, torn);
    BesideGives(m', ram, o.parent, child, o.flat, o.ram);
    ParentBytes(o, m', ram, child);
    DropKeeps(m', o.parent, child);
    LifeBalance(m, o.born, m', FreeTree(m'.pool, m'.ts, child, []), child, LostTo(torn));
    if torn.Some? {
      TornPageIn(o.flat, |FreeSet(m.pool)|, torn.value.page);
    }
  }

  lemma TornPageIn(flat: map<nat, Pte>, free: nat, q: nat)
    requires Tears(flat, free, q)
    ensures q in flat
  {
    hide CopyCost, PagesBelow;
  }

  function SkipSet(skip: Option<nat>): (s: set<nat>) {
    if skip.Some? then {skip.value} else {}
  }

  /** A finished copy agrees with the areas if and only if no page was skipped. */
  lemma AllCopied(flat: map<nat, Pte>, ram: Ram, copy: map<nat, Pte>, vs: seq<Area>, skip: Option<nat>)
    requires Copied(flat, ram, copy, vs, USER_PAGES, skip) && PagesAgree(flat, vs)
    requires forall q :: q in flat ==> q < USER_PAGES
    requires skip.Some? ==> skip.value in flat
    ensures copy.Keys == flat.Keys - SkipSet(skip)
    ensures PagesAgree(copy, vs) <==> skip.None?
  {
    hide FromProt, PageAttr;
    forall q: nat
      ensures q in copy <==> q in flat && skip != Some(q)
      ensures q < USER_PAGES && skip != Some(q) ==> PageAgrees(copy, PageAttr(vs, q), q)
    {
      assert PageCopied(flat, ram, copy, q, WantAt(vs, USER_PAGES, skip, q));
      if q < USER_PAGES {
        assert PageAgrees(flat, PageAttr(vs, q), q);
      }
    }
    if skip.Some? {
      assert PageAgrees(flat, PageAttr(vs, skip.value), skip.value);
      assert !PageAgrees(copy, PageAttr(vs, skip.value), skip.value);
    }
  }

  lemma CopiedBytes(o: Origin, ram: Ram, copy: map<nat, Pte>, skip: Option<nat>)
    requires Copied(o.flat, ram, copy, o.vs, USER_PAGES, skip) && copy.Keys == o.flat.Keys - SkipSet(skip)
    requires RamOk(o.ram, |ram|) && SamePages(o.ram, ram, o.flat)
    ensures SameBytes(o.ram, o.flat - SkipSet(skip), ram, copy)
  {
    hide WantAt;
    forall a: nat
      ensures ByteAt(ram, copy, a) == ByteAt(o.ram, o.flat - SkipSet(skip), a)
    {
      var q := a / PAGE_SIZE;
      assert PageCopied(o.flat, ram, copy, q, WantAt(o.vs, USER_PAGES, skip, q));
    }
  }

  lemma ChildFrames(m: Mm, born: Mm, m': Mm, child: nat, lost: set<nat>)
    requires LostExactly(born, m', child, lost) && Owned(born, child) == {child} && child in FreeSet(m.pool)
    requires FreeSet(born.pool) == FreeSet(m.pool) - {child}
    ensures FreeSet(m'.pool) + Owned(m', child) == FreeSet(m.pool) - lost && lost <= FreeSet(m.pool)
  {
    hide FreeSet, Owned;
    assert FreeSet(born.pool) + {child} == FreeSet(m.pool);
  }

  /** The last page is the torn one. */
  lemma TornLast(flat: map<nat, Pte>, page: nat)
    requires PagesBelow(flat, USER_PAGES) == PagesBelow(flat, page + 1) && forall q :: q in flat ==> q < USER_PAGES
    ensures forall q :: q in flat ==> q <= page
  {
    forall q | q in flat
      ensures q <= page
    {
      assert q in PagesBelow(flat, USER_PAGES);
    }
  }

  /** What was spent on all pages is what Affords asks for. */
  lemma SpentAffords(o: Origin, m: Mm, child: nat)
    requires OriginOk(o, child) && Spent(o.born, m, child, PagesBelow(o.flat, USER_PAGES))
    ensures Affords(o.flat, |FreeSet(o.born.pool)| + 1)
  {
    hide FreeSet, CopyCost, Needs, Spent, Walk, Lower, PagesBelow;
    AllBelow(o.flat, USER_PAGES);
    BelowCost(o, child, USER_PAGES);
    SpentBound(o.born, m, child, PagesBelow(o.flat, USER_PAGES));
  }

  /** The child when every page has been dealt with. */
  lemma CompleteOk(o: Origin, m: Mm, active: nat, m': Mm, ram: Ram, child: nat, torn: Option<Torn>)
    requires OriginOf(o, m, child, active) && OriginOk(o, child) && Progress(o, m', ram, child, USER_PAGES, torn)
    ensures var free := |FreeSet(m.pool)|;
            && ParentKept(m, o.ram, o.parent, m', ram)
            && (Agree(m', child, o.vs) <==> Affords(o.flat, free)) && (Affords(o.flat, free) <==> torn.None?)
            && (torn.None? ==> ChildOf(m, o.ram, o.parent, m', ram, child, {}, {}))
            && (torn.Some? <==> exists q :: Tears(o.flat, free, q))
            && (torn.Some? ==> Tears(o.flat, free, torn.value.page)
                               && TornOutcome(m, o.ram, o.parent, Some(child), m', ram, torn.value))
  {
    hide SpaceOk, Flat, Beside, FreeSet, Copied, NewSpace, Owned, Apart, LostExactly, SameBytes, RamOk, Affords, Tears,
      Canonical, PageWise, PagesAgree, Spent, PagesBelow, SamePages, Walk, Lower;
    SomeFrames(o, m, child, active);
    SameTotal(o, m, m', child, torn);
    BesideGives(m', ram, o.parent, child, o.flat, o.ram);
    ParentBytes(o, m', ram, child);
    ChildFrames(m, o.born, m', child, LostTo(torn));
    var free := |FreeSet(m.pool)|;
    if torn.Some? {
      TearsNotAffords(o.flat, free, torn.value.page);
      TornPageIn(o.flat, free, torn.value.page);
      TornLast(o.flat, torn.value.page);
    } else {
      SpentAffords(o, m', child);
      forall q
        ensures !Tears(o.flat, free, q)
      {
        AffordsTearsNowhere(o.flat, free, q);
      }
    }
    RamTotal(o, m', ram);
    AllCopied(o.flat, ram, Flat(m', child), o.vs, SkipOf(torn));
    CopiedBytes(o, ram, Flat(m', child), SkipOf(torn));
  }

  lemma RamTotal(o: Origin, m: Mm, ram: Ram)
    requires RamOk(ram, |m.pool.used|) && RamOk(o.ram, |m.pool.used|)
    ensures RamOk(o.ram, |ram|)
  {
  }

  /** Clones an address space: a new root, then every present page of every area onto a fresh frame.
      The parent is as it was in every case. The outcome follows from the parent's pages and the number
      of free frames alone.
      - With a frame for the root, every page and every table of the copy, the child has the same areas
        in agreement with its tables, the same bytes everywhere and no frame in common with the parent.
      - If at some page there is a frame for the page but not for all its tables, that mapping fails
        unnoticed, and exactly that frame is lost: nothing maps it, so no drop gives it back. When it
        is the last page, the child is handed out without it.
      - Otherwise dropping the child gave every frame back. */
  method CloneFrom(m: Mm, ram: Ram, parent: nat, active: nat, vs: seq<Area>)
    returns (r: Option<nat>, m': Mm, ram': Ram, ghost torn: Option<Torn>)
    requires Agree(m, parent, vs) && RamOk(ram, |m.pool.used|)
    ensures ParentKept(m, ram, parent, m', ram')
    ensures r.Some? && Agree(m', r.value, vs) <==> Affords(Flat(m, parent), |FreeSet(m.pool)|)
    ensures Affords(Flat(m, parent), |FreeSet(m.pool)|) ==>
      r.Some? && ChildOf(m, ram, parent, m', ram', r.value, {}, {})
    ensures torn.Some? <==> exists q :: Tears(Flat(m, parent), |FreeSet(m.pool)|, q)
    ensures torn.Some? ==> Tears(Flat(m, parent), |FreeSet(m.pool)|, torn.value.page)
                           && TornOutcome(m, ram, parent, r, m', ram', torn.value)
    ensures !Affords(Flat(m, parent), |FreeSet(m.pool)|) && torn.None? ==> r.None? && GivenBack(m, m', {})
  {
    hide SpaceOk, Canonical, PageWise, PagesAgree, Flat, Progress, NewSpace, FreeTree, FreeSet, At, RamOk, SameBytes,
      PageAttr, Affords, Tears, TornOutcome, ChildOf, GivenBack, ParentKept, OriginOf, OriginOk;
    torn := None;
    var born := NewChild(m, ram, parent, active, vs);
    if born.1.None? {
      NoFrames(m, ram, parent);
      return None, m, ram, None;
    }
    var child := born.1.value;
    ghost var o := Origin(parent, Flat(m, parent), ram, vs, born.0);
    m', ram' := born.0, ram;
    var k := 0;
    ghost var bound := 0;
    while k < |vs|
      invariant 0 <= k <= |vs| && EndOf(vs, k) == bound * PAGE_SIZE <= USER_SPACE_END
      invariant Progress(o, m', ram', child, bound, torn)
    {
      ghost var page, n := AreaPages(vs, k);
      CanonicalSorted(vs);
      NextArea(vs, k);
      GapUnmapped(o.flat, vs, k, bound, page);
      Passes(o, m', ram', child, bound, page, torn);
      var alive;
      alive, m', ram', torn := CloneArea(o, m', ram', parent, child, vs[k], page, n, torn);
      if !alive {
        AbandonOk(o, m, active, m', ram', child, torn);
        m' := m'.(pool := FreeTree(m'.pool, m'.ts, child, []));
        return None, m', ram', torn;
      }
      bound := page + n;
      k := k + 1;
    }
    CanonicalSorted(vs);
    GapUnmapped(o.flat, vs, k, bound, USER_PAGES);
    Passes(o, m', ram', child, bound, USER_PAGES, torn);
    r := Some(child);
    CompleteOk(o, m, active, m', ram', child, torn);
  }

  // ----- isolation -----

  /** A write by one of the two processes: its side, the address and the bytes. */
  datatype Write = Write(byChild: bool, target: nat, data: seq<Byte>)

  /** The byte that the last write of one side left at `a`. */
  function LastWrite(ws: seq<Write>, byChild: bool, a: nat): (r: Option<Byte>) {
    if ws == [] then None
    else
      var w := ws[|ws| - 1];
      if w.byChild == byChild && w.target <= a < w.target + |w.data| then Some(w.data[a - w.target])
      else LastWrite(ws[..|ws| - 1], byChild, a)
  }

  /** `h` lists memory through a run of complete writes by either side. */
  ghost predicate WriteRun(h: seq<Ram>, ws: seq<Write>, parent: map<nat, Pte>, child: map<nat, Pte>) {
    && |h| == |ws| + 1
    && forall i :: 0 <= i < |ws| ==>
      var flat := if ws[i].byChild then child else parent;
      Wrote(h[i], h[i + 1], flat, ws[i].target, ws[i].data) && OnlyThrough(h[i], h[i + 1], flat)
  }

  /** The frames of two spaces apart are distinct. */
  ghost predicate Disjoint(a: map<nat, Pte>, b: map<nat, Pte>) {
    forall q, r :: q in a && r in b ==> a[q].frame != b[r].frame
  }

  lemma ApartDisjoint(m: Mm, a: nat, b: nat)
    requires Apart(m, a, b)
    ensures Disjoint(Flat(m, a), Flat(m, b))
  {
    hide Flat, Reached;
    forall q, r | q in Flat(m, a) && r in Flat(m, b)
      ensures Flat(m, a)[q].frame != Flat(m, b)[r].frame
    {
      PageReached(m, a, q);
      PageReached(m, b, r);
    }
  }

  lemma PageReached(m: Mm, root: nat, page: nat)
    requires page in Flat(m, root)
    ensures Reached(m, root, Flat(m, root)[page].frame)
  {
    PageIndices(page);
    InFlat(m, root, page);
    assert Walk(m.ts, root, Indices(page)) == Some(Flat(m, root)[page].frame);
  }

  /** A write on one side is not seen on the other. */
  lemma UnseenWrite(ram: Ram, ram': Ram, mine: map<nat, Pte>, other: map<nat, Pte>, a: nat)
    requires OnlyThrough(ram, ram', other) && Disjoint(other, mine)
    ensures ByteAt(ram', mine, a) == ByteAt(ram, mine, a)
  {
  }

  lemma DisjointSymmetric(a: map<nat, Pte>, b: map<nat, Pte>)
    requires Disjoint(a, b)
    ensures Disjoint(b, a)
  {
  }

  /** Fork isolation: over any interleaving of writes by parent and child, each reads back its own
      last writes over what it had, and nothing of the other's. */
  lemma {:induction false} ForkIsolation(h: seq<Ram>, ws: seq<Write>, parent: map<nat, Pte>, child: map<nat, Pte>,
      ofChild: bool, a: nat)
    requires WriteRun(h, ws, parent, child) && Disjoint(parent, child)
    ensures var flat := if ofChild then child else parent; var w := LastWrite(ws, ofChild, a);
            ByteAt(h[|ws|], flat, a) == if w.Some? then w else ByteAt(h[0], flat, a)
  {
    hide ByteAt, OnlyThrough, Disjoint;
    if ws != [] {
      var n := |ws| - 1;
      var flat := if ofChild then child else parent;
      assert WriteRun(h[..n + 1], ws[..n], parent, child);
      ForkIsolation(h[..n + 1], ws[..n], parent, child, ofChild, a);
      DisjointSymmetric(parent, child);
      if ws[n].byChild != ofChild {
        UnseenWrite(h[n], h[n + 1], flat, if ofChild then parent else child, a);
      }
    }
  }

  /** From the clone on: whatever parent and child then write, in any order, each reads at every address
      its own last write, or else what the parent had there when it was cloned. */
  lemma CloneIsolation(m: Mm, ram: Ram, parent: nat, m': Mm, ram': Ram, child: nat, h: seq<Ram>, ws: seq<Write>,
                       ofChild: bool, a: nat)
    requires ParentKept(m, ram, parent, m', ram') && ChildOf(m, ram, parent, m', ram', child, {}, {})
    requires WriteRun(h, ws, Flat(m', parent), Flat(m', child)) && h[0] == ram'
    ensures var flat := Flat(m', if ofChild then child else parent); var w := LastWrite(ws, ofChild, a);
            ByteAt(h[|ws|], flat, a) == if w.Some? then w else ByteAt(ram, Flat(m, parent), a)
  {
    hide SpaceOk, Apart, Flat, ByteAt, Disjoint, LastWrite, WriteRun, FreeSet, Owned;
    ApartDisjoint(m', child, parent);
    DisjointSymmetric(Flat(m', child), Flat(m', parent));
    ForkIsolation(h, ws, Flat(m', parent), Flat(m', child), ofChild, a);
    assert Flat(m, parent) - {} == Flat(m, parent);
  }
}

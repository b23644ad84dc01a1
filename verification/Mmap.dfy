/** Multi-page mapping with rollback, as mmap does it: a per-page loop over an allocator and a mapper
    that may fail at any page. */
module Mmap {
  import opened Common
  import opened Pmm
  import opened Paging
  import opened PageMap
  import opened AddressSpace
  import opened Costs

  /** What goes wrong at one page, besides running out of frames. */
  datatype Fault = NoFault | AllocFault | MapFault

  /** Allocates, maps; a frame whose mapping failed goes back at once. */
  function MapOne(m: Mm, root: nat, page: nat, flags: PageFlags, fault: Fault): (r: (Mm, Option<nat>))
    requires m.pool.last <= |m.pool.used|
    ensures r.0.pool.last <= |r.0.pool.used|
  {
    match fault
    case NoFault => MapFresh(m, root, Indices(page), flags)
    case AllocFault => (m, None)
    case MapFault =>
      var a := Alloc(m.pool);
      if a.1.None? then (m, None) else (m.(pool := Free(a.0, a.1.value)), None)
  }

  /** Maps pages upwards from `page` until `n` are done or one fails; the frames mapped, in order. */
  function MapRange(m: Mm, root: nat, page: nat, n: nat, flags: PageFlags, faults: nat -> Fault): (r: (Mm, seq<nat>))
    requires m.pool.last <= |m.pool.used|
    ensures r.0.pool.last <= |r.0.pool.used| && |r.1| <= n
  {
    if n == 0 then (m, [])
    else
      var s := MapRange(m, root, page, n - 1, flags, faults);
      if |s.1| < n - 1 then s
      else
        var o := MapOne(s.0, root, page + n - 1, flags, faults(n - 1));
        (o.0, if o.1.Some? then s.1 + [o.1.value] else s.1)
  }

  function UnmapRange(m: Mm, root: nat, page: nat, n: nat): (r: Mm) {
    if n == 0 then m else UnmapFree(UnmapRange(m, root, page, n - 1), root, Indices(page + n - 1))
  }

  /** What one or more mapping steps keep: a sound space, only the frames `lost` gone, none freed that
      was in use. */
  ghost predicate Mapping(m: Mm, m': Mm, root: nat, lost: set<nat>) {
    SpaceOk(m', root) && LostExactly(m, m', root, lost) && FreeSet(m'.pool) <= FreeSet(m.pool)
  }

  lemma MappingTransitive(a: Mm, b: Mm, c: Mm, root: nat, lost: set<nat>, more: set<nat>)
    requires Mapping(a, b, root, lost) && Mapping(b, c, root, more)
    ensures Mapping(a, c, root, lost + more)
  {
    hide SpaceOk, LostExactly, FreeSet;
    LossesAdd(a, b, c, root, lost, more);
  }

  /** The frame a page is on, as a set of at most one. */
  ghost function HolderOf(flat: map<nat, Pte>, page: nat): (s: set<nat>) {
    if page in flat then {flat[page].frame} else {}
  }

  lemma HeldByPage(m: Mm, root: nat, page: nat)
    requires page < USER_PAGES
    ensures HeldAt(m, root, Indices(page)) == HolderOf(Flat(m, root), page)
  {
    hide Flat, Indices, PteAt;
    PageIndices(page);
    InFlat(m, root, page);
    WalkFront(m.ts, root, Indices(page));
  }

  /** The page map after one page was mapped, or not. */
  ghost function WithPage(flat: map<nat, Pte>, page: nat, f: Option<nat>, flags: PageFlags): (r: map<nat, Pte>) {
    if f.Some? then flat[page := LeafEntry(f.value, flags)] else flat
  }

  /** What a mapping of one page that took frame `f`, or failed, has done. */
  ghost predicate OneMapped(m: Mm, m': Mm, root: nat, page: nat, f: Option<nat>, flags: PageFlags) {
    && Mapping(m, m', root, if f.Some? then HolderOf(Flat(m, root), page) else {})
    && (f.Some? ==> f.value in FreeSet(m.pool))
    && Flat(m', root) == WithPage(Flat(m, root), page, f, flags)
  }

  lemma MapFreshFlat(m: Mm, root: nat, page: nat, flags: PageFlags)
    requires SpaceOk(m, root) && page < USER_PAGES && flags.user
    ensures m.pool.last <= |m.pool.used|
    ensures var r := MapFresh(m, root, Indices(page), flags); OneMapped(m, r.0, root, page, r.1, flags)
  {
    hide SpaceOk, Flat, Indices, PteAt, MapFresh, LostExactly, FreeSet, Lower, HolderOf, HeldAt;
    PageIndices(page);
    MapFreshLoses(m, root, Indices(page), flags);
    HeldByPage(m, root, page);
    var r := MapFresh(m, root, Indices(page), flags);
    if r.1.Some? {
      FlatUpdated(m, r.0, root, page, LeafEntry(r.1.value, flags));
    } else {
      FlatSame(m, r.0, root);
    }
  }

  lemma MapFaultKeeps(m: Mm, root: nat, page: nat, flags: PageFlags)
    requires SpaceOk(m, root)
    ensures m.pool.last <= |m.pool.used|
    ensures Alloc(m.pool).1.Some? ==>
            OneMapped(m, m.(pool := Free(Alloc(m.pool).0, Alloc(m.pool).1.value)), root, page, None, flags)
  {
    hide SpaceOk, Flat, LostExactly, FreeSet, Reached, Owned, Alloc, Free, Conserved;
    InHand(m, root);
    if Alloc(m.pool).1.Some? {
      var f := Alloc(m.pool).1.value;
      var m1 := m.(pool := Alloc(m.pool).0);
      var m2 := m.(pool := Free(Alloc(m.pool).0, f));
      HandBack(m, m1, root, f);
      ConservedLoses(m, m2, root);
      FlatOfTables(m, m2, root);
    }
  }

  lemma FlatOfTables(m: Mm, m': Mm, root: nat)
    requires m'.ts == m.ts
    ensures Flat(m', root) == Flat(m, root)
  {
    hide PteAt, Indices;
    assert forall q :: PageAt(m', root, q) == PageAt(m, root, q);
  }

  lemma NothingDone(m: Mm, root: nat, page: nat, flags: PageFlags)
    requires SpaceOk(m, root)
    ensures OneMapped(m, m, root, page, None, flags)
  {
    hide SpaceOk, Flat, FreeSet, LostExactly;
    ConservedSame(m, root);
  }

  lemma MapOneOk(m: Mm, root: nat, page: nat, flags: PageFlags, fault: Fault)
    requires SpaceOk(m, root) && page < USER_PAGES && flags.user
    ensures m.pool.last <= |m.pool.used|
    ensures var r := MapOne(m, root, page, flags, fault); OneMapped(m, r.0, root, page, r.1, flags)
  {
    hide SpaceOk, OneMapped, MapFresh, Alloc, Free, Indices;
    CursorOk(m, root);
    PageIndices(page);
    NothingDone(m, root, page, flags);
    match fault
    case NoFault => MapFreshFlat(m, root, page, flags);
    case AllocFault =>
    case MapFault => MapFaultKeeps(m, root, page, flags);
  }

  predicate InRange(q: nat, page: nat, n: nat) {
    page <= q < page + n
  }

  /** Consecutive pages from `page` on the given frames. */
  ghost function Span(page: nat, frames: seq<nat>, flags: PageFlags): (r: map<nat, Pte>) {
    map q: nat | q < page + |frames| && InRange(q, page, |frames|) :: LeafEntry(frames[q - page], flags)
  }

  lemma SpanStep(flat: map<nat, Pte>, page: nat, frames: seq<nat>, f: nat, flags: PageFlags)
    ensures (flat + Span(page, frames, flags))[page + |frames| := LeafEntry(f, flags)]
      == flat + Span(page, frames + [f], flags)
    ensures HolderOf(flat + Span(page, frames, flags), page + |frames|) == HolderOf(flat, page + |frames|)
  {
  }

  /** The frames that the pages `[page, page + n)` are on. */
  ghost function OldFrames(flat: map<nat, Pte>, page: nat, n: nat): (s: set<nat>) {
    set q | q in flat && InRange(q, page, n) :: flat[q].frame
  }

  lemma OldFramesNext(flat: map<nat, Pte>, page: nat, n: nat)
    ensures OldFrames(flat, page, n + 1) == OldFrames(flat, page, n) + HolderOf(flat, page + n)
    ensures OldFrames(flat, page, 0) == {}
  {
    forall q
      ensures InRange(q, page, n + 1) <==> InRange(q, page, n) || q == page + n
    {
    }
    if page + n in flat {
      assert flat[page + n].frame in OldFrames(flat, page, n + 1);
    }
  }

  /** What mapping `frames` at consecutive pages from `page` has done to `m`. */
  ghost predicate RangeMapped(m: Mm, m': Mm, root: nat, page: nat, frames: seq<nat>, flags: PageFlags) {
    && Mapping(m, m', root, OldFrames(Flat(m, root), page, |frames|))
    && Flat(m', root) == Flat(m, root) + Span(page, frames, flags)
    && forall i :: 0 <= i < |frames| ==> frames[i] in FreeSet(m.pool)
  }

  /** The mapping loop, onto pages mapped or not: the pages it got to are on frames that were free, and
      exactly the frames they were on before are lost. */
  lemma {:induction false} MapRangeOk(m: Mm, root: nat, page: nat, n: nat, flags: PageFlags, faults: nat -> Fault)
    requires SpaceOk(m, root) && page + n <= USER_PAGES && flags.user
    ensures m.pool.last <= |m.pool.used|
    ensures var r := MapRange(m, root, page, n, flags, faults); RangeMapped(m, r.0, root, page, r.1, flags)
  {
    hide SpaceOk, RangeMapped, MapOne;
    CursorOk(m, root);
    if n == 0 {
      NoPages(m, root, page, flags);
    } else {
      MapRangeOk(m, root, page, n - 1, flags, faults);
      var s := MapRange(m, root, page, n - 1, flags, faults);
      if |s.1| == n - 1 {
        MapRangeNext(m, s.0, root, page, s.1, flags, faults(n - 1));
      }
    }
  }

  lemma NoPages(m: Mm, root: nat, page: nat, flags: PageFlags)
    requires SpaceOk(m, root)
    ensures RangeMapped(m, m, root, page, [], flags)
  {
    hide SpaceOk, Flat, FreeSet, LostExactly, OldFrames;
    ConservedSame(m, root);
    OldFramesNext(Flat(m, root), page, 0);
    assert Span(page, [], flags) == map[];
  }

  lemma MapRangeNext(m: Mm, m1: Mm, root: nat, page: nat, frames: seq<nat>, flags: PageFlags, fault: Fault)
    requires RangeMapped(m, m1, root, page, frames, flags) && flags.user && page + |frames| < USER_PAGES
    ensures m1.pool.last <= |m1.pool.used|
    ensures var o := MapOne(m1, root, page + |frames|, flags, fault);
            RangeMapped(m, o.0, root, page, if o.1.Some? then frames + [o.1.value] else frames, flags)
  {
    hide SpaceOk, Flat, MapOne, FreeSet, LostExactly, OldFrames, HolderOf, Span;
    CursorOk(m1, root);
    var flat := Flat(m, root);
    MapOneOk(m1, root, page + |frames|, flags, fault);
    var o := MapOne(m1, root, page + |frames|, flags, fault);
    var lost := OldFrames(flat, page, |frames|);
    if o.1.Some? {
      SpanStep(flat, page, frames, o.1.value, flags);
      OldFramesNext(flat, page, |frames|);
      MappingTransitive(m, m1, o.0, root, lost, HolderOf(flat, page + |frames|));
    } else {
      MappingTransitive(m, m1, o.0, root, lost, {});
      assert lost + {} == lost;
    }
  }

  lemma UnmapFreeFlat(m: Mm, root: nat, page: nat)
    requires SpaceOk(m, root) && page < USER_PAGES
    ensures var m' := UnmapFree(m, root, Indices(page));
            SpaceOk(m', root) && Conserved(m, m', root) && Flat(m', root) == Flat(m, root) - {page}
  {
    PageIndices(page);
    UnmapFreeConserves(m, root, Indices(page));
    var m' := UnmapFree(m, root, Indices(page));
    FlatUpdated(m, m', root, page, PteAt(m'.ts, root, Indices(page)));
  }

  /** The pages `[page, page + n)`. */
  ghost function PageSet(page: nat, n: nat): (s: set<nat>) {
    set q: nat | q < page + n && InRange(q, page, n)
  }

  lemma ConservedTransitive(a: Mm, b: Mm, c: Mm, root: nat)
    requires Conserved(a, b, root) && Conserved(b, c, root)
    ensures Conserved(a, c, root)
  {
  }

  lemma ConservedReflexive(m: Mm, root: nat)
    ensures Conserved(m, m, root)
  {
  }

  lemma RemoveStep(flat: map<nat, Pte>, page: nat, n: nat)
    ensures flat - PageSet(page, n) - {page + n} == flat - PageSet(page, n + 1)
    ensures flat - PageSet(page, 0) == flat
  {
    assert PageSet(page, n + 1) == PageSet(page, n) + {page + n};
    assert PageSet(page, 0) == {};
  }

  /** Unmapping a range clears exactly its pages and conserves frames. */
  lemma {:induction false} UnmapRangeOk(m: Mm, root: nat, page: nat, n: nat)
    requires SpaceOk(m, root) && page + n <= USER_PAGES
    ensures var m' := UnmapRange(m, root, page, n);
            SpaceOk(m', root) && Conserved(m, m', root) && Flat(m', root) == Flat(m, root) - PageSet(page, n)
  {
    hide SpaceOk, Conserved, Flat, UnmapFree;
    if n == 0 {
      RemoveStep(Flat(m, root), page, 0);
      ConservedReflexive(m, root);
    } else {
      UnmapRangeOk(m, root, page, n - 1);
      var m1 := UnmapRange(m, root, page, n - 1);
      UnmapFreeFlat(m1, root, page + n - 1);
      ConservedTransitive(m, m1, UnmapRange(m, root, page, n), root);
      RemoveStep(Flat(m, root), page, n - 1);
    }
  }

  /** Distinct pages hold distinct frames. */
  lemma FramesDistinct(m: Mm, root: nat, a: nat, b: nat)
    requires SpaceOk(m, root) && a in Flat(m, root) && b in Flat(m, root) && a != b
    ensures Flat(m, root)[a].frame != Flat(m, root)[b].frame
  {
    PageIndices(a);
    PageIndices(b);
    assert Walk(m.ts, root, Indices(a)) == Some(Flat(m, root)[a].frame);
    assert Walk(m.ts, root, Indices(b)) == Some(Flat(m, root)[b].frame);
  }

  // ----- the call -----

  /** Where a request goes: the base address, the page count and the next bump address, or an errno. */
  datatype Plan = Refuse(errno: int) | Place(vaddr: nat, pages: nat, next: nat)

  function Pages(length: nat): (n: nat) {
    (length + PAGE_SIZE - 1) / PAGE_SIZE
  }

  /** The checks before the loop. With `addr == 0` the bump pointer is used and advanced. */
  function PlanFor(addr: nat, length: nat, limit: nat, freeFrames: int, next: nat): (p: Plan) {
    if length == 0 then Refuse(EINVAL)
    else if length > limit then Refuse(ENOMEM)
    else
      var pages := Pages(length);
      var bytes := pages * PAGE_SIZE;
      if bytes >= USIZE_LIMIT || pages > freeFrames then Refuse(ENOMEM)
      else if addr == 0 then
        (if next + bytes >= USIZE_LIMIT || next + bytes > limit then Refuse(ENOMEM)
          else Place(next, pages, next + bytes))
      else
        var base := addr - addr % PAGE_SIZE;
        if base + bytes >= USIZE_LIMIT || base + bytes > limit then Refuse(ENOMEM) else Place(base, pages, next)
  }

  /** Outcome of the call: memory, result, bump pointer, and the frames it mapped and zeroed, which a
      failed call has unmapped again. */
  datatype Mapped = Mapped(m: Mm, result: Result<nat>, next: nat, frames: seq<nat>)

  function MmapAllocate(m: Mm, root: nat, addr: nat, length: nat, flags: PageFlags, next: nat,
      faults: nat -> Fault): (r: Mapped)
    requires m.pool.last <= |m.pool.used|
  {
    match PlanFor(addr, length, USER_SPACE_END, m.pool.free, next)
    case Refuse(e) => Mapped(m, Err(e), next, [])
    case Place(vaddr, pages, next') =>
      var s := MapRange(m, root, vaddr / PAGE_SIZE, pages, flags, faults);
      if |s.1| == pages then Mapped(s.0, Ok(vaddr), next', s.1)
      else Mapped(UnmapRange(s.0, root, vaddr / PAGE_SIZE, |s.1|), Err(ENOMEM), next, s.1)
  }

  ghost predicate RangeFree(m: Mm, root: nat, page: nat, n: nat) {
    forall q :: InRange(q, page, n) ==> q !in Flat(m, root)
  }

  lemma PlanFits(addr: nat, length: nat, freeFrames: int, next: nat)
    requires next % PAGE_SIZE == 0
    ensures var p := PlanFor(addr, length, USER_SPACE_END, freeFrames, next);
            p.Place? ==>
              && p.vaddr % PAGE_SIZE == 0 && p.pages >= 1 && p.pages == Pages(length)
              && p.vaddr + p.pages * PAGE_SIZE <= USER_SPACE_END
              && p.vaddr / PAGE_SIZE + p.pages <= USER_PAGES
              && (p.pages - 1) * PAGE_SIZE < length <= p.pages * PAGE_SIZE
              && p.next % PAGE_SIZE == 0
              && (addr == 0 ==> p.vaddr == next && p.next == next + p.pages * PAGE_SIZE)
              && (addr != 0 ==> p.vaddr == addr - addr % PAGE_SIZE && p.next == next)
  {
  }

  /** The base address of a request: the bump pointer, or the page of the address asked for. */
  function BaseOf(addr: nat, next: nat): (base: nat) {
    if addr == 0 then next else addr / PAGE_SIZE * PAGE_SIZE
  }

  /** A request is placed exactly if it is not empty, there are as many frames as it has pages, and it
      ends below the user limit; an empty one is refused with EINVAL and any other with ENOMEM. */
  lemma PlacedIff(addr: nat, length: nat, freeFrames: int, next: nat)
    ensures var p := PlanFor(addr, length, USER_SPACE_END, freeFrames, next);
            && (p.Place? <==>
                  && length > 0 && Pages(length) <= freeFrames
                  && BaseOf(addr, next) + Pages(length) * PAGE_SIZE <= USER_SPACE_END)
            && (p.Place? ==>
                  && p.vaddr == BaseOf(addr, next) && p.pages == Pages(length)
                  && p.next == (if addr == 0 then next + Pages(length) * PAGE_SIZE else next))
            && (p.Refuse? ==> p.errno == if length == 0 then EINVAL else ENOMEM)
  {
    RoomFor(length);
  }

  /** The pages of a length hold it, and one fewer would not. */
  lemma RoomFor(length: nat)
    ensures length <= Pages(length) * PAGE_SIZE < length + PAGE_SIZE
  {
  }

  /** mmap, for every request and every way the allocator or the mapper may fail. A refused request
      changes nothing. On failure the bump pointer is as before and the pages the loop got to are
      unmapped; on success exactly ceil(length / 4096) consecutive pages from the returned address, all
      below the user limit, are on distinct frames that were free, and no other page changed. Either
      way exactly the frames that the pages it got to were on before are lost. */
  lemma MmapEffect(m: Mm, root: nat, addr: nat, length: nat, flags: PageFlags, next: nat, faults: nat -> Fault)
    requires SpaceOk(m, root) && flags.user && next % PAGE_SIZE == 0
    ensures m.pool.last <= |m.pool.used|
    ensures var r := MmapAllocate(m, root, addr, length, flags, next, faults);
            var p := PlanFor(addr, length, USER_SPACE_END, m.pool.free, next);
            && SpaceOk(r.m, root)
            && (p.Refuse? ==> r == Mapped(m, Err(p.errno), next, []))
            && (p.Place? ==>
                  var page := p.vaddr / PAGE_SIZE;
                  && LostExactly(m, r.m, root, OldFrames(Flat(m, root), page, |r.frames|))
                  && (r.result.Err? ==>
                        && r.result == Err(ENOMEM) && r.next == next && |r.frames| < p.pages
                        && Flat(r.m, root) == Flat(m, root) - PageSet(page, |r.frames|))
                  && (r.result.Ok? ==>
                        && r.result == Ok(p.vaddr) && r.next == p.next && |r.frames| == p.pages == Pages(length)
                        && Flat(r.m, root) == Flat(m, root) + Span(page, r.frames, flags)
                        && (forall i :: 0 <= i < |r.frames| ==> r.frames[i] in FreeSet(m.pool))
                        && (forall i, j :: 0 <= i < j < |r.frames| ==> r.frames[i] != r.frames[j])))
  {
    hide SpaceOk, LostExactly, Conserved, Flat, FreeSet, MapRange, UnmapRange, PlanFor, Pages, OldFrames, Span, PageSet;
    CursorOk(m, root);
    PlanFits(addr, length, m.pool.free, next);
    var p := PlanFor(addr, length, USER_SPACE_END, m.pool.free, next);
    if p.Place? {
      var page := p.vaddr / PAGE_SIZE;
      MapRangeOk(m, root, page, p.pages, flags, faults);
      var s := MapRange(m, root, page, p.pages, flags, faults);
      if |s.1| == p.pages {
        SpanDistinct(s.0, root, Flat(m, root), page, s.1, flags);
      } else {
        UnmapRangeOk(s.0, root, page, |s.1|);
        var m' := UnmapRange(s.0, root, page, |s.1|);
        var lost := OldFrames(Flat(m, root), page, |s.1|);
        ConservedLoses(s.0, m', root);
        LossesAdd(m, s.0, m', root, lost, {});
        assert lost + {} == lost;
        SpanOverRemoved(Flat(m, root), page, s.1, flags);
      }
    }
  }

  lemma SpanDistinct(m: Mm, root: nat, flat: map<nat, Pte>, page: nat, frames: seq<nat>, flags: PageFlags)
    requires SpaceOk(m, root) && Flat(m, root) == flat + Span(page, frames, flags)
    ensures forall i, j :: 0 <= i < j < |frames| ==> frames[i] != frames[j]
  {
    hide SpaceOk, Flat;
    forall i, j | 0 <= i < j < |frames|
      ensures frames[i] != frames[j]
    {
      assert InRange(page + i, page, |frames|) && InRange(page + j, page, |frames|);
      assert page + i in Flat(m, root) && page + j in Flat(m, root);
      FramesDistinct(m, root, page + i, page + j);
    }
  }

  // ----- how far the loop gets -----

  /** The loop gets past its first `k` pages: no fault there, and frames for them and their tables. */
  ghost predicate Reaches(m: Mm, root: nat, page: nat, k: nat, faults: nat -> Fault) {
    && (forall i: nat :: i < k ==> faults(i) == NoFault)
    && Needs(m.ts, root, PageSet(page, k)) <= |FreeSet(m.pool)|
  }

  lemma ReachesFewer(m: Mm, root: nat, page: nat, j: nat, k: nat, faults: nat -> Fault)
    requires j <= k && Reaches(m, root, page, k, faults)
    ensures Reaches(m, root, page, j, faults)
  {
    hide Needs, FreeSet;
    assert forall q :: InRange(q, page, j) ==> InRange(q, page, k);
    NeedsMonotone(m.ts, root, PageSet(page, j), PageSet(page, k));
  }

  /** The number of pages done is the largest that the frames and the faults allow. */
  ghost predicate StopsAt(m: Mm, root: nat, page: nat, n: nat, done: nat, faults: nat -> Fault) {
    done <= n && Reaches(m, root, page, done, faults) && (done < n ==> !Reaches(m, root, page, done + 1, faults))
  }

  lemma {:induction false} MapRangeStops(m: Mm, root: nat, page: nat, n: nat, flags: PageFlags, faults: nat -> Fault)
    requires SpaceOk(m, root) && page + n <= USER_PAGES && flags.user
    ensures m.pool.last <= |m.pool.used|
    ensures var r := MapRange(m, root, page, n, flags, faults);
            && StopsAt(m, root, page, n, |r.1|, faults)
            && (|r.1| == n ==> Spent(m, r.0, root, PageSet(page, n)))
  {
    hide SpaceOk, RangeMapped, MapOne, Spent, Needs, FreeSet, PageSet;
    CursorOk(m, root);
    if n == 0 {
      NoPagesReached(m, root, page, faults);
    } else {
      MapRangeStops(m, root, page, n - 1, flags, faults);
      var s := MapRange(m, root, page, n - 1, flags, faults);
      if |s.1| == n - 1 {
        MapRangeOk(m, root, page, n - 1, flags, faults);
        RangeSpace(m, s.0, root, page, s.1, flags);
        NextReached(m, s.0, root, page, n - 1, flags, faults);
      }
    }
  }

  lemma NoPagesReached(m: Mm, root: nat, page: nat, faults: nat -> Fault)
    ensures Reaches(m, root, page, 0, faults) && Spent(m, m, root, PageSet(page, 0))
  {
    hide Needs, Spent, FreeSet;
    NothingSpent(m, root);
    assert PageSet(page, 0) == {};
  }

  lemma RangeSpace(m: Mm, m': Mm, root: nat, page: nat, frames: seq<nat>, flags: PageFlags)
    requires RangeMapped(m, m', root, page, frames, flags)
    ensures SpaceOk(m', root)
  {
    hide SpaceOk;
  }

  lemma NextReached(m: Mm, m1: Mm, root: nat, page: nat, k: nat, flags: PageFlags, faults: nat -> Fault)
    requires SpaceOk(m1, root) && Spent(m, m1, root, PageSet(page, k)) && page + k < USER_PAGES && flags.user
    requires Reaches(m, root, page, k, faults)
    ensures m1.pool.last <= |m1.pool.used|
    ensures var r := MapOne(m1, root, page + k, flags, faults(k));
            && (r.1.Some? <==> Reaches(m, root, page, k + 1, faults))
            && (r.1.Some? ==> Spent(m, r.0, root, PageSet(page, k + 1)))
  {
    hide SpaceOk, Spent, Needs, FreeSet, MapFresh, Alloc, Free, Indices;
    CursorOk(m1, root);
    PageIndices(page + k);
    PageSetNext(page, k);
    SpendPage(m, m1, root, PageSet(page, k), page + k, flags);
  }

  lemma PageSetNext(page: nat, n: nat)
    ensures PageSet(page, n + 1) == PageSet(page, n) + {page + n} && page + n !in PageSet(page, n)
  {
  }

  /** A request that is not refused succeeds exactly when no page faults and there are frames for its
      pages and the tables they lack; in general it gets past `k` pages exactly when that holds of the
      first `k`. */
  lemma MmapReaches(m: Mm, root: nat, addr: nat, length: nat, flags: PageFlags, next: nat, faults: nat -> Fault, k: nat)
    requires SpaceOk(m, root) && flags.user && next % PAGE_SIZE == 0
    requires var p := PlanFor(addr, length, USER_SPACE_END, m.pool.free, next); p.Place? && k <= p.pages
    ensures m.pool.last <= |m.pool.used|
    ensures var r := MmapAllocate(m, root, addr, length, flags, next, faults);
            var p := PlanFor(addr, length, USER_SPACE_END, m.pool.free, next);
            && (k <= |r.frames| <==> Reaches(m, root, p.vaddr / PAGE_SIZE, k, faults))
            && (r.result.Ok? <==> Reaches(m, root, p.vaddr / PAGE_SIZE, p.pages, faults))
  {
    hide SpaceOk, MapRange, UnmapRange, PlanFor, Reaches, Spent;
    CursorOk(m, root);
    PlanFits(addr, length, m.pool.free, next);
    var p := PlanFor(addr, length, USER_SPACE_END, m.pool.free, next);
    var page := p.vaddr / PAGE_SIZE;
    MapRangeStops(m, root, page, p.pages, flags, faults);
    var done := |MapRange(m, root, page, p.pages, flags, faults).1|;
    if k <= done {
      ReachesFewer(m, root, page, k, done, faults);
    } else if Reaches(m, root, page, k, faults) {
      ReachesFewer(m, root, page, done + 1, k, faults);
    }
    if done < p.pages && Reaches(m, root, page, p.pages, faults) {
      ReachesFewer(m, root, page, done + 1, p.pages, faults);
    }
  }

  // ----- targets that are already mapped -----

  lemma SpanOverRemoved(flat: map<nat, Pte>, page: nat, frames: seq<nat>, flags: PageFlags)
    ensures flat + Span(page, frames, flags) - PageSet(page, |frames|) == flat - PageSet(page, |frames|)
  {
  }

  /** No mapped page of the request is among the pages that the loop gets to. */
  ghost predicate NoneOverwritten(m: Mm, root: nat, page: nat, n: nat, faults: nat -> Fault) {
    forall q: nat :: InRange(q, page, n) && q in Flat(m, root) ==> !Reaches(m, root, page, q - page + 1, faults)
  }

  lemma RemovedNone(flat: map<nat, Pte>, page: nat, n: nat)
    ensures flat - PageSet(page, n) == flat <==> forall q :: InRange(q, page, n) ==> q !in flat
    ensures OldFrames(flat, page, n) == {} <==> forall q :: InRange(q, page, n) ==> q !in flat
  {
    var cut := flat - PageSet(page, n);
    if q :| InRange(q, page, n) && q in flat {
      assert q !in cut && flat[q].frame in OldFrames(flat, page, n);
    } else {
      assert forall q :: q in flat ==> q in cut && cut[q] == flat[q];
    }
  }

  /** The pages got to were unmapped before exactly when no mapped page of the request is reached. */
  lemma ReachedFree(m: Mm, root: nat, page: nat, n: nat, done: nat, faults: nat -> Fault)
    requires done <= n && forall k: nat :: k <= n ==> (k <= done <==> Reaches(m, root, page, k, faults))
    ensures RangeFree(m, root, page, done) <==> NoneOverwritten(m, root, page, n, faults)
  {
    hide Flat, Reaches;
    forall q: nat | InRange(q, page, n)
      ensures InRange(q, page, done) <==> Reaches(m, root, page, q - page + 1, faults)
    {
      assert q - page + 1 <= done <==> Reaches(m, root, page, q - page + 1, faults);
    }
    assert forall q :: InRange(q, page, done) ==> InRange(q, page, n);
  }

  /** When mmap is all-or-nothing, from the request, the page map and the frames that are free: a
      failed call leaves the page map as it was, and any call conserves frames, if and only if no
      mapped page of the request is among those the loop gets to. */
  lemma MmapAllOrNothing(m: Mm, root: nat, addr: nat, length: nat, flags: PageFlags, next: nat, faults: nat -> Fault)
    requires SpaceOk(m, root) && flags.user && next % PAGE_SIZE == 0
    requires PlanFor(addr, length, USER_SPACE_END, m.pool.free, next).Place?
    ensures m.pool.last <= |m.pool.used|
    ensures var r := MmapAllocate(m, root, addr, length, flags, next, faults);
            var p := PlanFor(addr, length, USER_SPACE_END, m.pool.free, next);
            var none := NoneOverwritten(m, root, p.vaddr / PAGE_SIZE, p.pages, faults);
            && (r.result.Err? ==> r.next == next && (Flat(r.m, root) == Flat(m, root) <==> none))
            && (Conserved(m, r.m, root) <==> none)
  {
    hide SpaceOk, LostExactly, Conserved, Flat, MapRange, UnmapRange, PlanFor, OldFrames, Span, PageSet, Reaches,
      NoneOverwritten, MmapAllocate;
    CursorOk(m, root);
    PlanFits(addr, length, m.pool.free, next);
    MmapEffect(m, root, addr, length, flags, next, faults);
    var r := MmapAllocate(m, root, addr, length, flags, next, faults);
    var p := PlanFor(addr, length, USER_SPACE_END, m.pool.free, next);
    var page := p.vaddr / PAGE_SIZE;
    forall k: nat | k <= p.pages
      ensures k <= |r.frames| <==> Reaches(m, root, page, k, faults)
    {
      MmapReaches(m, root, addr, length, flags, next, faults, k);
    }
    ReachedFree(m, root, page, p.pages, |r.frames|, faults);
    RemovedNone(Flat(m, root), page, |r.frames|);
    ConservedIff(m, r.m, root, OldFrames(Flat(m, root), page, |r.frames|));
  }

  /** There are too few frames for the pages from `page` up to and including `q`. */
  ghost predicate OutOfReach(m: Mm, root: nat, page: nat, q: nat)
    requires page <= q
  {
    Needs(m.ts, root, PageSet(page, q - page + 1)) > |FreeSet(m.pool)|
  }

  /** The failed calls of one request, over every way to fail, keep the page map if and only if no
      mapped page but the last can be reached with the frames that are free. */
  lemma EveryFailureKeepsIff(m: Mm, root: nat, addr: nat, length: nat, flags: PageFlags, next: nat)
    requires SpaceOk(m, root) && flags.user && next % PAGE_SIZE == 0 && m.pool.last <= |m.pool.used|
    requires PlanFor(addr, length, USER_SPACE_END, m.pool.free, next).Place?
    ensures var p := PlanFor(addr, length, USER_SPACE_END, m.pool.free, next); var page := p.vaddr / PAGE_SIZE;
            (forall faults :: FailureKeeps(m, root, addr, length, flags, next, faults)) <==>
            (forall q: nat :: InRange(q, page, p.pages - 1) && q in Flat(m, root) ==> OutOfReach(m, root, page, q))
  {
    hide SpaceOk, Conserved, Flat, PlanFor, Needs, FreeSet, PageSet, MmapAllocate;
    PlanFits(addr, length, m.pool.free, next);
    var p := PlanFor(addr, length, USER_SPACE_END, m.pool.free, next);
    var page := p.vaddr / PAGE_SIZE;
    if q: nat :| InRange(q, page, p.pages - 1) && q in Flat(m, root) && !OutOfReach(m, root, page, q) {
      var k := q - page + 1;
      var faults := (i: nat) => if i == k then AllocFault else NoFault;
      MmapAllOrNothing(m, root, addr, length, flags, next, faults);
      MmapReaches(m, root, addr, length, flags, next, faults, p.pages);
      assert InRange(q, page, p.pages) && Reaches(m, root, page, k, faults);
      assert faults(k) != NoFault;
      assert !FailureKeeps(m, root, addr, length, flags, next, faults);
    } else {
      forall faults: nat -> Fault
        ensures FailureKeeps(m, root, addr, length, flags, next, faults)
      {
        MmapAllOrNothing(m, root, addr, length, flags, next, faults);
        MmapReaches(m, root, addr, length, flags, next, faults, p.pages);
        LastNotReached(m, root, page, p.pages, faults);
      }
    }
  }

  ghost predicate FailureKeeps(m: Mm, root: nat, addr: nat, length: nat, flags: PageFlags, next: nat,
      faults: nat -> Fault)
    requires m.pool.last <= |m.pool.used|
  {
    var r := MmapAllocate(m, root, addr, length, flags, next, faults);
    r.result.Err? ==> Flat(r.m, root) == Flat(m, root)
  }

  lemma LastNotReached(m: Mm, root: nat, page: nat, n: nat, faults: nat -> Fault)
    requires n > 0 && forall q: nat :: InRange(q, page, n - 1) && q in Flat(m, root) ==> OutOfReach(m, root, page, q)
    ensures !Reaches(m, root, page, n, faults) ==> NoneOverwritten(m, root, page, n, faults)
  {
    hide Flat, Needs, FreeSet, PageSet;
    forall q: nat | InRange(q, page, n) && q in Flat(m, root) && !Reaches(m, root, page, n, faults)
      ensures !Reaches(m, root, page, q - page + 1, faults)
    {
      if q < page + n - 1 { assert InRange(q, page, n - 1); }
    }
  }

  // ----- the bump pointer -----

  datatype MmapCall = MmapCall(m: Mm, root: nat, addr: nat, length: nat, flags: PageFlags, faults: nat -> Fault)

  function Perform(c: MmapCall, next: nat): (r: Mapped)
    requires c.m.pool.last <= |c.m.pool.used|
  {
    MmapAllocate(c.m, c.root, c.addr, c.length, c.flags, next, c.faults)
  }

  /** `nexts` lists the bump pointer through a run of calls, each on whatever memory it then finds. */
  ghost predicate BumpRun(calls: seq<MmapCall>, nexts: seq<nat>) {
    && |nexts| == |calls| + 1
    && forall i :: 0 <= i < |calls| ==>
      calls[i].m.pool.last <= |calls[i].m.pool.used| && nexts[i + 1] == Perform(calls[i], nexts[i]).next
  }

  lemma BumpStep(c: MmapCall, next: nat)
    requires c.m.pool.last <= |c.m.pool.used|
    ensures var r := Perform(c, next);
            && r.next >= next
            && (r.result.Ok? && c.addr == 0 ==> r.result.value == next && r.next == next + Pages(c.length) * PAGE_SIZE)
  {
  }

  lemma {:induction false} BumpMonotone(calls: seq<MmapCall>, nexts: seq<nat>, i: nat, j: nat)
    requires BumpRun(calls, nexts) && i <= j <= |calls|
    ensures nexts[i] <= nexts[j]
  {
    hide Perform;
    if i < j {
      BumpMonotone(calls, nexts, i, j - 1);
      BumpStep(calls[j - 1], nexts[j - 1]);
    }
  }

  /** Regions handed out through the bump pointer are disjoint, over any run in which calls may also
      fail, name an address, or find any memory. */
  lemma BumpResultsDisjoint(calls: seq<MmapCall>, nexts: seq<nat>, i: nat, j: nat)
    requires BumpRun(calls, nexts) && i < j < |calls| && calls[i].addr == 0 && calls[j].addr == 0
    requires Perform(calls[i], nexts[i]).result.Ok? && Perform(calls[j], nexts[j]).result.Ok?
    ensures Perform(calls[i], nexts[i]).result.value + Pages(calls[i].length) * PAGE_SIZE
         <= Perform(calls[j], nexts[j]).result.value
  {
    hide Perform;
    BumpStep(calls[i], nexts[i]);
    BumpStep(calls[j], nexts[j]);
    BumpMonotone(calls, nexts, i + 1, j);
  }
}

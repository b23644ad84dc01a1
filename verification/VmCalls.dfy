/** The memory calls of a process, mmap, munmap and mprotect, over its address space. */
module VmCalls {
  import opened Common
  import opened Pmm
  import opened Paging
  import opened PageMap
  import opened AddressSpace
  import opened Mmap
  import opened UserMemory
  import opened Vma
  import opened VmSpace
  import opened Mmu

  /** A process's memory: tables and allocator, page contents, areas and bump pointer. */
  datatype Vm = Vm(m: Mm, ram: Ram, vmas: seq<Area>, next: nat)

  datatype Call =
    | Mmap(addr: nat, length: nat, prot: bv32, flags: bv32, faults: nat -> Fault)
    | Munmap(addr: nat, length: nat)
    | Mprotect(addr: nat, length: nat, prot: bv32)

  /** Zeroes the given frames in order. */
  function Zeroed(ram: Ram, frames: seq<nat>): (r: Ram)
    ensures |r| == |ram|
  {
    if frames == [] then ram
    else
      var r := Zeroed(ram, frames[..|frames| - 1]);
      var f := frames[|frames| - 1];
      if f < |r| then r[f := ZeroPage()] else r
  }

  lemma NoneZeroed(ram: Ram)
    ensures Zeroed(ram, []) == ram
  {
  }

  lemma ZeroedNext(ram: Ram, frames: seq<nat>, f: nat)
    ensures var r := Zeroed(ram, frames); Zeroed(ram, frames + [f]) == if f < |r| then r[f := ZeroPage()] else r
  {
    assert (frames + [f])[..|frames|] == frames;
  }

  lemma {:induction false} ZeroedAt(ram: Ram, frames: seq<nat>, f: nat)
    requires f < |ram|
    ensures Zeroed(ram, frames)[f] == if f in frames then ZeroPage() else ram[f]
  {
    if frames != [] {
      var n := |frames| - 1;
      ZeroedAt(ram, frames[..n], f);
      assert frames == frames[..n] + [frames[n]];
    }
  }

  /** Page-aligned, non-empty and inside user space. */
  predicate InUserSpace(addr: nat, length: nat) {
    addr % PAGE_SIZE == 0 && 0 < length <= USER_SPACE_END && addr + Pages(length) * PAGE_SIZE <= USER_SPACE_END
  }

  predicate BadRequest(addr: nat, length: nat) {
    addr % PAGE_SIZE != 0 || length == 0
  }

  ghost function MmapStep(s: Vm, root: nat, c: Call): (r: (Vm, Result<nat>))
    requires c.Mmap? && s.m.pool.last <= |s.m.pool.used|
  {
    var o := MmapAllocate(s.m, root, c.addr, c.length, FromProt(c.prot), s.next, c.faults);
    var vmas := if o.result.Ok? then
        AreaStep(s.vmas, Insert(o.result.value, o.result.value + Pages(c.length) * PAGE_SIZE, Attr(c.prot, c.flags)))
      else s.vmas;
    (Vm(o.m, Zeroed(s.ram, o.frames), vmas, o.next), o.result)
  }

  ghost function MunmapStep(s: Vm, root: nat, c: Call): (r: (Vm, Result<nat>))
    requires c.Munmap?
  {
    if !InUserSpace(c.addr, c.length) then (s, Err(EINVAL))
    else
      var vmas := AreaStep(s.vmas, Remove(c.addr, c.addr + Pages(c.length) * PAGE_SIZE));
      (s.(m := UnmapRange(s.m, root, c.addr / PAGE_SIZE, Pages(c.length)), vmas := vmas), Ok(0))
  }

  ghost function MprotectStep(s: Vm, root: nat, c: Call): (r: (Vm, Result<nat>))
    requires c.Mprotect?
  {
    if BadRequest(c.addr, c.length) then (s, Err(EINVAL))
    else if !InUserSpace(c.addr, c.length) || !Covered(s.vmas, c.addr, c.addr + Pages(c.length) * PAGE_SIZE) then
      (s, Err(ENOMEM))
    else
      var vmas := AreaStep(s.vmas, Protect(c.addr, c.addr + Pages(c.length) * PAGE_SIZE, c.prot));
      (s.(m := SetRange(s.m, root, c.addr / PAGE_SIZE, Pages(c.length), FromProt(c.prot)), vmas := vmas), Ok(0))
  }

  /** State and result after one call. */
  ghost function VmStep(s: Vm, root: nat, c: Call): (r: (Vm, Result<nat>))
    requires s.m.pool.last <= |s.m.pool.used|
  {
    match c
    case Mmap(_, _, _, _, _) => MmapStep(s, root, c)
    case Munmap(_, _) => MunmapStep(s, root, c)
    case Mprotect(_, _, _) => MprotectStep(s, root, c)
  }

  // ----- the invariant -----

  /** Sound tables and page contents, a canonical list and an aligned bump pointer. */
  ghost predicate BaseOk(s: Vm, root: nat) {
    SpaceOk(s.m, root) && Canonical(s.vmas) && RamOk(s.ram, |s.m.pool.used|) && s.next % PAGE_SIZE == 0
  }

  /** And the list of areas agrees with the tables. */
  ghost predicate VmOk(s: Vm, root: nat) {
    BaseOk(s, root) && PageWise(s.vmas) && PagesAgree(Flat(s.m, root), s.vmas)
  }

  function PlanOf(s: Vm, c: Call): (p: Plan)
    requires c.Mmap?
  {
    PlanFor(c.addr, c.length, USER_SPACE_END, s.m.pool.free, s.next)
  }

  /** The calls that keep areas and tables in agreement: any but an mmap that is going to succeed where
      insertion loses a tail, or to fail after it overwrote a mapped page. */
  ghost predicate KeepsAgreement(s: Vm, root: nat, c: Call) {
    c.Mmap? && PlanOf(s, c).Place? ==>
      var p := PlanOf(s, c); var page := p.vaddr / PAGE_SIZE;
      if Reaches(s.m, root, page, p.pages, c.faults) then
        !TailLoss(s.vmas, page * PAGE_SIZE, (page + p.pages) * PAGE_SIZE, Attr(c.prot, c.flags))
      else NoneOverwritten(s.m, root, page, p.pages, c.faults)
  }

  /** A new address space has no areas and no pages. */
  lemma FreshOk(m: Mm, active: nat, ram: Ram, next: nat)
    requires PoolOk(m.pool) && NewSpace(m, active).1.Some? && RamOk(ram, |m.pool.used|) && next % PAGE_SIZE == 0
    ensures VmOk(Vm(NewSpace(m, active).0, ram, [], next), NewSpace(m, active).1.value)
  {
    hide PoolOk, SpaceOk, Flat, PteAt, Walk, Owned, FreeSet, Lower, NewSpace, RamOk;
    CursorOfPool(m.pool);
    NewSpaceOk(m, active);
    NothingMapped(NewSpace(m, active).0, NewSpace(m, active).1.value);
  }

  lemma ZeroedOk(ram: Ram, frames: seq<nat>, total: nat)
    requires RamOk(ram, total)
    ensures RamOk(Zeroed(ram, frames), total)
  {
    hide Zeroed;
    forall f | 0 <= f < total
      ensures |Zeroed(ram, frames)[f]| == PAGE_SIZE
    {
      ZeroedAt(ram, frames, f);
    }
  }

  lemma LostTotal(m: Mm, m': Mm, root: nat, lost: set<nat>)
    requires LostExactly(m, m', root, lost)
    ensures |m'.pool.used| == |m.pool.used|
  {
    hide FreeSet, Owned;
  }

  lemma ConservedTotal(m: Mm, m': Mm, root: nat)
    requires Conserved(m, m', root)
    ensures |m'.pool.used| == |m.pool.used|
  {
    hide FreeSet, Owned;
  }

  lemma AlignedRange(addr: nat, n: nat)
    requires addr % PAGE_SIZE == 0
    ensures addr / PAGE_SIZE * PAGE_SIZE == addr
    ensures (addr / PAGE_SIZE + n) * PAGE_SIZE == addr + n * PAGE_SIZE
  {
  }

  lemma UserPages(addr: nat, n: nat)
    requires addr % PAGE_SIZE == 0 && addr + n * PAGE_SIZE <= USER_SPACE_END
    ensures addr / PAGE_SIZE + n <= USER_PAGES
  {
  }

  /** What a call of mmap does to the parts of the state. */
  lemma MmapParts(s: Vm, root: nat, c: Call)
    requires c.Mmap? && BaseOk(s, root)
    ensures s.m.pool.last <= |s.m.pool.used|
    ensures var s' := MmapStep(s, root, c).0; var p := PlanOf(s, c);
            && BaseOk(s', root)
            && (p.Refuse? ==> s' == s)
            && (p.Place? ==>
                  var page := p.vaddr / PAGE_SIZE; var ok := Reaches(s.m, root, page, p.pages, c.faults);
                  && p.pages > 0 && page + p.pages <= USER_PAGES
                  && (ok ==> exists frames ::
                        && |frames| == p.pages
                        && Flat(s'.m, root) == Flat(s.m, root) + Span(page, frames, FromProt(c.prot))
                        && s'.vmas == Inserted(s.vmas, page * PAGE_SIZE, (page + p.pages) * PAGE_SIZE,
                           Attr(c.prot, c.flags)))
                  && (!ok ==>
                        && s'.vmas == s.vmas
                        && exists n :: Flat(s'.m, root) == Flat(s.m, root) - PageSet(page, n)
                                       && (Flat(s'.m, root) == Flat(s.m, root) <==>
                                          NoneOverwritten(s.m, root, page, p.pages, c.faults))))
  {
    hide SpaceOk, Canonical, Flat, LostExactly, Conserved, MmapAllocate, PlanFor, Pages, Span, RamOk, FromProt,
      Inserted, PageSet, OldFrames, Reaches, NoneOverwritten, FreeSet, Zeroed;
    CursorOk(s.m, root);
    UserFlags(c.prot);
    PlanFits(c.addr, c.length, s.m.pool.free, s.next);
    MmapEffect(s.m, root, c.addr, c.length, FromProt(c.prot), s.next, c.faults);
    var o := MmapAllocate(s.m, root, c.addr, c.length, FromProt(c.prot), s.next, c.faults);
    var p := PlanOf(s, c);
    if p.Place? {
      var page := p.vaddr / PAGE_SIZE;
      LostTotal(s.m, o.m, root, OldFrames(Flat(s.m, root), page, |o.frames|));
      ZeroedOk(s.ram, o.frames, |s.m.pool.used|);
      AlignedRange(p.vaddr, p.pages);
      MmapReaches(s.m, root, c.addr, c.length, FromProt(c.prot), s.next, c.faults, p.pages);
      MmapAllOrNothing(s.m, root, c.addr, c.length, FromProt(c.prot), s.next, c.faults);
      InsertedOk(s.vmas, page * PAGE_SIZE, (page + p.pages) * PAGE_SIZE, Attr(c.prot, c.flags));
    } else {
      NoneZeroed(s.ram);
    }
  }

  /** mmap onto any pages, covered or not: areas and tables agree afterwards if and only if the call is
      not one of the two kinds that break the agreement. */
  lemma MmapAgreesIff(s: Vm, root: nat, c: Call)
    requires c.Mmap? && VmOk(s, root)
    ensures s.m.pool.last <= |s.m.pool.used|
    ensures BaseOk(MmapStep(s, root, c).0, root)
    ensures VmOk(MmapStep(s, root, c).0, root) <==> KeepsAgreement(s, root, c)
  {
    hide BaseOk, PageWise, PagesAgree, Flat, MmapStep, Span, FromProt, Inserted, PageSet, Reaches, NoneOverwritten,
      PlanOf, TailLoss;
    MmapParts(s, root, c);
    var s' := MmapStep(s, root, c).0;
    var p := PlanOf(s, c);
    if p.Place? {
      var page := p.vaddr / PAGE_SIZE;
      if Reaches(s.m, root, page, p.pages, c.faults) {
        var frames :|
          && |frames| == p.pages && Flat(s'.m, root) == Flat(s.m, root) + Span(page, frames, FromProt(c.prot))
          && s'.vmas == Inserted(s.vmas, page * PAGE_SIZE, (page + p.pages) * PAGE_SIZE, Attr(c.prot, c.flags));
        BaseCanonical(s, root);
        InsertedAgree(Flat(s.m, root), s.vmas, page, frames, Attr(c.prot, c.flags));
      } else {
        var n :| Flat(s'.m, root) == Flat(s.m, root) - PageSet(page, n)
                 && (Flat(s'.m, root) == Flat(s.m, root) <==> NoneOverwritten(s.m, root, page, p.pages, c.faults));
        FlatBelow(s.m, root);
        UnmappedAgree(Flat(s.m, root), s.vmas, PageSet(page, n));
      }
    }
  }

  lemma BaseCanonical(s: Vm, root: nat)
    requires BaseOk(s, root)
    ensures Canonical(s.vmas) && SpaceOk(s.m, root) && s.m.pool.last <= |s.m.pool.used| && s.next % PAGE_SIZE == 0
  {
    hide Canonical, RamOk, Unshared, TablesOk, Backed;
  }

  lemma UserFlags(prot: bv32)
    ensures FromProt(prot).user
  {
  }

  lemma InsertedAgree(flat: map<nat, Pte>, vs: seq<Area>, page: nat, frames: seq<nat>, attr: Attr)
    requires Canonical(vs) && PageWise(vs) && PagesAgree(flat, vs) && |frames| > 0 && page + |frames| <= USER_PAGES
    ensures var lo, hi := page * PAGE_SIZE, (page + |frames|) * PAGE_SIZE; var vs' := Inserted(vs, lo, hi, attr);
            PageWise(vs') && PagesAgree(flat + Span(page, frames, FromProt(attr.prot)), vs') <==>
              !TailLoss(vs, lo, hi, attr)
  {
    hide Canonical, PageWise, PagesAgree, At, Repaged, Inserted, TailLoss, Span, FromProt;
    var lo, hi := page * PAGE_SIZE, (page + |frames|) * PAGE_SIZE;
    if TailLoss(vs, lo, hi, attr) {
      TailLossDisagrees(flat, vs, page, frames, attr);
    } else {
      var vs' := Inserted(vs, lo, hi, attr);
      InsertRepaged(vs, page, |frames|, attr);
      RepagedPageWise(vs, vs', page, |frames|, Always(attr));
      MappedAgree(flat, vs, vs', page, frames, attr);
    }
  }

  /** Pages that go missing under a list that stays break the agreement. */
  lemma UnmappedAgree(flat: map<nat, Pte>, vs: seq<Area>, gone: set<nat>)
    requires PagesAgree(flat, vs) && forall q :: q in flat ==> q < USER_PAGES
    ensures PagesAgree(flat - gone, vs) <==> flat - gone == flat
  {
    hide PageAttr, FromProt;
    if flat - gone != flat {
      var q :| q in flat && q in gone;
      assert PageAgrees(flat, PageAttr(vs, q), q);
      assert !PageAgrees(flat - gone, PageAttr(vs, q), q);
    }
  }

  lemma MunmapAgrees(s: Vm, root: nat, c: Call)
    requires c.Munmap? && VmOk(s, root)
    ensures VmOk(MunmapStep(s, root, c).0, root) && Conserved(s.m, MunmapStep(s, root, c).0.m, root)
  {
    hide SpaceOk, Canonical, PageWise, PagesAgree, Flat, Conserved, Pages, UnmapRange, RamOk, At, AfterRemove, Repaged,
      PageSet, Removed;
    if InUserSpace(c.addr, c.length) {
      var s' := MunmapStep(s, root, c).0;
      var page, n := c.addr / PAGE_SIZE, Pages(c.length);
      SomePages(c.length);
      AlignedRange(c.addr, n);
      UserPages(c.addr, n);
      UnmapRangeOk(s.m, root, page, n);
      ConservedTotal(s.m, s'.m, root);
      RemovedOk(s.vmas, c.addr, c.addr + n * PAGE_SIZE);
      RemoveRepaged(s.vmas, s'.vmas, page, n);
      RepagedPageWise(s.vmas, s'.vmas, page, n, Never());
      RemovedAgree(Flat(s.m, root), s.vmas, s'.vmas, page, n);
    } else {
      ConservedReflexive(s.m, root);
    }
  }

  lemma SomePages(length: nat)
    requires length > 0
    ensures Pages(length) > 0
  {
  }

  lemma MprotectAgrees(s: Vm, root: nat, c: Call)
    requires c.Mprotect? && VmOk(s, root)
    ensures VmOk(MprotectStep(s, root, c).0, root) && MprotectStep(s, root, c).0.m.pool == s.m.pool
  {
    hide SpaceOk, Canonical, PageWise, PagesAgree, Flat, Pages, SetRange, RamOk, At, AfterProtect, Repaged, Recolored,
      Covered, FromProt, Protected;
    if MprotectStep(s, root, c).1.Ok? {
      var s' := MprotectStep(s, root, c).0;
      var page, n := c.addr / PAGE_SIZE, Pages(c.length);
      SomePages(c.length);
      AlignedRange(c.addr, n);
      UserPages(c.addr, n);
      SetRangeOk(s.m, root, page, n, FromProt(c.prot));
      ProtectedOk(s.vmas, c.addr, c.addr + n * PAGE_SIZE, c.prot);
      ProtectRepaged(s.vmas, s'.vmas, page, n, c.prot);
      RepagedPageWise(s.vmas, s'.vmas, page, n, Reprotect(c.prot));
      RecoloredAgree(Flat(s.m, root), s.vmas, s'.vmas, page, n, c.prot);
    }
  }

  // ----- what each call does -----

  /** munmap of an aligned, non-empty range in user space returns 0, takes exactly its pages out of the
      page map and its addresses out of the areas, and keeps contents and bump pointer. Any other range
      is refused with EINVAL and nothing changes. */
  lemma MunmapEffect(s: Vm, root: nat, addr: nat, length: nat)
    requires BaseOk(s, root)
    ensures s.m.pool.last <= |s.m.pool.used|
    ensures var r := VmStep(s, root, Munmap(addr, length)); var end := addr + Pages(length) * PAGE_SIZE;
            if addr % PAGE_SIZE == 0 && length > 0 && end <= USER_SPACE_END then
              && r.1 == Ok(0) && r.0.ram == s.ram && r.0.next == s.next
              && Flat(r.0.m, root) == Flat(s.m, root) - PageSet(addr / PAGE_SIZE, Pages(length))
              && (forall a: nat :: At(r.0.vmas, a) == if addr <= a < end then None else At(s.vmas, a))
            else r == (s, Err(EINVAL))
  {
    hide SpaceOk, Canonical, Flat, Conserved, Pages, UnmapRange, RamOk, At, PageSet, Removed;
    BaseCanonical(s, root);
    RoomFor(length);
    if InUserSpace(addr, length) {
      SomePages(length);
      UserPages(addr, Pages(length));
      UnmapRangeOk(s.m, root, addr / PAGE_SIZE, Pages(length));
      RemovedOk(s.vmas, addr, addr + Pages(length) * PAGE_SIZE);
    }
  }

  /** mprotect of an aligned, non-empty, covered range returns 0, gives the present pages of the range the
      flags of the protection on their old frames and every address of the range the protection, keeping
      its flags, and keeps allocator, contents and bump pointer. An address that is not aligned or an
      empty range is refused with EINVAL, a range not covered or not in user space with ENOMEM, and then
      nothing changes. */
  lemma MprotectEffect(s: Vm, root: nat, addr: nat, length: nat, prot: bv32)
    requires BaseOk(s, root)
    ensures s.m.pool.last <= |s.m.pool.used|
    ensures var r := VmStep(s, root, Mprotect(addr, length, prot)); var end := addr + Pages(length) * PAGE_SIZE;
            var page, n := addr / PAGE_SIZE, Pages(length);
            if addr % PAGE_SIZE != 0 || length == 0 then r == (s, Err(EINVAL))
            else if end > USER_SPACE_END
              || (exists a: nat :: addr <= a < end && At(s.vmas, a).None?) then r == (s, Err(ENOMEM))
            else
              && r.1 == Ok(0) && r.0.ram == s.ram && r.0.next == s.next && r.0.m.pool == s.m.pool
              && Flat(r.0.m, root) == Recolored(Flat(s.m, root), page, n, FromProt(prot))
              && (forall a: nat :: At(r.0.vmas, a) ==
                    if addr <= a < end then Some(At(s.vmas, a).value.(prot := prot)) else At(s.vmas, a))
  {
    hide SpaceOk, Canonical, Flat, Pages, SetRange, RamOk, At, Recolored, FromProt, Protected;
    BaseCanonical(s, root);
    RoomFor(length);
    var end := addr + Pages(length) * PAGE_SIZE;
    if !BadRequest(addr, length) && InUserSpace(addr, length) && Covered(s.vmas, addr, end) {
      SomePages(length);
      UserPages(addr, Pages(length));
      SetRangeOk(s.m, root, addr / PAGE_SIZE, Pages(length), FromProt(prot));
      ProtectedOk(s.vmas, addr, end, prot);
    }
  }

  /** mmap succeeds exactly if the request is not empty, ends below the user limit, has no more pages than
      there are frames, and its loop reaches its end. Then it returns the base address and every page of
      the range is present with the flags of the protection, no other page changes, and the areas are as
      after insertion. Otherwise the errno is EINVAL for an empty request and else ENOMEM, and areas and
      bump pointer are kept. */
  lemma MmapCallEffect(s: Vm, root: nat, c: Call)
    requires c.Mmap? && BaseOk(s, root)
    ensures s.m.pool.last <= |s.m.pool.used|
    ensures var r := VmStep(s, root, c); var flat, flat' := Flat(s.m, root), Flat(r.0.m, root);
            var base, n := BaseOf(c.addr, s.next), Pages(c.length);
              var page, end := base / PAGE_SIZE, base + n * PAGE_SIZE;
            && (r.1.Ok? <==>
                  && c.length > 0 && n <= s.m.pool.free && end <= USER_SPACE_END
                  && Reaches(s.m, root, page, n, c.faults))
            && (r.1.Err? ==>
                  r.1.errno == (if c.length == 0 then EINVAL else ENOMEM) && r.0.vmas == s.vmas && r.0.next == s.next)
            && (r.1.Ok? ==>
                  && r.1.value == base && r.0.next == (if c.addr == 0 then end else s.next)
                  && (forall q: nat :: InRange(q, page, n) ==>
                        q in flat' && flat'[q] == LeafEntry(flat'[q].frame, FromProt(c.prot)))
                  && (forall q: nat :: !InRange(q, page, n) ==>
                        (q in flat' <==> q in flat) && (q in flat ==> flat'[q] == flat[q]))
                  && (forall a: nat :: At(r.0.vmas, a) == AfterInsert(s.vmas, base, end, Attr(c.prot, c.flags), a)))
  {
    hide SpaceOk, Canonical, Flat, MmapAllocate, PlanFor, Pages, FromProt, Zeroed, RamOk, FreeSet, Inserted, At,
      AfterInsert, LostExactly, OldFrames, Reaches, BaseOf, Span, PageSet;
    BaseCanonical(s, root);
    UserFlags(c.prot);
    PlanFits(c.addr, c.length, s.m.pool.free, s.next);
    PlacedIff(c.addr, c.length, s.m.pool.free, s.next);
    MmapEffect(s.m, root, c.addr, c.length, FromProt(c.prot), s.next, c.faults);
    var p := PlanOf(s, c);
    if p.Place? {
      MmapReaches(s.m, root, c.addr, c.length, FromProt(c.prot), s.next, c.faults, p.pages);
      InsertedOk(s.vmas, p.vaddr, p.vaddr + p.pages * PAGE_SIZE, Attr(c.prot, c.flags));
      var o := MmapAllocate(s.m, root, c.addr, c.length, FromProt(c.prot), s.next, c.faults);
      SpanPages(Flat(s.m, root), p.vaddr / PAGE_SIZE, o.frames, FromProt(c.prot));
    }
  }

  lemma SpanPages(flat: map<nat, Pte>, page: nat, frames: seq<nat>, flags: PageFlags)
    ensures var flat' := flat + Span(page, frames, flags); var n := |frames|;
            && (forall q: nat :: InRange(q, page, n) ==> q in flat' && flat'[q] == LeafEntry(flat'[q].frame, flags))
            && (forall q: nat :: !InRange(q, page, n) ==>
               (q in flat' <==> q in flat) && (q in flat ==> flat'[q] == flat[q]))
  {
  }

  /** munmap undoes mmap: mapping a range none of whose pages was mapped or covered, and unmapping it
      again, gives the same page map and the same list of areas, and loses no frame. */
  lemma MunmapUndoesMmap(s: Vm, root: nat, c: Call)
    requires c.Mmap? && VmOk(s, root)
    requires forall a: nat :: BaseOf(c.addr, s.next) <= a < BaseOf(c.addr, s.next) + Pages(c.length) * PAGE_SIZE ==>
               At(s.vmas, a) == None
    ensures s.m.pool.last <= |s.m.pool.used|
    ensures var r := VmStep(s, root, c);
            r.1.Ok? ==>
              && r.0.m.pool.last <= |r.0.m.pool.used|
              && var u := VmStep(r.0, root, Munmap(r.1.value, c.length));
              && u.1 == Ok(0) && Flat(u.0.m, root) == Flat(s.m, root) && u.0.vmas == s.vmas
              && Conserved(s.m, u.0.m, root)
  {
    hide SpaceOk, PageWise, PagesAgree, Canonical, Flat, MmapStep, MunmapStep, Pages, RamOk, At, Conserved, Reaches,
      NoneOverwritten, BaseOf, AfterInsert, BaseOk, PageSet;
    BaseCanonical(s, root);
    var r := VmStep(s, root, c);
    if r.1.Ok? {
      var base, n := r.1.value, Pages(c.length);
      MmapCallEffect(s, root, c);
      SomePages(c.length);
      BaseAligned(c.addr, s.next);
      UserPages(base, n);
      NothingThere(s, root, base, n);
      MmapParts(s, root, c);
      BaseCanonical(r.0, root);
      MunmapEffect(r.0, root, base, c.length);
      UndoConserves(s, root, c, Munmap(base, c.length));
      var u := VmStep(r.0, root, Munmap(base, c.length));
      BackToMap(Flat(s.m, root), Flat(r.0.m, root), base / PAGE_SIZE, n);
      BackToList(s.vmas, r.0.vmas, u.0.vmas, base, base + n * PAGE_SIZE, Attr(c.prot, c.flags));
      RemovedCanonical(r.0, root, Munmap(base, c.length));
      CanonicalUnique(u.0.vmas, s.vmas);
    }
  }

  lemma UndoConserves(s: Vm, root: nat, c: Call, u: Call)
    requires c.Mmap? && u.Munmap? && BaseOk(s, root) && s.m.pool.last <= |s.m.pool.used|
    requires RangeFree(s.m, root, BaseOf(c.addr, s.next) / PAGE_SIZE, Pages(c.length))
    ensures var s' := MmapStep(s, root, c).0; BaseOk(s', root) && Conserved(s.m, MunmapStep(s', root, u).0.m, root)
  {
    hide BaseOk, Flat, MmapStep, MunmapStep, Pages, Conserved, BaseOf, RangeFree, SpaceOk;
    var s' := MmapStep(s, root, c).0;
    MmapConserves(s, root, c);
    MmapParts(s, root, c);
    BaseCanonical(s', root);
    MunmapConserves(s', root, u);
    ConservedTransitive(s.m, s'.m, MunmapStep(s', root, u).0.m, root);
  }

  lemma BaseAligned(addr: nat, next: nat)
    requires next % PAGE_SIZE == 0
    ensures BaseOf(addr, next) % PAGE_SIZE == 0
  {
  }

  lemma RemovedCanonical(s: Vm, root: nat, c: Call)
    requires c.Munmap? && BaseOk(s, root)
    ensures Canonical(MunmapStep(s, root, c).0.vmas)
  {
    hide SpaceOk, Canonical, Pages, UnmapRange, RamOk, Removed;
    if InUserSpace(c.addr, c.length) {
      RemovedOk(s.vmas, c.addr, c.addr + Pages(c.length) * PAGE_SIZE);
    }
  }

  lemma MunmapConserves(s: Vm, root: nat, c: Call)
    requires c.Munmap? && BaseOk(s, root)
    ensures Conserved(s.m, MunmapStep(s, root, c).0.m, root)
  {
    hide SpaceOk, Canonical, Flat, Conserved, Pages, UnmapRange, RamOk, PageSet, Removed;
    if InUserSpace(c.addr, c.length) {
      UserPages(c.addr, Pages(c.length));
      UnmapRangeOk(s.m, root, c.addr / PAGE_SIZE, Pages(c.length));
    } else {
      ConservedReflexive(s.m, root);
    }
  }

  /** Pages of a range without areas are not mapped. */
  lemma NothingThere(s: Vm, root: nat, base: nat, n: nat)
    requires VmOk(s, root) && base % PAGE_SIZE == 0 && base / PAGE_SIZE + n <= USER_PAGES
    requires forall a: nat :: base <= a < base + n * PAGE_SIZE ==> At(s.vmas, a) == None
    ensures RangeFree(s.m, root, base / PAGE_SIZE, n)
  {
    hide BaseOk, Flat, At, PageWise;
    forall q: nat | InRange(q, base / PAGE_SIZE, n)
      ensures q !in Flat(s.m, root)
    {
      assert base <= q * PAGE_SIZE < base + n * PAGE_SIZE;
      assert PageAgrees(Flat(s.m, root), PageAttr(s.vmas, q), q);
    }
  }

  lemma MmapConserves(s: Vm, root: nat, c: Call)
    requires c.Mmap? && BaseOk(s, root) && s.m.pool.last <= |s.m.pool.used|
    requires RangeFree(s.m, root, BaseOf(c.addr, s.next) / PAGE_SIZE, Pages(c.length))
    ensures Conserved(s.m, MmapStep(s, root, c).0.m, root)
  {
    hide SpaceOk, Canonical, Flat, MmapAllocate, PlanFor, Pages, FromProt, Zeroed, RamOk, Conserved, AreaStep, BaseOf,
      Reaches;
    UserFlags(c.prot);
    PlacedIff(c.addr, c.length, s.m.pool.free, s.next);
    PlanFits(c.addr, c.length, s.m.pool.free, s.next);
    if PlanOf(s, c).Place? {
      MmapAllOrNothing(s.m, root, c.addr, c.length, FromProt(c.prot), s.next, c.faults);
    } else {
      MmapEffect(s.m, root, c.addr, c.length, FromProt(c.prot), s.next, c.faults);
      ConservedReflexive(s.m, root);
    }
  }

  lemma BackToMap(flat: map<nat, Pte>, flat': map<nat, Pte>, page: nat, n: nat)
    requires forall q: nat :: InRange(q, page, n) ==> q !in flat
    requires forall q: nat :: !InRange(q, page, n) ==>
      (q in flat' <==> q in flat) && (q in flat ==> flat'[q] == flat[q])
    ensures flat' - PageSet(page, n) == flat
  {
  }

  lemma BackToList(vs: seq<Area>, vs1: seq<Area>, vs2: seq<Area>, lo: nat, hi: nat, attr: Attr)
    requires Canonical(vs) && lo < hi && forall a: nat :: lo <= a < hi ==> At(vs, a) == None
    requires forall a: nat :: At(vs1, a) == AfterInsert(vs, lo, hi, attr, a)
    requires forall a: nat :: At(vs2, a) == if lo <= a < hi then None else At(vs1, a)
    ensures SameMap(vs2, vs)
  {
    hide At, Canonical, DiffersIn;
    NoneDiffers(vs, lo, hi, attr);
  }

  lemma NoneDiffers(vs: seq<Area>, lo: nat, hi: nat, attr: Attr)
    requires Canonical(vs) && lo < hi && forall a: nat :: lo <= a < hi ==> At(vs, a) == None
    ensures !DiffersIn(vs, lo, hi, attr)
  {
    hide At;
    forall i | 0 <= i < |vs|
      ensures !vs[i].Overlaps(lo, hi)
    {
      if vs[i].start < hi && lo < vs[i].end {
        AtIndex(vs, i, if vs[i].start > lo then vs[i].start else lo);
      }
    }
  }

  // ----- runs -----

  ghost predicate Run(h: seq<Vm>, root: nat, calls: seq<Call>) {
    && |h| == |calls| + 1
    && forall i :: 0 <= i < |calls| ==>
      h[i].m.pool.last <= |h[i].m.pool.used| && h[i + 1] == VmStep(h[i], root, calls[i]).0
  }

  lemma StepAgreesIff(s: Vm, root: nat, c: Call)
    requires VmOk(s, root)
    ensures s.m.pool.last <= |s.m.pool.used|
    ensures VmOk(VmStep(s, root, c).0, root) <==> KeepsAgreement(s, root, c)
  {
    hide VmOk, MmapStep, MunmapStep, MprotectStep;
    VmCursor(s, root);
    match c
    case Mmap(_, _, _, _, _) => MmapAgreesIff(s, root, c);
    case Munmap(_, _) => MunmapAgrees(s, root, c);
    case Mprotect(_, _, _) => MprotectAgrees(s, root, c);
  }

  lemma VmCursor(s: Vm, root: nat)
    requires VmOk(s, root)
    ensures s.m.pool.last <= |s.m.pool.used|
  {
    hide PageWise, PagesAgree, BaseOk;
    BaseCanonical(s, root);
  }

  /** Area list and page tables agree in every state of a run up to the `n`-th if and only if none of
      the calls before it is of the kinds that break the agreement. */
  lemma {:induction false} RunAgreesIff(h: seq<Vm>, root: nat, calls: seq<Call>, n: nat)
    requires Run(h, root, calls) && VmOk(h[0], root) && n <= |calls|
    ensures (forall k :: 0 <= k <= n ==> VmOk(h[k], root)) <==>
      forall i :: 0 <= i < n ==> KeepsAgreement(h[i], root, calls[i])
  {
    hide VmOk, VmStep, KeepsAgreement;
    if n > 0 {
      RunAgreesIff(h, root, calls, n - 1);
      if forall k :: 0 <= k <= n - 1 ==> VmOk(h[k], root) {
        StepAgreesIff(h[n - 1], root, calls[n - 1]);
        assert h[n] == VmStep(h[n - 1], root, calls[n - 1]).0;
      } else {
        var i :| 0 <= i < n - 1 && !KeepsAgreement(h[i], root, calls[i]);
      }
    }
  }

  // ----- access checks -----

  ghost predicate Writable(vs: seq<Area>, lo: nat, hi: nat) {
    forall a: nat :: lo <= a < hi && At(vs, a).Some? ==> At(vs, a).value.prot & PROT_WRITE != 0
  }

  /** Over agreeing tables the access check grants exactly the covered ranges, and for writes those
      that are write-protected nowhere. A range with no access bits at all is readable all the same. */
  lemma GrantedIffCovered(m: Mm, root: nat, vs: seq<Area>, addr: nat, len: nat, write: bool)
    requires Agree(m, root, vs) && len > 0 && addr + len <= USER_SPACE_END
    ensures RangeAccess(Flat(m, root), addr / PAGE_SIZE, PagesTouched(addr, len), write) == Granted
         <==> Covered(vs, addr, addr + len) && (write ==> Writable(vs, addr, addr + len))
  {
    hide SpaceOk, Canonical, Flat, PagesTouched, At, PageAccess, RangeAccess;
    var page, n := addr / PAGE_SIZE, PagesTouched(addr, len);
    RangeGrantedIff(Flat(m, root), page, n, write);
    if forall q :: InRange(q, page, n) ==> PageAccess(Flat(m, root), q, write) == Granted {
      forall a: nat | addr <= a < addr + len
        ensures At(vs, a).Some? && (write ==> At(vs, a).value.prot & PROT_WRITE != 0)
      {
        TouchedAddress(addr, len, a);
        PageGranted(Flat(m, root), vs, a, write);
      }
    }
    if Covered(vs, addr, addr + len) && (write ==> Writable(vs, addr, addr + len)) {
      forall q | InRange(q, page, n)
        ensures PageAccess(Flat(m, root), q, write) == Granted
      {
        var a := AddressTouched(addr, len, q);
        PageGranted(Flat(m, root), vs, a, write);
      }
    }
  }

  /** The first address the check stops at: not covered, or for a write covered without PROT_WRITE. */
  ghost predicate StopsAt(vs: seq<Area>, addr: nat, len: nat, write: bool, a: nat) {
    && addr <= a < addr + len && Covered(vs, addr, a) && (write ==> Writable(vs, addr, a))
  }

  /** Why an access is refused: NotMapped exactly if the first address that is not allowed is not covered,
      and NotWritable exactly if it is covered but may not be written. */
  lemma RefusedIff(m: Mm, root: nat, vs: seq<Area>, addr: nat, len: nat, write: bool)
    requires Agree(m, root, vs) && len > 0 && addr + len <= USER_SPACE_END
    ensures var r := RangeAccess(Flat(m, root), addr / PAGE_SIZE, PagesTouched(addr, len), write);
            && (r == NotMapped <==> exists a: nat :: StopsAt(vs, addr, len, write, a) && At(vs, a).None?)
            && (r == NotWritable <==>
                  exists a: nat :: StopsAt(vs, addr, len, write, a) && write && At(vs, a).Some?
                    && At(vs, a).value.prot & 2 == 0)
  {
    hide SpaceOk, Canonical, Flat, PagesTouched, At, PageAccess, RangeAccess, PagesAgree, PageWise, StopsAt;
    var flat, page, n := Flat(m, root), addr / PAGE_SIZE, PagesTouched(addr, len);
    var r := RangeAccess(flat, page, n, write);
    if r != Granted {
      var q := FirstRefused(flat, page, n, write);
      var a := StopAddress(m, root, vs, addr, len, write, q);
      PageVerdict(flat, vs, a, write);
    }
    forall a: nat | StopsAt(vs, addr, len, write, a) && (At(vs, a).None? || (write && At(vs, a).value.prot & 2 == 0))
      ensures r == if At(vs, a).None? then NotMapped else NotWritable
    {
      StopVerdict(m, root, vs, addr, len, write, a);
    }
  }

  lemma PageVerdict(flat: map<nat, Pte>, vs: seq<Area>, a: nat, write: bool)
    requires PagesAgree(flat, vs) && PageWise(vs) && a < USER_SPACE_END
    ensures PageAccess(flat, a / PAGE_SIZE, write) ==
            if At(vs, a).None? then NotMapped
            else if write && At(vs, a).value.prot & 2 == 0 then NotWritable
            else Granted
  {
    hide At;
    assert At(vs, a) == PageAttr(vs, a / PAGE_SIZE);
    assert PageAgrees(flat, PageAttr(vs, a / PAGE_SIZE), a / PAGE_SIZE);
  }

  /** The first address of the range on the first refused page. */
  lemma StopAddress(m: Mm, root: nat, vs: seq<Area>, addr: nat, len: nat, write: bool, q: nat) returns (a: nat)
    requires Agree(m, root, vs) && len > 0 && addr + len <= USER_SPACE_END
    requires InRange(q, addr / PAGE_SIZE, PagesTouched(addr, len))
    requires forall x :: InRange(x, addr / PAGE_SIZE, q - addr / PAGE_SIZE) ==>
      PageAccess(Flat(m, root), x, write) == Granted
    ensures a / PAGE_SIZE == q && a < USER_SPACE_END && StopsAt(vs, addr, len, write, a)
  {
    hide SpaceOk, Canonical, Flat, PagesTouched, At, PageAccess, PagesAgree, PageWise;
    a := if q == addr / PAGE_SIZE then addr else q * PAGE_SIZE;
    AddressInside(addr, len, q);
    forall b: nat | addr <= b < a
      ensures At(vs, b).Some? && (write ==> At(vs, b).value.prot & PROT_WRITE != 0)
    {
      assert InRange(b / PAGE_SIZE, addr / PAGE_SIZE, q - addr / PAGE_SIZE);
      PageVerdict(Flat(m, root), vs, b, write);
    }
  }

  lemma AddressInside(addr: nat, len: nat, q: nat)
    requires len > 0 && InRange(q, addr / PAGE_SIZE, PagesTouched(addr, len))
    ensures var a := if q == addr / PAGE_SIZE then addr else q * PAGE_SIZE; addr <= a < addr + len && a / PAGE_SIZE == q
  {
  }

  lemma StopVerdict(m: Mm, root: nat, vs: seq<Area>, addr: nat, len: nat, write: bool, a: nat)
    requires Agree(m, root, vs) && len > 0 && addr + len <= USER_SPACE_END && StopsAt(vs, addr, len, write, a)
    requires At(vs, a).None? || (write && At(vs, a).value.prot & 2 == 0)
    ensures RangeAccess(Flat(m, root), addr / PAGE_SIZE, PagesTouched(addr, len), write)
         == if At(vs, a).None? then NotMapped else NotWritable
  {
    hide SpaceOk, Canonical, Flat, PagesTouched, At, PageAccess, RangeAccess, PagesAgree, PageWise;
    var flat, page, n, q := Flat(m, root), addr / PAGE_SIZE, PagesTouched(addr, len), a / PAGE_SIZE;
    TouchedAddress(addr, len, a);
    PageVerdict(flat, vs, a, write);
    forall x: nat | InRange(x, page, q - page)
      ensures PageAccess(flat, x, write) == Granted
    {
      var b := if x == page then addr else x * PAGE_SIZE;
      assert addr <= b < a && b / PAGE_SIZE == x;
      PageVerdict(flat, vs, b, write);
    }
    RefusedHere(flat, page, n, write, q);
  }

  lemma PageGranted(flat: map<nat, Pte>, vs: seq<Area>, a: nat, write: bool)
    requires PagesAgree(flat, vs) && PageWise(vs) && a < USER_SPACE_END
    ensures PageAccess(flat, a / PAGE_SIZE, write) == Granted <==>
      At(vs, a).Some? && (write ==> At(vs, a).value.prot & PROT_WRITE != 0)
  {
    hide At;
    assert At(vs, a) == PageAttr(vs, a / PAGE_SIZE);
    assert PageAgrees(flat, PageAttr(vs, a / PAGE_SIZE), a / PAGE_SIZE);
  }

  lemma TouchedAddress(addr: nat, len: nat, a: nat)
    requires len > 0 && addr <= a < addr + len
    ensures InRange(a / PAGE_SIZE, addr / PAGE_SIZE, PagesTouched(addr, len))
  {
  }

  lemma AddressTouched(addr: nat, len: nat, q: nat) returns (a: nat)
    requires len > 0 && InRange(q, addr / PAGE_SIZE, PagesTouched(addr, len))
    ensures addr <= a < addr + len && a / PAGE_SIZE == q
  {
    a := if q == addr / PAGE_SIZE then addr else q * PAGE_SIZE;
  }

  // ----- contents -----

  /** After a successful mmap, onto any pages, its range reads as zeros, and every byte mapped outside
      it reads as before. */
  lemma MmapZeroFilled(s: Vm, root: nat, c: Call, a: nat)
    requires c.Mmap? && BaseOk(s, root)
    ensures s.m.pool.last <= |s.m.pool.used|
    ensures var r := MmapStep(s, root, c); var flat := Flat(s.m, root); var flat' := Flat(r.0.m, root);
            r.1.Ok? ==>
              if r.1.value <= a < r.1.value + Pages(c.length) * PAGE_SIZE then ByteAt(r.0.ram, flat', a) == Some(0)
              else ByteAt(r.0.ram, flat', a) == ByteAt(s.ram, flat, a)
  {
    hide SpaceOk, Canonical, MmapAllocate, PlanFor, Pages, FromProt, Flat, ByteAt, Zeroed, Span, RamOk, FreeSet,
      AreaStep, LostExactly, OldFrames;
    CursorOk(s.m, root);
    UserFlags(c.prot);
    PlanFits(c.addr, c.length, s.m.pool.free, s.next);
    MmapEffect(s.m, root, c.addr, c.length, FromProt(c.prot), s.next, c.faults);
    var o := MmapAllocate(s.m, root, c.addr, c.length, FromProt(c.prot), s.next, c.faults);
    if o.result.Ok? {
      var p := PlanOf(s, c);
      var page := p.vaddr / PAGE_SIZE;
      AlignedRange(p.vaddr, p.pages);
      InPages(page, p.pages, a);
      if a / PAGE_SIZE in Flat(s.m, root) {
        UsedNotFree(s.m, root, a / PAGE_SIZE);
      }
      ZeroedSpan(s.m, s.ram, Flat(s.m, root), page, o.frames, FromProt(c.prot), a);
    }
  }

  lemma ZeroedSpan(m: Mm, ram: Ram, flat: map<nat, Pte>, page: nat, frames: seq<nat>, flags: PageFlags, a: nat)
    requires RamOk(ram, |m.pool.used|) && forall i :: 0 <= i < |frames| ==> frames[i] in FreeSet(m.pool)
    requires a / PAGE_SIZE in flat ==> flat[a / PAGE_SIZE].frame !in FreeSet(m.pool)
    ensures ByteAt(Zeroed(ram, frames), flat + Span(page, frames, flags), a)
         == if InRange(a / PAGE_SIZE, page, |frames|) then Some(0) else ByteAt(ram, flat, a)
  {
    hide Zeroed, FreeSet;
    var q := a / PAGE_SIZE;
    if InRange(q, page, |frames|) {
      FreshBelow(m, frames, q - page);
      ZeroedAt(ram, frames, frames[q - page]);
    } else if q in flat && flat[q].frame < |ram| {
      ZeroedAt(ram, frames, flat[q].frame);
    }
  }

  lemma UsedNotFree(m: Mm, root: nat, page: nat)
    requires SpaceOk(m, root) && page in Flat(m, root)
    ensures Flat(m, root)[page].frame !in FreeSet(m.pool)
  {
    hide Unshared, TablesOk;
    PageIndices(page);
    InFlat(m, root, page);
  }

  lemma FreshBelow(m: Mm, frames: seq<nat>, i: nat)
    requires i < |frames| && forall j :: 0 <= j < |frames| ==> frames[j] in FreeSet(m.pool)
    ensures frames[i] < |m.pool.used| && frames[i] in frames
  {
  }

  // ----- the calls in their own form -----

  class Process {
    const root: nat
    const mmu: Mmu
    var ram: Ram
    var vmas: seq<Area>
    var mmapNext: nat

    ghost predicate Valid()
      reads this, mmu
    {
      mmu.Valid() && Canonical(vmas)
    }

    ghost function Value(): (s: Vm)
      reads this, mmu
    {
      Vm(mmu.Value(), ram, vmas, mmapNext)
    }

    /** A process on a new address space: no areas yet. */
    constructor (mmu: Mmu, root: nat, ram: Ram, base: nat)
      requires mmu.Valid()
      ensures Valid() && this.mmu == mmu && this.root == root
      ensures Value() == Vm(mmu.Value(), ram, [], base)
    {
      this.mmu, this.root, this.ram, vmas, mmapNext := mmu, root, ram, [], base;
    }

    /** Unmaps pages one by one and frees their frames. */
    method UnmapPages(page: nat, n: nat)
      requires mmu.Valid()
      modifies mmu
      ensures mmu.Valid() && mmu.Value() == UnmapRange(old(mmu.Value()), root, page, n)
    {
      hide PteAt, Walk, Free, PtIndices;
      var i := 0;
      while i < n
        invariant 0 <= i <= n && mmu.Valid() && mmu.Value() == UnmapRange(old(mmu.Value()), root, page, i)
      {
        var f := mmu.UnmapPage(root, (page + i) * PAGE_SIZE);
        if f.Some? {
          mmu.FreeFrame(f.value);
        }
        i := i + 1;
      }
    }

    /** The allocator and mapper calls for one page; a frame that cannot be mapped goes back. */
    method MapFreshPage(page: nat, flags: PageFlags, fault: Fault) returns (r: Option<nat>)
      requires mmu.Valid()
      modifies mmu
      ensures mmu.Valid() && (mmu.Value(), r) == MapOne(old(mmu.Value()), root, page, flags, fault)
    {
      hide NextFit, Take, Free, PageMap.MapPage, PtIndices;
      if fault.AllocFault? {
        return None;
      }
      r := mmu.AllocFrame();
      if r.None? {
        return None;
      }
      var ok := false;
      if fault.NoFault? {
        ok := mmu.MapPage(root, page * PAGE_SIZE, r.value, flags);
      }
      if !ok {
        mmu.FreeFrame(r.value);
        r := None;
      }
    }

    /** Maps pages upwards, zeroing each frame, until all are done or one fails. */
    method MapPages(page: nat, n: nat, flags: PageFlags, faults: nat -> Fault)
        returns (done: nat, ghost frames: seq<nat>)
      requires mmu.Valid()
      modifies this`ram, mmu
      ensures mmu.Valid() && done == |frames| <= n && ram == Zeroed(old(ram), frames)
      ensures (mmu.Value(), frames) == MapRange(old(mmu.Value()), root, page, n, flags, faults)
    {
      hide MapOne, MapRange, Zeroed, ZeroPage;
      done, frames := 0, [];
      NoneZeroed(ram);
      NoneMapped(mmu.Value(), root, page, flags, faults);
      while done < n
        invariant 0 <= done <= n && mmu.Valid() && |frames| == done
        invariant (mmu.Value(), frames) == MapRange(old(mmu.Value()), root, page, done, flags, faults)
        invariant ram == Zeroed(old(ram), frames)
      {
        MapRangeNextPage(old(mmu.Value()), root, page, done, flags, faults);
        var f := MapFreshPage(page + done, flags, faults(done));
        if f.None? {
          MapRangeOver(old(mmu.Value()), root, page, done + 1, n, flags, faults);
          return;
        }
        ZeroedNext(old(ram), frames, f.value);
        frames := frames + [f.value];
        if f.value < |ram| {
          ram := ram[f.value := ZeroPage()];
        }
        done := done + 1;
      }
    }

    /** Places the request and maps its pages; any failure unmaps what was mapped and restores the
        bump pointer. */
    method MmapPages(addr: nat, length: nat, flags: PageFlags, faults: nat -> Fault) returns (r: Result<nat>)
      requires mmu.Valid()
      modifies this`ram, this`mmapNext, mmu
      ensures mmu.Valid()
      ensures var o := MmapAllocate(old(mmu.Value()), root, addr, length, flags, old(mmapNext), faults);
              mmu.Value() == o.m && mmapNext == o.next && r == o.result && ram == Zeroed(old(ram), o.frames)
    {
      hide MapRange, UnmapRange, PlanFor, Zeroed;
      NoneZeroed(ram);
      var plan := PlanFor(addr, length, USER_SPACE_END, mmu.pool.free, mmapNext);
      if plan.Refuse? {
        return Err(plan.errno);
      }
      var rollback := mmapNext;
      mmapNext := plan.next;
      var page := plan.vaddr / PAGE_SIZE;
      var done, frames := MapPages(page, plan.pages, flags, faults);
      if done < plan.pages {
        UnmapPages(page, done);
        mmapNext := rollback;
        return Err(ENOMEM);
      }
      r := Ok(plan.vaddr);
    }

    method SysMmap(addr: nat, length: nat, prot: bv32, flags: bv32, faults: nat -> Fault) returns (r: Result<nat>)
      requires Valid()
      modifies this, mmu
      ensures Valid() && (Value(), r) == VmStep(old(Value()), root, Mmap(addr, length, prot, flags, faults))
    {
      hide MmapAllocate, Canonical, At, AfterInsert, FromProt, Inserted, Zeroed, Pages;
      r := MmapPages(addr, length, FromProt(prot), faults);
      if r.Ok? {
        vmas := InsertArea(vmas, r.value, r.value + Pages(length) * PAGE_SIZE, Attr(prot, flags));
      }
    }

    method SysMunmap(addr: nat, length: nat) returns (r: Result<nat>)
      requires Valid()
      modifies this`vmas, mmu
      ensures Valid() && (Value(), r) == VmStep(old(Value()), root, Munmap(addr, length))
    {
      hide UnmapRange, Canonical, At, AfterRemove, Pages, Removed;
      if !InUserSpace(addr, length) {
        return Err(EINVAL);
      }
      UnmapPages(addr / PAGE_SIZE, Pages(length));
      vmas := RemoveRange(vmas, addr, addr + Pages(length) * PAGE_SIZE);
      r := Ok(0);
    }

    method SysMprotect(addr: nat, length: nat, prot: bv32) returns (r: Result<nat>)
      requires Valid()
      modifies this`vmas, mmu
      ensures Valid() && (Value(), r) == VmStep(old(Value()), root, Mprotect(addr, length, prot))
    {
      hide SetRange, Canonical, At, AfterProtect, FromProt, Protected, Pages, Sorted;
      if BadRequest(addr, length) {
        return Err(EINVAL);
      }
      if !InUserSpace(addr, length) {
        return Err(ENOMEM);
      }
      CanonicalSorted(vmas);
      var end := addr + Pages(length) * PAGE_SIZE;
      var covered := ContainsRange(vmas, addr, end);
      if !covered {
        SomePages(length);
        return Err(ENOMEM);
      }
      SetFlagsOfPages(addr / PAGE_SIZE, Pages(length), FromProt(prot));
      covered, vmas := ProtectRange(vmas, addr, end, prot);
      r := Ok(0);
    }

    /** The page loop of mprotect. */
    method SetFlagsOfPages(page: nat, n: nat, flags: PageFlags)
      requires mmu.Valid()
      modifies mmu
      ensures mmu.Valid() && mmu.Value() == SetRange(old(mmu.Value()), root, page, n, flags)
    {
      hide PteAt, Walk, PtIndices;
      var i := 0;
      while i < n
        invariant 0 <= i <= n && mmu.Valid() && mmu.Value() == SetRange(old(mmu.Value()), root, page, i, flags)
      {
        mmu.SetPageFlags(root, (page + i) * PAGE_SIZE, flags);
        i := i + 1;
      }
    }
  }

  lemma NoneMapped(m: Mm, root: nat, page: nat, flags: PageFlags, faults: nat -> Fault)
    requires m.pool.last <= |m.pool.used|
    ensures MapRange(m, root, page, 0, flags, faults) == (m, [])
  {
  }

  lemma MapRangeNextPage(m: Mm, root: nat, page: nat, n: nat, flags: PageFlags, faults: nat -> Fault)
    requires m.pool.last <= |m.pool.used|
    ensures var s := MapRange(m, root, page, n, flags, faults);
            |s.1| == n ==>
              var o := MapOne(s.0, root, page + n, flags, faults(n));
              MapRange(m, root, page, n + 1, flags, faults) == (o.0, if o.1.Some? then s.1 + [o.1.value] else s.1)
  {
    hide MapOne;
  }

  /** Once a page fails the loop is over. */
  lemma {:induction false} MapRangeOver(m: Mm, root: nat, page: nat, i: nat, n: nat, flags: PageFlags,
      faults: nat -> Fault)
    requires m.pool.last <= |m.pool.used| && i <= n && |MapRange(m, root, page, i, flags, faults).1| < i
    ensures MapRange(m, root, page, n, flags, faults) == MapRange(m, root, page, i, flags, faults)
  {
    hide MapOne;
    if i < n {
      MapRangeOver(m, root, page, i, n - 1, flags, faults);
    }
  }
}

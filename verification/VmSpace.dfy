/** A process's address space: its areas, its page tables and the calls that change both. The list
    of areas and the page tables agree over every run, so the page walk that guards user memory
    accesses accepts exactly the covered ranges. */
module VmSpace {
  import opened Common
  import opened Paging
  import PageMap
  import opened AddressSpace
  import opened Mmap
  import opened Vma

  const PROT_WRITE: bv32 := 2
  const PROT_EXEC: bv32 := 4

  function FromProt(prot: bv32): (f: PageFlags) {
    PageFlags(true, prot & PROT_WRITE != 0, true, prot & PROT_EXEC == 0)
  }

  // ----- agreement -----

  /** Page and area list say the same: present exactly when covered, with the area's protection. */
  ghost predicate PageAgrees(flat: map<nat, Pte>, attr: Option<Attr>, page: nat) {
    && (page in flat <==> attr.Some?)
    && (page in flat ==> flat[page] == PageMap.LeafEntry(flat[page].frame, FromProt(attr.value.prot)))
  }

  ghost function PageAttr(vs: seq<Area>, page: nat): (r: Option<Attr>) {
    At(vs, page * PAGE_SIZE)
  }

  ghost predicate PagesAgree(flat: map<nat, Pte>, vs: seq<Area>) {
    forall page: nat :: page < USER_PAGES ==> PageAgrees(flat, PageAttr(vs, page), page)
  }

  /** Attributes are constant on each page, and nothing is covered above user space. */
  ghost predicate PageWise(vs: seq<Area>) {
    && (forall a: nat :: At(vs, a) == PageAttr(vs, a / PAGE_SIZE))
    && (forall page: nat :: page >= USER_PAGES ==> PageAttr(vs, page) == None)
  }

  ghost predicate Agree(m: Mm, root: nat, vs: seq<Area>) {
    SpaceOk(m, root) && Canonical(vs) && PageWise(vs) && PagesAgree(Flat(m, root), vs)
  }

  /** What agreement says about a covered page, bit by bit: it is present and open to user mode, writable
      exactly with PROT_WRITE, executable exactly with PROT_EXEC, and no huge page. */
  lemma AgreedBits(flat: map<nat, Pte>, vs: seq<Area>, page: nat)
    requires PagesAgree(flat, vs) && page < USER_PAGES && At(vs, page * PAGE_SIZE).Some?
    ensures page in flat
    ensures var e, prot := flat[page], At(vs, page * PAGE_SIZE).value.prot;
            && e.flags.present && e.flags.user && !e.huge
            && (e.flags.writable <==> prot & 2 != 0) && (e.flags.noExec <==> prot & 4 == 0)
  {
    hide At;
    assert PageAgrees(flat, PageAttr(vs, page), page);
  }

  lemma InPages(page: nat, n: nat, a: nat)
    ensures page * PAGE_SIZE <= a < (page + n) * PAGE_SIZE <==> InRange(a / PAGE_SIZE, page, n)
  {
  }

  /** A change of the list that replaces whole pages by `f` keeps it page-wise. */
  ghost predicate Repaged(vs: seq<Area>, vs': seq<Area>, page: nat, n: nat, f: Option<Attr> -> Option<Attr>) {
    forall a: nat :: At(vs', a) == if page * PAGE_SIZE <= a < (page + n) * PAGE_SIZE then f(At(vs, a)) else At(vs, a)
  }

  lemma RepagedPage(vs: seq<Area>, vs': seq<Area>, page: nat, n: nat, f: Option<Attr> -> Option<Attr>, q: nat)
    requires Repaged(vs, vs', page, n, f)
    ensures PageAttr(vs', q) == if InRange(q, page, n) then f(PageAttr(vs, q)) else PageAttr(vs, q)
  {
    hide At;
    InPages(page, n, q * PAGE_SIZE);
  }

  lemma RepagedPageWise(vs: seq<Area>, vs': seq<Area>, page: nat, n: nat, f: Option<Attr> -> Option<Attr>)
    requires Repaged(vs, vs', page, n, f) && PageWise(vs) && page + n <= USER_PAGES
    ensures PageWise(vs')
  {
    hide At, PageAttr;
    forall a: nat
      ensures At(vs', a) == PageAttr(vs', a / PAGE_SIZE)
    {
      InPages(page, n, a);
      RepagedPage(vs, vs', page, n, f, a / PAGE_SIZE);
    }
    forall q: nat | q >= USER_PAGES
      ensures PageAttr(vs', q) == None
    {
      RepagedPage(vs, vs', page, n, f, q);
    }
  }

  // ----- mmap -----

  function Always(attr: Attr): (f: Option<Attr> -> Option<Attr>) {
    (x: Option<Attr>) => Some(attr)
  }

  /** Insertion without a lost tail replaces whole pages. */
  lemma InsertRepaged(vs: seq<Area>, page: nat, n: nat, attr: Attr)
    requires Canonical(vs) && n > 0 && !TailLoss(vs, page * PAGE_SIZE, (page + n) * PAGE_SIZE, attr)
    ensures Repaged(vs, Inserted(vs, page * PAGE_SIZE, (page + n) * PAGE_SIZE, attr), page, n, Always(attr))
  {
    hide At, AfterInsert, Canonical, Inserted, TailLoss;
    var lo, hi := page * PAGE_SIZE, (page + n) * PAGE_SIZE;
    InsertedOk(vs, lo, hi, attr);
    InsertExactIff(vs, lo, hi, attr);
    assert forall a: nat :: AfterInsert(vs, lo, hi, attr, a) == if lo <= a < hi then Some(attr) else At(vs, a);
  }

  /** A lost tail leaves a page present that no area covers. */
  lemma TailLossDisagrees(flat: map<nat, Pte>, vs: seq<Area>, page: nat, frames: seq<nat>, attr: Attr)
    requires Canonical(vs) && PageWise(vs) && PagesAgree(flat, vs) && |frames| > 0
    requires TailLoss(vs, page * PAGE_SIZE, (page + |frames|) * PAGE_SIZE, attr)
    ensures !PagesAgree(flat + Span(page, frames, FromProt(attr.prot)),
                        Inserted(vs, page * PAGE_SIZE, (page + |frames|) * PAGE_SIZE, attr))
  {
    hide At, Canonical, Inserted, DiffersIn, FromProt, PageWise;
    var q := page + |frames|;
    var lo, hi := page * PAGE_SIZE, q * PAGE_SIZE;
    var vs' := Inserted(vs, lo, hi, attr);
    var j :| 0 <= j < |vs| && vs[j].start < hi < vs[j].end && vs[j].attr == attr;
    InsertedOk(vs, lo, hi, attr);
    assert Straddles(vs, hi, attr, hi);
    assert PageAttr(vs', q) == None;
    CanonicalSorted(vs);
    AtIndex(vs, j, hi);
    CoveredBelow(vs, hi);
    assert PageAgrees(flat, PageAttr(vs, q), q);
    assert !PageAgrees(flat + Span(page, frames, FromProt(attr.prot)), PageAttr(vs', q), q);
  }

  lemma CoveredBelow(vs: seq<Area>, a: nat)
    requires PageWise(vs) && At(vs, a).Some?
    ensures a / PAGE_SIZE < USER_PAGES
  {
    hide At, PageAttr;
  }

  lemma MappedAgree(flat: map<nat, Pte>, vs: seq<Area>, vs': seq<Area>, page: nat, frames: seq<nat>, attr: Attr)
    requires PagesAgree(flat, vs) && Repaged(vs, vs', page, |frames|, Always(attr))
    ensures PagesAgree(flat + Span(page, frames, FromProt(attr.prot)), vs')
  {
    hide PageAttr, Repaged;
    forall q: nat | q < USER_PAGES
      ensures PageAgrees(flat + Span(page, frames, FromProt(attr.prot)), PageAttr(vs', q), q)
    {
      RepagedPage(vs, vs', page, |frames|, Always(attr), q);
      assert PageAgrees(flat, PageAttr(vs, q), q);
    }
  }

  // ----- munmap -----

  function Never(): (f: Option<Attr> -> Option<Attr>) {
    (x: Option<Attr>) => None
  }

  lemma RemoveRepaged(vs: seq<Area>, vs': seq<Area>, page: nat, n: nat)
    requires forall a: nat :: At(vs', a) == AfterRemove(vs, page * PAGE_SIZE, (page + n) * PAGE_SIZE, a)
    ensures Repaged(vs, vs', page, n, Never())
  {
    hide At;
  }

  lemma RemovedAgree(flat: map<nat, Pte>, vs: seq<Area>, vs': seq<Area>, page: nat, n: nat)
    requires PagesAgree(flat, vs) && Repaged(vs, vs', page, n, Never())
    ensures PagesAgree(flat - PageSet(page, n), vs')
  {
    hide PageAttr, Repaged;
    forall q: nat | q < USER_PAGES
      ensures PageAgrees(flat - PageSet(page, n), PageAttr(vs', q), q)
    {
      RepagedPage(vs, vs', page, n, Never(), q);
      assert PageAgrees(flat, PageAttr(vs, q), q);
    }
  }

  // ----- mprotect -----

  function Reprotect(prot: bv32): (f: Option<Attr> -> Option<Attr>) {
    (x: Option<Attr>) => if x.Some? then Some(x.value.(prot := prot)) else None
  }

  /** The page loop of mprotect: sets the flags of `n` pages from `page` up. */
  function SetRange(m: Mm, root: nat, page: nat, n: nat, flags: PageFlags): (r: Mm) {
    if n == 0 then m
      else PageMap.SetPageFlags(SetRange(m, root, page, n - 1, flags), root, Indices(page + n - 1), flags)
  }

  ghost function Recolored(flat: map<nat, Pte>, page: nat, n: nat, flags: PageFlags): (r: map<nat, Pte>) {
    map q | q in flat :: if InRange(q, page, n) then PageMap.LeafEntry(flat[q].frame, flags) else flat[q]
  }

  lemma RecolorStep(flat: map<nat, Pte>, page: nat, n: nat, flags: PageFlags)
    ensures Recolored(flat, page, 0, flags) == flat
    ensures var f := Recolored(flat, page, n, flags); var q := page + n;
            Recolored(flat, page, n + 1, flags) == if q in f then f[q := PageMap.LeafEntry(f[q].frame, flags)] else f
  {
  }

  /** Reprotecting pages changes the flags of the present ones and nothing else. */
  lemma {:induction false} SetRangeOk(m: Mm, root: nat, page: nat, n: nat, flags: PageFlags)
    requires SpaceOk(m, root) && page + n <= USER_PAGES
    ensures var m' := SetRange(m, root, page, n, flags);
            SpaceOk(m', root) && m'.pool == m.pool && Flat(m', root) == Recolored(Flat(m, root), page, n, flags)
  {
    hide SpaceOk, Flat, PageMap.SetPageFlags, Recolored, Indices;
    RecolorStep(Flat(m, root), page, if n == 0 then 0 else n - 1, flags);
    if n > 0 {
      SetRangeOk(m, root, page, n - 1, flags);
      SetFlagsFlat(SetRange(m, root, page, n - 1, flags), root, page + n - 1, flags);
    }
  }

  lemma ProtectRepaged(vs: seq<Area>, vs': seq<Area>, page: nat, n: nat, prot: bv32)
    requires forall a: nat :: At(vs', a) == AfterProtect(vs, page * PAGE_SIZE, (page + n) * PAGE_SIZE, prot, a)
    ensures Repaged(vs, vs', page, n, Reprotect(prot))
  {
    hide At;
  }

  lemma RecoloredAgree(flat: map<nat, Pte>, vs: seq<Area>, vs': seq<Area>, page: nat, n: nat, prot: bv32)
    requires PagesAgree(flat, vs) && Repaged(vs, vs', page, n, Reprotect(prot))
    ensures PagesAgree(Recolored(flat, page, n, FromProt(prot)), vs')
  {
    hide PageAttr, Repaged;
    forall q: nat | q < USER_PAGES
      ensures PageAgrees(Recolored(flat, page, n, FromProt(prot)), PageAttr(vs', q), q)
    {
      RepagedPage(vs, vs', page, n, Reprotect(prot), q);
      assert PageAgrees(flat, PageAttr(vs, q), q);
    }
  }
}

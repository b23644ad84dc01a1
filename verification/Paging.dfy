/** x86-64 four-level page tables held in physical frames, and their refinement of a flat map from
    pages to leaf entries (section 4.5 of volume 3A of the Intel SDM). */
module Paging {
  import opened Common
  import opened Pmm

  // ----- entry words -----

  datatype PageFlags = PageFlags(present: bool, writable: bool, user: bool, noExec: bool)

  const PAGE_PRESENT: bv64 := 1
  const PAGE_WRITABLE: bv64 := 2
  const PAGE_USER: bv64 := 4
  const PAGE_PS: bv64 := 0x80
  const PAGE_NX: bv64 := 0x8000_0000_0000_0000
  const PT_ADDR_MASK: bv64 := 0x000F_FFFF_FFFF_F000

  function FlagsToArch(f: PageFlags): (bits: bv64) {
    (if f.present then PAGE_PRESENT else 0) | (if f.writable then PAGE_WRITABLE else 0)
    | (if f.user then PAGE_USER else 0) | (if f.noExec then PAGE_NX else 0)
  }

  function FlagsFromArch(bits: bv64): (f: PageFlags) {
    PageFlags(bits & PAGE_PRESENT != 0, bits & PAGE_WRITABLE != 0, bits & PAGE_USER != 0, bits & PAGE_NX != 0)
  }

  lemma FlagBits(f: PageFlags)
    ensures FlagsToArch(f) & 0x8000_0000_0000_0007 == FlagsToArch(f)
    ensures FlagsFromArch(FlagsToArch(f)) == f && FlagsToArch(f) & PAGE_PS == 0
  {
  }

  lemma AddressUndisturbed(addr: bv64, bits: bv64)
    requires addr & PT_ADDR_MASK == addr && bits & 0x8000_0000_0000_0007 == bits
    ensures (addr | bits) & PT_ADDR_MASK == addr
  {
  }

  lemma FlagsUndisturbed(addr: bv64, bits: bv64, m: bv64)
    requires addr & PT_ADDR_MASK == addr && bits & 0x8000_0000_0000_0007 == bits && m & PT_ADDR_MASK == 0
    ensures (addr | bits) & m == bits & m
  {
  }

  lemma WordLaws(addr: bv64, bits: bv64)
    requires addr & PT_ADDR_MASK == addr && bits & 0x8000_0000_0000_0007 == bits
    ensures (addr | bits) & PT_ADDR_MASK == addr
    ensures FlagsFromArch(addr | bits) == FlagsFromArch(bits)
    ensures (addr | bits) & PAGE_PS == bits & PAGE_PS
  {
    AddressUndisturbed(addr, bits);
    FlagsUndisturbed(addr, bits, PAGE_PRESENT);
    FlagsUndisturbed(addr, bits, PAGE_WRITABLE);
    FlagsUndisturbed(addr, bits, PAGE_USER);
    FlagsUndisturbed(addr, bits, PAGE_NX);
    FlagsUndisturbed(addr, bits, PAGE_PS);
  }

  /** Address and attributes share one word without disturbing each other, and no attribute word
      sets the huge-page bit: the record form of an entry used below loses nothing. */
  lemma EntryWordRoundTrip(addr: bv64, f: PageFlags, bits: bv64)
    requires addr & PT_ADDR_MASK == addr && bits == FlagsToArch(f)
    ensures (addr | bits) & PT_ADDR_MASK == addr
    ensures FlagsFromArch(addr | bits) == f
    ensures (addr | bits) & PAGE_PS == 0
  {
    FlagBits(f);
    WordLaws(addr, bits);
  }

  /** Which attribute is which bit: present 0, writable 1, user 2, no-execute 63, and no other is set. */
  lemma FlagBitPlaces(f: PageFlags)
    ensures FlagsToArch(f) & 1 == (if f.present then 1 else 0)
    ensures FlagsToArch(f) & 2 == (if f.writable then 2 else 0)
    ensures FlagsToArch(f) & 4 == (if f.user then 4 else 0)
    ensures FlagsToArch(f) & 0x8000_0000_0000_0000 == (if f.noExec then 0x8000_0000_0000_0000 else 0)
    ensures FlagsToArch(f) & 0x7FFF_FFFF_FFFF_FFF8 == 0
  {
  }

  /** An entry: attribute bits and the frame it points to. */
  datatype Pte = Pte(flags: PageFlags, huge: bool, frame: nat)

  const NO_FLAGS := PageFlags(false, false, false, false)
  const ABSENT := Pte(NO_FLAGS, false, 0)

  type Tables = map<nat, seq<Pte>>

  // ----- walking -----

  /** One index per level, root first. */
  type Path = seq<nat>

  function Front(p: Path): (r: Path)
    requires p != []
  {
    p[..|p| - 1]
  }

  function Last(p: Path): (r: nat)
    requires p != []
  {
    p[|p| - 1]
  }

  function Entry(ts: Tables, t: nat, i: nat): (e: Pte) {
    if t in ts && i < |ts[t]| then ts[t][i] else ABSENT
  }

  /** The entry that path `p` selects in the table its front leads to. */
  function PteAt(ts: Tables, root: nat, p: Path): (e: Pte)
    requires p != []
    decreases |p|, 0
  {
    var t := Walk(ts, root, Front(p));
    if t.Some? then Entry(ts, t.value, Last(p)) else ABSENT
  }

  /** The frame that path `p` leads to: a table below four levels, a page at four. */
  function Walk(ts: Tables, root: nat, p: Path): (r: Option<nat>)
    decreases |p|, 1
  {
    if p == [] then Some(root)
    else if PteAt(ts, root, p).flags.present then Some(PteAt(ts, root, p).frame) else None
  }

  /** A path into the user half: at most four levels, root index below 256. */
  ghost predicate Lower(p: Path) {
    |p| <= 4 && (forall i :: 0 <= i < |p| ==> p[i] < 512) && (p != [] ==> p[0] < 256)
  }

  /** Every frame under the root, tables and pages alike, is reached by one path only. */
  ghost predicate Unshared(ts: Tables, root: nat) {
    forall p, q :: Lower(p) && Lower(q) && Walk(ts, root, p).Some? && Walk(ts, root, p) == Walk(ts, root, q) ==> p == q
  }

  /** Frames reached in fewer than four steps hold 512-entry tables, linked by entries that let user
      mode through and are not huge. */
  ghost predicate TablesOk(ts: Tables, root: nat) {
    forall p :: Lower(p) && |p| < 4 && Walk(ts, root, p).Some? ==>
      && Walk(ts, root, p).value in ts && |ts[Walk(ts, root, p).value]| == 512
      && (p != [] ==> var e := PteAt(ts, root, p); e.flags.writable && e.flags.user && !e.huge)
  }

  /** The entries of `ts'` under the root are those of `ts`, except at `key`. */
  ghost predicate UpdatedAt(ts: Tables, ts': Tables, root: nat, key: Path, e: Pte) {
    forall q :: Lower(q) && q != [] ==> PteAt(ts', root, q) == if q == key then e else PteAt(ts, root, q)
  }

  lemma FrontLast(p: Path)
    requires p != []
    ensures Front(p) + [Last(p)] == p && |Front(p)| == |p| - 1
    ensures Lower(p) ==> Lower(Front(p)) && Last(p) < 512 && |p| <= 4
  {
  }

  lemma TableAt(ts: Tables, root: nat, p: Path)
    requires TablesOk(ts, root) && Lower(p) && |p| < 4 && Walk(ts, root, p).Some?
    ensures Walk(ts, root, p).value in ts && |ts[Walk(ts, root, p).value]| == 512
  {
    hide Walk, PteAt, Lower;
  }

  lemma SamePath(ts: Tables, root: nat, p: Path, q: Path)
    requires Unshared(ts, root) && Lower(p) && Lower(q) && Walk(ts, root, p).Some?
      && Walk(ts, root, p) == Walk(ts, root, q)
    ensures p == q
  {
    hide Walk, Lower;
  }

  lemma {:induction false} WalkPrefix(ts: Tables, root: nat, q: Path, k: nat)
    requires k <= |q| && Walk(ts, root, q).Some?
    ensures Walk(ts, root, q[..k]).Some?
  {
    if k < |q| {
      WalkPrefix(ts, root, Front(q), k);
      assert Front(q)[..k] == q[..k];
    } else {
      assert q[..k] == q;
    }
  }

  function SetEntry(ts: Tables, t: nat, i: nat, e: Pte): (r: Tables)
    requires t in ts && i < |ts[t]|
  {
    ts[t := ts[t][i := e]]
  }

  /** A zeroed frame read as a table. */
  function ZeroTable(): (t: seq<Pte>)
    ensures |t| == 512 && forall i :: 0 <= i < 512 ==> t[i] == ABSENT
  {
    seq(512, _ => ABSENT)
  }

  /** Storing a leaf, a page entry at level four, is seen at its own path only. */
  lemma {:induction false} LeafUpdate(ts: Tables, root: nat, key: Path, e: Pte, q: Path)
    requires Unshared(ts, root) && TablesOk(ts, root) && Lower(key) && |key| == 4 && Lower(q) && q != []
    requires Walk(ts, root, Front(key)).Some?
    ensures var t := Walk(ts, root, Front(key)).value;
            && t in ts && |ts[t]| == 512
            && PteAt(SetEntry(ts, t, Last(key), e), root, q) == if q == key then e else PteAt(ts, root, q)
    decreases |q|
  {
    hide Unshared, TablesOk, Lower, Front, Last;
    FrontLast(key);
    FrontLast(q);
    TableAt(ts, root, Front(key));
    var t := Walk(ts, root, Front(key)).value;
    var ts' := SetEntry(ts, t, Last(key), e);
    if |q| > 1 {
      LeafUpdate(ts, root, key, e, Front(q));
    }
    assert Walk(ts', root, Front(q)) == Walk(ts, root, Front(q));
    if Walk(ts, root, Front(q)) == Some(t) {
      SamePath(ts, root, Front(q), Front(key));
    }
  }

  /** Linking a fresh zeroed table is seen at its own path only: nothing below it is present. */
  lemma {:induction false} LinkUpdate(ts: Tables, root: nat, key: Path, f: nat, e: Pte, q: Path)
    requires Unshared(ts, root) && TablesOk(ts, root) && Lower(key) && 1 <= |key| <= 3 && Lower(q) && q != []
    requires Walk(ts, root, Front(key)).Some? && !PteAt(ts, root, key).flags.present
    requires e.flags.present && e.frame == f
    requires forall p :: Lower(p) ==> Walk(ts, root, p) != Some(f)
    ensures var t := Walk(ts, root, Front(key)).value;
            && t in ts && |ts[t]| == 512 && t != f
            && PteAt(SetEntry(ts[f := ZeroTable()], t, Last(key), e), root, q) == if q == key then e
               else PteAt(ts, root, q)
    decreases |q|
  {
    hide Unshared, TablesOk, Lower, Front, Last, ZeroTable;
    FrontLast(key);
    FrontLast(q);
    TableAt(ts, root, Front(key));
    var t := Walk(ts, root, Front(key)).value;
    assert Walk(ts, root, Front(key)) != Some(f);
    var ts' := SetEntry(ts[f := ZeroTable()], t, Last(key), e);
    if |q| > 1 {
      LinkUpdate(ts, root, key, f, e, Front(q));
      if Front(q) == key {
        assert PteAt(ts, root, q) == ABSENT;
        assert Walk(ts', root, Front(q)) == Some(f);
        assert PteAt(ts', root, q) == Entry(ts', f, Last(q)) == ABSENT;
        return;
      }
    }
    assert Walk(ts', root, Front(q)) == Walk(ts, root, Front(q));
    if Walk(ts, root, Front(q)) == Some(t) {
      SamePath(ts, root, Front(q), Front(key));
    }
    assert Walk(ts, root, Front(q)) != Some(f);
  }

  // ----- operations -----

  /** Physical memory as far as paging is concerned: the frame allocator and the tables. */
  datatype Mm = Mm(pool: Pool, ts: Tables)

  ghost predicate Reached(m: Mm, root: nat, f: nat) {
    exists p :: Lower(p) && Walk(m.ts, root, p) == Some(f)
  }

  /** Frames under the root are allocated. */
  ghost predicate Backed(m: Mm, root: nat) {
    forall p :: Lower(p) && Walk(m.ts, root, p).Some? ==>
      var f := Walk(m.ts, root, p).value; 0 < f < |m.pool.used| && m.pool.used[f]
  }

  ghost predicate SpaceOk(m: Mm, root: nat) {
    PoolOk(m.pool) && Unshared(m.ts, root) && TablesOk(m.ts, root) && Backed(m, root)
  }

  /** All frames of the address space: the root, its tables and its pages. */
  ghost function Owned(m: Mm, root: nat): (s: set<nat>) {
    set f: nat | f < |m.pool.used| && Reached(m, root, f)
  }

  /** Nothing is lost or gained: free frames and owned frames together, and their count, are as before. */
  ghost predicate Conserved(m: Mm, m': Mm, root: nat) {
    && |m'.pool.used| == |m.pool.used|
    && FreeSet(m'.pool) + Owned(m', root) == FreeSet(m.pool) + Owned(m, root)
    && m'.pool.free + |Owned(m', root)| == m.pool.free + |Owned(m, root)|
  }

  /** Exactly the frames `lost` are neither free nor owned any more. */
  ghost predicate LostExactly(m: Mm, m': Mm, root: nat, lost: set<nat>) {
    && |m'.pool.used| == |m.pool.used| && lost <= FreeSet(m.pool) + Owned(m, root)
    && FreeSet(m'.pool) + Owned(m', root) == FreeSet(m.pool) + Owned(m, root) - lost
    && m'.pool.free + |Owned(m', root)| + |lost| == m.pool.free + |Owned(m, root)|
  }

  /** Losing nothing is conserving frames. */
  lemma ConservedIff(m: Mm, m': Mm, root: nat, lost: set<nat>)
    requires LostExactly(m, m', root, lost)
    ensures Conserved(m, m', root) <==> lost == {}
  {
    hide FreeSet, Owned;
    if lost == {} {
      assert FreeSet(m.pool) + Owned(m, root) - lost == FreeSet(m.pool) + Owned(m, root);
    } else {
      var f :| f in lost;
      assert f in FreeSet(m.pool) + Owned(m, root) && f !in FreeSet(m'.pool) + Owned(m', root);
    }
  }

  lemma ConservedLoses(m: Mm, m': Mm, root: nat)
    requires Conserved(m, m', root)
    ensures LostExactly(m, m', root, {})
  {
    hide FreeSet, Owned;
  }

  /** What two steps lose is different frames. */
  lemma LossesAdd(a: Mm, b: Mm, c: Mm, root: nat, lost: set<nat>, more: set<nat>)
    requires LostExactly(a, b, root, lost) && LostExactly(b, c, root, more)
    ensures LostExactly(a, c, root, lost + more) && lost !! more
  {
    hide FreeSet, Owned;
    assert forall f :: f in more ==> f in FreeSet(b.pool) + Owned(b, root);
    assert |lost + more| == |lost| + |more|;
  }

  function LinkEntry(f: nat, user: bool): (e: Pte) {
    Pte(PageFlags(true, true, user, false), false, f)
  }

  /** The next-level table at entry `i` of `t`, linking a fresh zeroed one if absent. */
  function GetOrCreate(m: Mm, t: nat, i: nat, user: bool): (r: (Mm, Option<nat>))
    requires m.pool.last <= |m.pool.used|
    ensures r.0.pool.last <= |r.0.pool.used|
  {
    if Entry(m.ts, t, i).flags.present then (m, Some(Entry(m.ts, t, i).frame))
    else
      var a := Alloc(m.pool);
      if a.1.None? || t !in m.ts || i >= |m.ts[t]| || t == a.1.value then (m, None)
      else (Mm(a.0, SetEntry(m.ts[a.1.value := ZeroTable()], t, i, LinkEntry(a.1.value, user))), a.1)
  }

  function Target(e: Pte): (r: Option<nat>) {
    if e.flags.present then Some(e.frame) else None
  }

  /** The walk of `ts'` is that of `ts`, except that `key` now leads to `to`. */
  ghost predicate Rewalked(ts: Tables, ts': Tables, root: nat, key: Path, to: Option<nat>) {
    forall q :: Lower(q) ==> Walk(ts', root, q) == if q == key then to else Walk(ts, root, q)
  }

  lemma UpdatedRewalks(ts: Tables, ts': Tables, root: nat, key: Path, e: Pte)
    requires key != [] && UpdatedAt(ts, ts', root, key, e)
    ensures Rewalked(ts, ts', root, key, Target(e))
  {
    hide Lower, PteAt;
    forall q | Lower(q)
      ensures Walk(ts', root, q) == if q == key then Target(e) else Walk(ts, root, q)
    {
      if q != [] { assert PteAt(ts', root, q) == if q == key then e else PteAt(ts, root, q); }
    }
  }

  lemma KeptUnshared(ts: Tables, ts': Tables, root: nat, key: Path, to: Option<nat>)
    requires Unshared(ts, root) && Rewalked(ts, ts', root, key, to)
    requires to.Some? ==> forall p :: Lower(p) && p != key ==> Walk(ts, root, p) != to
    ensures Unshared(ts', root)
  {
    hide Lower, Walk;
  }

  /** The frame that path `key` leads to, as a set of at most one. */
  ghost function HeldAt(m: Mm, root: nat, key: Path): (s: set<nat>) {
    if Walk(m.ts, root, key).Some? then {Walk(m.ts, root, key).value} else {}
  }

  lemma ReachedAfter(m: Mm, m': Mm, root: nat, key: Path, to: Option<nat>, f: nat)
    requires Lower(key) && Unshared(m.ts, root) && Rewalked(m.ts, m'.ts, root, key, to)
    ensures Reached(m', root, f) <==> to == Some(f) || (Reached(m, root, f) && f !in HeldAt(m, root, key))
  {
    hide Walk, Lower;
    if to == Some(f) {
      assert Walk(m'.ts, root, key) == Some(f);
    } else if Reached(m', root, f) {
      var p :| Lower(p) && Walk(m'.ts, root, p) == Some(f);
      assert p != key && Walk(m.ts, root, p) == Some(f);
    } else if Reached(m, root, f) {
      var p :| Lower(p) && Walk(m.ts, root, p) == Some(f);
      assert Walk(m'.ts, root, p) != Some(f);
    }
  }

  /** Owned frames after the walk at one path changes: what was there goes, what is there now comes. */
  lemma OwnedAfter(m: Mm, m': Mm, root: nat, key: Path, to: Option<nat>)
    requires |m'.pool.used| == |m.pool.used| && Lower(key) && Unshared(m.ts, root)
      && Rewalked(m.ts, m'.ts, root, key, to)
    requires to.Some? ==> to.value < |m.pool.used|
    ensures Owned(m', root) == Owned(m, root) - HeldAt(m, root, key) + if to.Some? then {to.value} else {}
  {
    hide Reached, HeldAt, Rewalked, Lower, Unshared;
    forall f: nat | f < |m.pool.used|
      ensures Reached(m', root, f) <==> to == Some(f) || (Reached(m, root, f) && f !in HeldAt(m, root, key))
    {
      ReachedAfter(m, m', root, key, to, f);
    }
  }
}

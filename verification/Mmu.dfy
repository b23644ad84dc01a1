/** The paging code in its own form: methods that read and write tables in physical memory, each
    proved against the value-level operation it stands for. */
module Mmu {
  import opened Common
  import Pmm
  import opened Paging
  import opened PageMap
  import opened AddressSpace
  import Mmap
  import Teardown
  import UserMemory

  /** Outcome of checking a user access. */
  datatype Access = Granted | NotMapped | NotWritable | Overflow | OutOfUserRange

  /** What the flat map allows at one page. */
  ghost function PageAccess(flat: map<nat, Pte>, page: nat, write: bool): (r: Access) {
    if page !in flat || !flat[page].flags.user then NotMapped
    else if write && !flat[page].flags.writable then NotWritable
    else Granted
  }

  /** The verdict on `n` pages from `page` up: that of the first page not granted. */
  ghost function RangeAccess(flat: map<nat, Pte>, page: nat, n: nat, write: bool): (r: Access)
    decreases n
  {
    if n == 0 then Granted
    else if PageAccess(flat, page, write) != Granted then PageAccess(flat, page, write)
    else RangeAccess(flat, page + 1, n - 1, write)
  }

  lemma {:induction false} RangeGrantedIff(flat: map<nat, Pte>, page: nat, n: nat, write: bool)
    ensures RangeAccess(flat, page, n, write) == Granted <==>
      forall q :: Mmap.InRange(q, page, n) ==> PageAccess(flat, q, write) == Granted
    decreases n
  {
    hide PageAccess;
    if n > 0 {
      RangeGrantedIff(flat, page + 1, n - 1, write);
      assert Mmap.InRange(page, page, n);
      assert forall q :: Mmap.InRange(q, page, n) <==> q == page || Mmap.InRange(q, page + 1, n - 1);
    }
  }

  /** A range that is not granted gets the verdict of its first page that is not. */
  lemma {:induction false} FirstRefused(flat: map<nat, Pte>, page: nat, n: nat, write: bool) returns (q: nat)
    requires RangeAccess(flat, page, n, write) != Granted
    ensures Mmap.InRange(q, page, n) && PageAccess(flat, q, write) == RangeAccess(flat, page, n, write)
    ensures forall x :: Mmap.InRange(x, page, q - page) ==> PageAccess(flat, x, write) == Granted
    decreases n
  {
    hide PageAccess;
    if PageAccess(flat, page, write) != Granted {
      q := page;
    } else {
      q := FirstRefused(flat, page + 1, n - 1, write);
      var next, rest := page + 1, q - (page + 1);
      assert forall x :: Mmap.InRange(x, next, rest) ==> PageAccess(flat, x, write) == Granted;
      forall x | Mmap.InRange(x, page, q - page)
        ensures PageAccess(flat, x, write) == Granted
      {
        assert x == page || Mmap.InRange(x, next, rest);
      }
    }
  }

  lemma {:induction false} RefusedHere(flat: map<nat, Pte>, page: nat, n: nat, write: bool, q: nat)
    requires Mmap.InRange(q, page, n) && PageAccess(flat, q, write) != Granted
    requires forall x :: Mmap.InRange(x, page, q - page) ==> PageAccess(flat, x, write) == Granted
    ensures RangeAccess(flat, page, n, write) == PageAccess(flat, q, write)
    decreases n
  {
    hide PageAccess;
    if q > page {
      assert Mmap.InRange(page, page, q - page);
      var before := q - page;
      forall x | Mmap.InRange(x, page + 1, q - (page + 1))
        ensures PageAccess(flat, x, write) == Granted
      {
        assert Mmap.InRange(x, page, before);
      }
      RefusedHere(flat, page + 1, n - 1, write, q);
    }
  }

  /** One level of the walk: a present link lets user mode read and write and is no leaf. */
  lemma LinkPasses(ts: Tables, root: nat, key: Path, k: nat)
    requires TablesOk(ts, root) && Lower(key) && |key| == 4 && k < 4 && Walk(ts, root, key[..k]).Some?
    ensures var e := Entry(ts, Walk(ts, root, key[..k]).value, key[k]);
            && Walk(ts, root, key[..k + 1]) == (if e.flags.present then Some(e.frame) else None)
            && (k < 3 && e.flags.present ==> e.flags.user && e.flags.writable && !e.huge)
            && (k == 3 ==> e == PteAt(ts, root, key))
            && (!e.flags.present ==> Walk(ts, root, key).None?)
  {
    var p := key[..k + 1];
    assert Front(p) == key[..k] && Last(p) == key[k];
    assert key[..4] == key;
    if Walk(ts, root, key).Some? {
      WalkPrefix(ts, root, key, k + 1);
    }
  }

  class Mmu {
    var pool: Pmm.Pool
    var ts: Tables

    ghost predicate Valid()
      reads this
    {
      pool.last <= |pool.used|
    }

    function Value(): (m: Mm)
      reads this
    {
      Mm(pool, ts)
    }

    method AllocFrame() returns (r: Option<nat>)
      requires Valid()
      modifies this`pool
      ensures Valid() && (pool, r) == Pmm.Alloc(old(pool))
    {
      var a := Pmm.Alloc(pool);
      pool, r := a.0, a.1;
    }

    method FreeFrame(f: nat)
      requires Valid()
      modifies this`pool
      ensures Valid() && pool == Pmm.Free(old(pool), f)
    {
      pool := Pmm.Free(pool, f);
    }

    method GetOrCreateTable(t: nat, i: nat, user: bool) returns (r: Option<nat>)
      requires Valid() && i < 512
      modifies this
      ensures Valid() && (Value(), r) == GetOrCreate(old(Value()), t, i, user)
    {
      if Entry(ts, t, i).flags.present {
        return Some(Entry(ts, t, i).frame);
      }
      if t !in ts || i >= |ts[t]| || Pmm.Alloc(pool).1 == Some(t) {
        return None;
      }
      r := AllocFrame();
      if r.Some? {
        ts := SetEntry(ts[r.value := ZeroTable()], t, i, LinkEntry(r.value, user));
      }
    }

    /** The next-level table, if the entry is present. */
    method GetTable(t: nat, i: nat) returns (r: Option<nat>)
      ensures r == Target(Entry(ts, t, i))
    {
      var entry := Entry(ts, t, i);
      if !entry.flags.present {
        return None;
      }
      r := Some(entry.frame);
    }

    /** Writes one entry of a table. */
    method SetTableEntry(t: nat, i: nat, e: Pte)
      modifies this`ts
      ensures Value() == StoreLeaf(old(Value()), t, i, e)
    {
      if t in ts && i < |ts[t]| {
        ts := SetEntry(ts, t, i, e);
      }
    }

    method MapPage(root: nat, v: nat, frame: nat, flags: PageFlags) returns (ok: bool)
      requires Valid()
      modifies this
      ensures Valid() && (Value(), ok) == PageMap.MapPage(old(Value()), root, PtIndices(v), frame, flags)
    {
      hide GetOrCreate, Descend, StoreLeaf;
      var key := PtIndices(v);
      DescendChain(Value(), root, key, flags.user);
      var pdpt := GetOrCreateTable(root, key[0], flags.user);
      if pdpt.None? {
        return false;
      }
      var pd := GetOrCreateTable(pdpt.value, key[1], flags.user);
      if pd.None? {
        return false;
      }
      var pt := GetOrCreateTable(pd.value, key[2], flags.user);
      if pt.None? {
        return false;
      }
      SetTableEntry(pt.value, key[3], LeafEntry(frame, flags));
      ok := true;
    }

    method UnmapPage(root: nat, v: nat) returns (r: Option<nat>)
      requires Valid()
      modifies this`ts
      ensures Valid() && (Value(), r) == PageMap.UnmapPage(old(Value()), root, PtIndices(v))
    {
      hide Walk, StoreLeaf;
      var key := PtIndices(v);
      WalkChain(ts, root, key);
      var pdpt := GetTable(root, key[0]);
      if pdpt.None? {
        return None;
      }
      var pd := GetTable(pdpt.value, key[1]);
      if pd.None? {
        return None;
      }
      var pt := GetTable(pd.value, key[2]);
      if pt.None? {
        return None;
      }
      var entry := Entry(ts, pt.value, key[3]);
      if !entry.flags.present {
        return None;
      }
      SetTableEntry(pt.value, key[3], ABSENT);
      r := Some(entry.frame);
    }

    method SetPageFlags(root: nat, v: nat, flags: PageFlags)
      requires Valid()
      modifies this`ts
      ensures Valid() && Value() == PageMap.SetPageFlags(old(Value()), root, PtIndices(v), flags)
    {
      hide Walk, StoreLeaf;
      var key := PtIndices(v);
      WalkChain(ts, root, key);
      var pdpt := GetTable(root, key[0]);
      if pdpt.None? {
        return;
      }
      var pd := GetTable(pdpt.value, key[1]);
      if pd.None? {
        return;
      }
      var pt := GetTable(pd.value, key[2]);
      if pt.None? {
        return;
      }
      var entry := Entry(ts, pt.value, key[3]);
      if entry.flags.present {
        SetTableEntry(pt.value, key[3], LeafEntry(entry.frame, flags));
      }
    }

    /** Frame and offset of a user address. */
    method TranslateAddress(root: nat, v: nat) returns (r: Option<(nat, nat)>)
      ensures r == UserMemory.Translate(Value(), root, v)
    {
      hide Walk;
      var key := PtIndices(v);
      WalkChain(ts, root, key);
      var pdpt := GetTable(root, key[0]);
      if pdpt.None? {
        return None;
      }
      var pd := GetTable(pdpt.value, key[1]);
      if pd.None? {
        return None;
      }
      var pt := GetTable(pd.value, key[2]);
      if pt.None? {
        return None;
      }
      var entry := Entry(ts, pt.value, key[3]);
      if !entry.flags.present {
        return None;
      }
      r := Some((entry.frame, v % PAGE_SIZE));
    }

    /** Walks the four levels; every level must be present and user, and writable for a write. Over
        sound tables the verdict is the flat map's, and no level but the last ends the walk. */
    method ValidateUserPage(root: nat, v: nat, write: bool) returns (r: Access)
      requires SpaceOk(Value(), root) && v < USER_SPACE_END
      ensures r == PageAccess(Flat(Value(), root), v / PAGE_SIZE, write)
    {
      hide Flat, Unshared, Backed, PtIndices;
      var key := PtIndices(v);
      IndicesOfPage(v);
      InFlat(Value(), root, v / PAGE_SIZE);
      var table := root;
      var level := 4;
      while level >= 1
        invariant 1 <= level <= 4
        invariant Walk(ts, root, key[..4 - level]) == Some(table)
        decreases level
      {
        LinkPasses(ts, root, key, 4 - level);
        var entry := Entry(ts, table, key[4 - level]);
        if !entry.flags.present || !entry.flags.user {
          return NotMapped;
        }
        if write && !entry.flags.writable {
          return NotWritable;
        }
        if level == 1 || (level <= 3 && entry.huge) {
          return Granted;
        }
        table := entry.frame;
        level := level - 1;
      }
    }

    /** Checks the first address of every page of `[addr, addr + len)`. */
    method ValidateUserRange(root: nat, addr: nat, len: nat, write: bool) returns (r: Access)
      requires SpaceOk(Value(), root)
      ensures len == 0 ==> r == Granted
      ensures len > 0 && addr + len >= USIZE_LIMIT ==> r == Overflow
      ensures len > 0 && USER_SPACE_END < addr + len < USIZE_LIMIT ==> r == OutOfUserRange
      ensures len > 0 && addr + len <= USER_SPACE_END ==>
        r == RangeAccess(Flat(Value(), root), addr / PAGE_SIZE, PagesTouched(addr, len), write)
    {
      hide SpaceOk, Flat, PageAccess;
      if len == 0 {
        return Granted;
      }
      if addr + len >= USIZE_LIMIT {
        return Overflow;
      }
      var end := addr + len;
      if end > USER_SPACE_END {
        return OutOfUserRange;
      }
      var page := addr - addr % PAGE_SIZE;
      ghost var n := PagesTouched(addr, len);
      ghost var first := addr / PAGE_SIZE;
      ghost var k := 0;
      TouchedPages(addr, len, 0);
      while page < end
        invariant 0 <= k <= n && page == (first + k) * PAGE_SIZE && (page < end <==> k < n)
        invariant RangeAccess(Flat(Value(), root), first, n, write)
          == RangeAccess(Flat(Value(), root), first + k, n - k, write)
        decreases n - k
      {
        r := ValidateUserPage(root, page, write);
        if r != Granted {
          return;
        }
        page := page + PAGE_SIZE;
        k := k + 1;
        TouchedPages(addr, len, k);
      }
      r := Granted;
    }

    /** The nested teardown loops, one call per table: frees what each present entry leads to. */
    method FreeBelowTable(t: nat, ghost root: nat, ghost p: Path, levels: nat)
      requires Valid() && |p| + levels == 4 && levels > 0 && Walk(ts, root, p) == Some(t)
      modifies this`pool
      ensures Valid() && ts == old(ts) && pool == Teardown.FreeBelow(old(pool), ts, root, p, Teardown.Limit(p))
      decreases levels
    {
      hide Walk, PteAt, Pmm.Free, Teardown.FreeBelow, Teardown.FreeTree;
      var limit := if levels == 4 then 256 else 512;
      var i := 0;
      FreeBelowNone(pool, ts, root, p);
      while i < limit
        invariant 0 <= i <= limit && Valid() && ts == old(ts)
        invariant pool == Teardown.FreeBelow(old(pool), ts, root, p, i)
      {
        WalkNext(ts, root, p, i);
        FreeBelowNext(old(pool), ts, root, p, i);
        var entry := Entry(ts, t, i);
        if entry.flags.present {
          if levels > 1 {
            FreeBelowTable(entry.frame, root, p + [i], levels - 1);
          }
          FreeFrame(entry.frame);
        }
        i := i + 1;
      }
    }

    method FreePageTableHierarchy(root: nat)
      requires Valid()
      modifies this`pool
      ensures Valid() && ts == old(ts) && pool == Teardown.FreeTree(old(pool), ts, root, [])
    {
      FreeBelowTable(root, root, [], 4);
      FreeFrame(root);
    }
  }

  lemma FreeBelowNone(pool: Pmm.Pool, ts: Tables, root: nat, p: Path)
    requires |p| < 4
    ensures Teardown.FreeBelow(pool, ts, root, p, 0) == pool
  {
  }

  /** One more entry of a table: what it leads to is freed, children before the frame. */
  lemma FreeBelowNext(pool: Pmm.Pool, ts: Tables, root: nat, p: Path, i: nat)
    requires |p| < 4 && i < 512
    ensures var before := Teardown.FreeBelow(pool, ts, root, p, i);
            var e, q := PteAt(ts, root, p + [i]), p + [i];
            Teardown.FreeBelow(pool, ts, root, p, i + 1) ==
            if !e.flags.present then before
            else if |q| < 4 then Pmm.Free(Teardown.FreeBelow(before, ts, root, q, Teardown.Limit(q)), e.frame)
            else Pmm.Free(before, e.frame)
  {
    hide Pmm.Free;
    WalkNext(ts, root, p, i);
  }

  /** One more step of a walk. */
  lemma WalkNext(ts: Tables, root: nat, p: Path, i: nat)
    ensures Walk(ts, root, p).Some? ==>
            && PteAt(ts, root, p + [i]) == Entry(ts, Walk(ts, root, p).value, i)
            && Walk(ts, root, p + [i]) == Target(PteAt(ts, root, p + [i]))
    ensures Walk(ts, root, p).None? ==> Walk(ts, root, p + [i]).None? && PteAt(ts, root, p + [i]) == ABSENT
  {
    assert Front(p + [i]) == p && Last(p + [i]) == i;
  }

  /** The three lookups lead to the table that the front of the path leads to. */
  lemma WalkChain(ts: Tables, root: nat, key: Path)
    requires |key| == 4
    ensures Front(key) == [key[0], key[1], key[2]] && Last(key) == key[3]
    ensures var pdpt := Target(Entry(ts, root, key[0]));
            if pdpt.None? then Walk(ts, root, Front(key)).None?
            else var pd := Target(Entry(ts, pdpt.value, key[1]));
            if pd.None? then Walk(ts, root, Front(key)).None?
            else Walk(ts, root, Front(key)) == Target(Entry(ts, pd.value, key[2]))
  {
    hide PteAt;
    assert Walk(ts, root, []) == Some(root);
    WalkNext(ts, root, [], key[0]);
    WalkNext(ts, root, [key[0]], key[1]);
    WalkNext(ts, root, [key[0], key[1]], key[2]);
    assert [] + [key[0]] == [key[0]] && [key[0]] + [key[1]] == [key[0], key[1]];
    assert Front(key) == [key[0], key[1]] + [key[2]];
  }

  lemma DescendNext(m: Mm, root: nat, p: Path, i: nat, user: bool)
    requires m.pool.last <= |m.pool.used|
    ensures var d := Descend(m, root, p, user);
            Descend(m, root, p + [i], user) == if d.1.None? then d else GetOrCreate(d.0, d.1.value, i, user)
  {
    hide GetOrCreate;
    assert Front(p + [i]) == p && Last(p + [i]) == i;
  }

  lemma DescendChain(m: Mm, root: nat, key: Path, user: bool)
    requires m.pool.last <= |m.pool.used| && |key| == 4
    ensures Front(key) == [key[0], key[1], key[2]] && Last(key) == key[3]
    ensures var pdpt := GetOrCreate(m, root, key[0], user);
            Descend(m, root, Front(key), user) ==
            if pdpt.1.None? then pdpt
            else var pd := GetOrCreate(pdpt.0, pdpt.1.value, key[1], user);
            if pd.1.None? then pd else GetOrCreate(pd.0, pd.1.value, key[2], user)
  {
    hide GetOrCreate;
    assert Descend(m, root, [], user) == (m, Some(root));
    DescendNext(m, root, [], key[0], user);
    DescendNext(m, root, [key[0]], key[1], user);
    DescendNext(m, root, [key[0], key[1]], key[2], user);
    assert [] + [key[0]] == [key[0]] && [key[0]] + [key[1]] == [key[0], key[1]];
    assert Front(key) == [key[0], key[1]] + [key[2]];
  }

  /** How many pages `[addr, addr + len)` touches. */
  function PagesTouched(addr: nat, len: nat): (n: nat)
    requires len > 0
  {
    (addr + len - 1) / PAGE_SIZE - addr / PAGE_SIZE + 1
  }

  lemma TouchedPages(addr: nat, len: nat, k: nat)
    requires len > 0
    ensures (addr / PAGE_SIZE + k) * PAGE_SIZE < addr + len <==> k < PagesTouched(addr, len)
    ensures addr - addr % PAGE_SIZE == addr / PAGE_SIZE * PAGE_SIZE
  {
  }
}

/** Safety of the C library's allocator over every well-behaved run. */
module SlabRuns {
  import opened Common
  import opened Slab

  // ----- bump allocation -----

  /** Where a record is in the table. */
  ghost function IndexOf(rs: seq<Record>, r: Record): (i: nat)
    ensures (exists j :: 0 <= j < |rs| && rs[j] == r) ==> i < |rs| && rs[i] == r
  {
    if rs == [] then 0 else if rs[|rs| - 1] == r then |rs| - 1 else IndexOf(rs[..|rs| - 1], r)
  }

  lemma CurrentIndex(rs: seq<Record>, current: seq<nat>, c: nat) returns (i: nat)
    requires CurrentOk(rs, current) && c < NUM_CLASSES && current[c] != 0
    ensures i == IndexOf(rs, Record(current[c], c)) && i < |rs| && rs[i] == Record(current[c], c)
  {
    assert IsCurrent(rs, current[c], c);
    i := IndexOf(rs, Record(current[c], c));
  }

  ghost function AddLive(g: Shadow, p: nat, i: nat): (r: Shadow) {
    g.(blocks := g.blocks[p := Block(i, true)])
  }

  /** The space above the bump offset belongs to no block. */
  lemma AboveBump(h: Heap, g: Shadow, i: nat, q: nat)
    requires Inv(h, g) && i < |h.records| && q in g.blocks
    ensures var r := h.records[i];
      q + CapOf(h.records, g.blocks[q]) <= r.start + BumpOf(h.mem, r) || q >= r.start + ARENA_SIZE
    ensures var r := h.records[i]; q + CapOf(h.records, g.blocks[q]) <= r.start || q >= r.start + HEADER
  {
    hide ListsOk, CurrentOk, LargeOk;
    var b := g.blocks[q];
    assert BlockIn(h.mem, h.records, q, b);
    BumpFits(h, g, i);
    BumpFits(h, g, b.arena);
    if b.arena != i {
      assert !Clash(h.records[b.arena].start, ARENA_SIZE, h.records[i].start, ARENA_SIZE);
    }
  }

  /** Bump offsets after one of them is raised. */
  lemma BumpAfter(h: Heap, i: nat, n: nat, j: nat)
    requires RecordsOk(h.records) && i < |h.records| && j < |h.records|
    ensures BumpOf(h.mem[h.records[i].start + 16 := n], h.records[j]) == if j == i then n
      else BumpOf(h.mem, h.records[j])
  {
    var rs := h.records;
    if i < j {
      assert !Clash(rs[i].start, ARENA_SIZE, rs[j].start, ARENA_SIZE);
    } else if j < i {
      assert !Clash(rs[j].start, ARENA_SIZE, rs[i].start, ARENA_SIZE);
    }
  }

  lemma BumpArenasOk(h: Heap, i: nat, n: nat)
    requires RecordsOk(h.records) && ArenasOk(h.mem, h.records) && i < |h.records|
    requires HEADER <= n <= ARENA_SIZE && n % 16 == 0
    ensures ArenasOk(h.mem[h.records[i].start + 16 := n], h.records)
  {
    hide RecordsOk, BumpOf;
    forall j | 0 <= j < |h.records|
      ensures var b := BumpOf(h.mem[h.records[i].start + 16 := n], h.records[j]);
        HEADER <= b <= ARENA_SIZE && b % 16 == 0
    {
      BumpAfter(h, i, n, j);
    }
  }

  lemma BumpBlocksOk(h: Heap, blocks: map<nat, Block>, i: nat, n: nat)
    requires RecordsOk(h.records) && BlocksOk(h.mem, h.records, blocks) && i < |h.records|
      && BumpOf(h.mem, h.records[i]) <= n
    ensures BlocksOk(h.mem[h.records[i].start + 16 := n], h.records, blocks)
  {
    hide RecordsOk, BumpOf, Size, Clash;
    forall p | p in blocks
      ensures BlockIn(h.mem[h.records[i].start + 16 := n], h.records, p, blocks[p])
    {
      assert BlockIn(h.mem, h.records, p, blocks[p]);
      BumpAfter(h, i, n, blocks[p].arena);
    }
  }

  lemma BumpLargeOk(h: Heap, large: map<nat, nat>, i: nat, n: nat)
    requires LargeOk(h.mem, h.records, large) && i < |h.records|
    ensures LargeOk(h.mem[h.records[i].start + 16 := n], h.records, large)
  {
    forall p | p in large
      ensures LargeIn(h.mem[h.records[i].start + 16 := n], p, large[p])
    {
      assert LargeIn(h.mem, p, large[p]) && !Clash(p - 16, large[p], h.records[i].start, ARENA_SIZE);
    }
  }

  lemma BumpArenas(h: Heap, g: Shadow, i: nat, n: nat)
    requires Inv(h, g) && i < |h.records| && BumpOf(h.mem, h.records[i]) <= n <= ARENA_SIZE && n % 16 == 0
    ensures var mem' := h.mem[h.records[i].start + 16 := n];
            && ArenasOk(mem', h.records) && BlocksOk(mem', h.records, g.blocks) && LargeOk(mem', h.records, g.large)
            && (forall p :: p in g.blocks ==>
               Word(mem', p) == Word(h.mem, p) && Word(mem', p + 8) == Word(h.mem, p + 8))
  {
    hide Inv, RecordsOk, ArenasOk, CurrentOk, BlocksOk, LargeOk, ListsOk, BumpOf, Size, CapOf;
    InvGives(h, g);
    BumpFits(h, g, i);
    BumpArenasOk(h, i, n);
    BumpBlocksOk(h, g.blocks, i, n);
    BumpLargeOk(h, g.large, i, n);
    forall p | p in g.blocks
      ensures h.records[i].start + 16 != p && h.records[i].start + 16 != p + 8
    {
      AboveBump(h, g, i, p);
      SmallFacts(h, g, p);
    }
  }

  /** Raising a bump offset. */
  lemma RaiseBump(h: Heap, g: Shadow, i: nat, n: nat)
    requires Inv(h, g) && i < |h.records| && BumpOf(h.mem, h.records[i]) <= n <= ARENA_SIZE && n % 16 == 0
    ensures Inv(h.(mem := h.mem[h.records[i].start + 16 := n]), g)
  {
    hide RecordsOk, ArenasOk, CurrentOk, BlocksOk, LargeOk, ListOk, ListHolds, Inv, BumpOf;
    InvGives(h, g);
    var mem' := h.mem[h.records[i].start + 16 := n];
    BumpArenas(h, g, i, n);
    forall d | 0 <= d < NUM_CLASSES
      ensures ListOk(mem', h.heads[d], g.lists[d])
    {
      ListsFrame(h, g, mem', d);
    }
    InvFrom(h.(mem := mem'), g);
  }

  /** A block in unused space below the bump offset. */
  lemma BlockAdded(h: Heap, g: Shadow, p: nat, i: nat)
    requires Inv(h, g) && p !in g.blocks && BlockIn(h.mem, h.records, p, Block(i, true))
    requires forall q :: q in g.blocks ==> !Clash(p, CapOf(h.records, Block(i, true)), q, CapOf(h.records, g.blocks[q]))
    ensures Inv(h, AddLive(g, p, i))
  {
    hide RecordsOk, ArenasOk, CurrentOk, LargeOk, ListOk, Clash;
    ClashSymmetric();
    var g' := AddLive(g, p, i);
    forall a, b | a in g'.blocks && b in g'.blocks && a != b
      ensures !Clash(a, CapOf(h.records, g'.blocks[a]), b, CapOf(h.records, g'.blocks[b]))
    {
    }
    forall c | 0 <= c < NUM_CLASSES
      ensures ListHolds(h.records, g'.blocks, c, g.lists[c])
    {
      assert ListHolds(h.records, g.blocks, c, g.lists[c]);
    }
  }

  lemma ClashSymmetric()
    ensures forall a, n, b, m :: Clash(a, n, b, m) <==> Clash(b, m, a, n)
  {
  }

  lemma BumpKeeps(h: Heap, g: Shadow, c: nat) returns (i: nat)
    requires Inv(h, g) && c < NUM_CLASSES && |h.current| == NUM_CLASSES && h.current[c] != 0
    requires Word(h.mem, h.current[c] + 16) + Size(c) <= ARENA_SIZE
    ensures i == IndexOf(h.records, Record(h.current[c], c)) && i < |h.records|
      && h.records[i] == Record(h.current[c], c)
    ensures var r := Bump(h, c); r.1 !in g.blocks && Inv(r.0, AddLive(g, r.1, i))
  {
    hide RecordsOk, ArenasOk, CurrentOk, BlocksOk, LargeOk, ListsOk, Inv, Clash, IndexOf, Size;
    InvGives(h, g);
    i := CurrentIndex(h.records, h.current, c);
    var rec := h.records[i];
    var off := BumpOf(h.mem, rec);
    var p := rec.start + off;
    SizeFacts(c);
    AlignedStart(h, g, i);
    SumAligned(rec.start, off);
    SumAligned(off, Size(c));
    RaiseBump(h, g, i, off + Size(c));
    var h' := Bump(h, c).0;
    forall q | q in g.blocks
      ensures q != p && !Clash(p, Size(c), q, CapOf(h.records, g.blocks[q]))
    {
      AboveBump(h, g, i, q);
      SizeFacts(ClassOf(h.records, g.blocks[q]));
      NoClash(p, Size(c), q, CapOf(h.records, g.blocks[q]), rec.start + ARENA_SIZE);
    }
    assert BumpOf(h'.mem, rec) == off + Size(c);
    BlockAdded(h', g, p, i);
  }

  lemma SumAligned(a: nat, b: nat)
    requires a % 16 == 0 && b % 16 == 0
    ensures (a + b) % 16 == 0
  {
  }

  lemma NoClash(p: nat, n: nat, q: nat, m: nat, end: nat)
    requires n > 0 && m > 0 && p + n <= end && (q + m <= p || q >= end)
    ensures q != p && !Clash(p, n, q, m)
  {
  }

  lemma AlignedStart(h: Heap, g: Shadow, i: nat)
    requires Inv(h, g) && i < |h.records|
    ensures h.records[i].start % 16 == 0 && h.records[i].start > 0 && h.records[i].cls < NUM_CLASSES
    ensures HEADER <= BumpOf(h.mem, h.records[i]) <= ARENA_SIZE && BumpOf(h.mem, h.records[i]) % 16 == 0
  {
    hide ListsOk, CurrentOk, BlocksOk, LargeOk;
  }

  // ----- a new arena -----

  lemma ArenaStores(h: Heap, g: Shadow, c: nat, a: nat, v: nat)
    requires Inv(h, g) && FreshRegion(h, g, a, ARENA_SIZE)
    ensures var zeroed := ZeroFill(h.mem, a, ARENA_SIZE);
            var mem := zeroed[a := ARENA_MAGIC][a + 8 := c][a + 16 := HEADER + Size(c)][a + 24 := v];
            && Inv(h.(mem := mem), g) && FreshRegion(h.(mem := mem), g, a, ARENA_SIZE)
            && Word(mem, a + 16) == HEADER + Size(c)
  {
    hide Inv, FreshRegion, Size, ZeroFill;
    ZeroFillKeeps(h, g, a, ARENA_SIZE);
    var h0 := h.(mem := ZeroFill(h.mem, a, ARENA_SIZE));
    RegionStore(h0, g, a, ARENA_SIZE, a, ARENA_MAGIC);
    var h1 := h0.(mem := h0.mem[a := ARENA_MAGIC]);
    FreshSame(h, h1, g, a, ARENA_SIZE);
    RegionStore(h1, g, a, ARENA_SIZE, a + 8, c);
    var h2 := h1.(mem := h1.mem[a + 8 := c]);
    FreshSame(h, h2, g, a, ARENA_SIZE);
    RegionStore(h2, g, a, ARENA_SIZE, a + 16, HEADER + Size(c));
    var h3 := h2.(mem := h2.mem[a + 16 := HEADER + Size(c)]);
    FreshSame(h, h3, g, a, ARENA_SIZE);
    RegionStore(h3, g, a, ARENA_SIZE, a + 24, v);
    FreshSame(h, h3.(mem := h3.mem[a + 24 := v]), g, a, ARENA_SIZE);
  }

  lemma RecordsAdded(rs: seq<Record>, mem: Mem, a: nat, c: nat)
    requires RecordsOk(rs) && ArenasOk(mem, rs) && |rs| < MAX_ARENAS && c < NUM_CLASSES && a > 0 && a % PAGE_SIZE == 0
    requires forall i :: 0 <= i < |rs| ==> !Clash(a, ARENA_SIZE, rs[i].start, ARENA_SIZE)
    requires Word(mem, a + 16) == HEADER + Size(c)
    ensures RecordsOk(rs + [Record(a, c)]) && ArenasOk(mem, rs + [Record(a, c)])
  {
    SizeFacts(c);
  }

  lemma CurrentAdded(rs: seq<Record>, current: seq<nat>, a: nat, c: nat)
    requires CurrentOk(rs, current) && c < NUM_CLASSES
    ensures CurrentOk(rs + [Record(a, c)], current[c := a])
  {
    var rs', current' := rs + [Record(a, c)], current[c := a];
    assert rs'[|rs|] == Record(a, c);
    forall d | 0 <= d < NUM_CLASSES
      ensures IsCurrent(rs', current'[d], d)
    {
      if d != c && current[d] != 0 {
        var i := CurrentIndex(rs, current, d);
        assert rs'[i] == Record(current[d], d);
      }
    }
  }

  /** Adding an arena leaves sizes and classes of existing blocks. */
  lemma ArenaAdded(h: Heap, g: Shadow, a: nat, c: nat)
    requires Inv(h, g) && FreshRegion(h, g, a, ARENA_SIZE) && |h.records| < MAX_ARENAS && c < NUM_CLASSES
    requires Word(h.mem, a + 16) == HEADER + Size(c)
    ensures |h.current| == NUM_CLASSES
      && Inv(h.(records := h.records + [Record(a, c)], current := h.current[c := a]), g)
  {
    hide ListOk, Clash, RecordsOk, ArenasOk, CurrentOk, Size;
    var rs, rs' := h.records, h.records + [Record(a, c)];
    RecordsAdded(rs, h.mem, a, c);
    CurrentAdded(rs, h.current, a, c);
    CurrentSize(h, g);
    ClashSymmetric();
    forall p | p in g.blocks
      ensures g.blocks[p].arena < |rs| && CapOf(rs', g.blocks[p]) == CapOf(rs, g.blocks[p])
        && ClassOf(rs', g.blocks[p]) == ClassOf(rs, g.blocks[p])
    {
      assert BlockIn(h.mem, rs, p, g.blocks[p]);
    }
    forall c | 0 <= c < NUM_CLASSES
      ensures ListHolds(rs', g.blocks, c, g.lists[c])
    {
      assert ListHolds(rs, g.blocks, c, g.lists[c]);
    }
    InvFrom(h.(records := rs', current := h.current[c := a]), g);
  }

  lemma CurrentSize(h: Heap, g: Shadow)
    requires Inv(h, g)
    ensures |h.current| == NUM_CLASSES && |h.heads| == NUM_CLASSES && |g.lists| == NUM_CLASSES
  {
  }

  lemma NewArenaKeeps(h: Heap, g: Shadow, c: nat, a: nat)
    requires Inv(h, g) && c < NUM_CLASSES && |h.current| == NUM_CLASSES && |h.records| < MAX_ARENAS
      && FreshRegion(h, g, a, ARENA_SIZE)
    ensures var r := NewArena(h, c, a); r.1 !in g.blocks && Inv(r.0, AddLive(g, r.1, |h.records|))
  {
    hide RecordsOk, ArenasOk, CurrentOk, BlocksOk, LargeOk, ListsOk, Inv, Clash, FreshRegion, ZeroFill, Size, AddLive;
    var r := NewArena(h, c, a);
    var h0 := h.(mem := r.0.mem);
    ArenaStores(h, g, c, a, h.current[c]);
    ArenaAdded(h0, g, a, c);
    var p := a + HEADER;
    var n := |h.records|;
    SizeFacts(c);
    AlignedStart(r.0, g, n);
    forall q | q in g.blocks
      ensures q != p && !Clash(p, Size(c), q, CapOf(r.0.records, g.blocks[q]))
    {
      BlockOutside(h, g, a, q);
      NoClash(p, Size(c), q, CapOf(r.0.records, g.blocks[q]), a + ARENA_SIZE);
    }
    BlockAdded(r.0, g, p, n);
  }

  lemma BlockOutside(h: Heap, g: Shadow, a: nat, q: nat)
    requires Inv(h, g) && FreshRegion(h, g, a, ARENA_SIZE) && q in g.blocks
    ensures var cap := CapOf(h.records, g.blocks[q]); cap > 0 && (q + cap <= a || q >= a + ARENA_SIZE)
    ensures forall r :: CapOf(h.records + [r], g.blocks[q]) == CapOf(h.records, g.blocks[q])
  {
    hide ListsOk, CurrentOk, LargeOk;
    var b := g.blocks[q];
    assert BlockIn(h.mem, h.records, q, b);
    BumpFits(h, g, b.arena);
    SizeFacts(ClassOf(h.records, b));
    assert !Clash(a, ARENA_SIZE, h.records[b.arena].start, ARENA_SIZE);
  }

  // ----- live blocks -----

  ghost predicate LiveAt(g: Shadow, p: nat) {
    (p in g.blocks && g.blocks[p].live) || p in g.large
  }

  /** Usable bytes of a block. */
  ghost function Cap(h: Heap, g: Shadow, p: nat): (n: nat) {
    if p in g.blocks then CapOf(h.records, g.blocks[p])
    else if p in g.large && g.large[p] >= 16 then g.large[p] - 16 else 0
  }

  ghost predicate InLive(h: Heap, g: Shadow, p: nat, a: nat) {
    LiveAt(g, p) && p <= a && a + 8 <= p + Cap(h, g, p)
  }

  /** Small and large blocks never share an address. */
  lemma NotBoth(h: Heap, g: Shadow, p: nat)
    requires Inv(h, g) && p in g.blocks
    ensures p !in g.large
  {
    hide ListsOk, CurrentOk, ArenasOk, RecordsOk;
    if p in g.large {
      NodeWords(h, g, p);
      BlockHasArena(h, g, p);
      LargeBig(h, g, p);
      BlockApart(h, g, p, p, 0);
    }
  }

  lemma LargeBig(h: Heap, g: Shadow, p: nat)
    requires Inv(h, g) && p in g.large
    ensures p > 16 && (p - 16) % PAGE_SIZE == 0 && g.large[p] >= PAGE_SIZE && Word(h.mem, p - 8) == LARGE_MAGIC
      && Word(h.mem, p - 16) == g.large[p]
  {
    hide ListsOk, CurrentOk, ArenasOk, RecordsOk, BlocksOk;
    assert LargeIn(h.mem, p, g.large[p]);
  }

  /** Live blocks are aligned and pairwise disjoint; small ones lie inside their arena behind the
      header, large ones behind theirs. */
  lemma LiveBlocksApart(h: Heap, g: Shadow, p: nat, q: nat)
    requires Inv(h, g) && LiveAt(g, p) && LiveAt(g, q)
    ensures p % 16 == 0 && p > 0 && Cap(h, g, p) >= 16
    ensures p != q ==> p + Cap(h, g, p) <= q || q + Cap(h, g, q) <= p
    ensures p in g.blocks ==> var r := h.records[g.blocks[p].arena];
      r.start + HEADER <= p && p + Cap(h, g, p) <= r.start + ARENA_SIZE
  {
    hide Inv, CapOf;
    if p in g.blocks { NotBoth(h, g, p); SmallFacts(h, g, p); } else { LargeBig(h, g, p); PageAligned(p); }
    if q in g.blocks { NotBoth(h, g, q); SmallFacts(h, g, q); } else { LargeBig(h, g, q); }
    if p in g.blocks && q in g.blocks && p != q {
      SmallSmall(h, g, p, q);
    } else if p in g.blocks && q in g.large {
      SmallLarge(h, g, p, q);
    } else if p in g.large && q in g.blocks {
      SmallLarge(h, g, q, p);
    } else if p != q {
      LargeLarge(h, g, p, q);
    }
  }

  lemma PageAligned(p: nat)
    requires p >= 16 && (p - 16) % PAGE_SIZE == 0
    ensures p % 16 == 0
  {
    var k := (p - 16) / PAGE_SIZE;
    WholePages(p - 16);
    MultipleOf16(256 * k + 1, p);
  }

  lemma WholePages(x: nat)
    requires x % PAGE_SIZE == 0
    ensures x == PAGE_SIZE * (x / PAGE_SIZE)
  {
  }

  lemma MultipleOf16(x: nat, p: nat)
    requires p == 16 * x
    ensures p % 16 == 0
  {
  }

  lemma SmallSmall(h: Heap, g: Shadow, p: nat, q: nat)
    requires Inv(h, g) && p in g.blocks && q in g.blocks && p != q
    ensures p + CapOf(h.records, g.blocks[p]) <= q || q + CapOf(h.records, g.blocks[q]) <= p
  {
    hide ListsOk, CurrentOk, LargeOk, ArenasOk, RecordsOk;
    assert !Clash(p, CapOf(h.records, g.blocks[p]), q, CapOf(h.records, g.blocks[q]));
  }

  lemma LargeLarge(h: Heap, g: Shadow, p: nat, q: nat)
    requires Inv(h, g) && p in g.large && q in g.large && p != q
    ensures p >= 16 && q >= 16 && (p - 16 + g.large[p] <= q - 16 || q - 16 + g.large[q] <= p - 16)
  {
    hide ListsOk, CurrentOk, BlocksOk, ArenasOk, RecordsOk;
    assert LargeIn(h.mem, p, g.large[p]) && LargeIn(h.mem, q, g.large[q]);
    assert !Clash(p - 16, g.large[p], q - 16, g.large[q]);
  }

  lemma SmallFacts(h: Heap, g: Shadow, p: nat)
    requires Inv(h, g) && p in g.blocks
    ensures g.blocks[p].arena < |h.records| && p % 16 == 0 && p > 0 && CapOf(h.records, g.blocks[p]) >= 16
    ensures var r := h.records[g.blocks[p].arena];
      r.start + HEADER <= p && p + CapOf(h.records, g.blocks[p]) <= r.start + ARENA_SIZE
  {
    hide ListsOk, CurrentOk, LargeOk;
    assert BlockIn(h.mem, h.records, p, g.blocks[p]);
    BumpFits(h, g, g.blocks[p].arena);
    SizeFacts(ClassOf(h.records, g.blocks[p]));
  }

  lemma SmallLarge(h: Heap, g: Shadow, p: nat, q: nat)
    requires Inv(h, g) && p in g.blocks && q in g.large
    ensures p + CapOf(h.records, g.blocks[p]) <= q - 16 || q - 16 + g.large[q] <= p
  {
    hide ListsOk, CurrentOk, ArenasOk;
    SmallFacts(h, g, p);
    assert !Clash(q - 16, g.large[q], h.records[g.blocks[p].arena].start, ARENA_SIZE);
  }

  // ----- malloc -----

  /** Whether the call has to map memory, and how much. */
  ghost predicate NeedsRegion(h: Heap, size: nat)
    requires |h.heads| == NUM_CLASSES && |h.current| == NUM_CLASSES
  {
    size > SMALL_MAX || (0 < size && var c := ClassFor(size);
      h.heads[c] == 0 && !(h.current[c] != 0 && Word(h.mem, h.current[c] + 16) + Size(c) <= ARENA_SIZE))
  }

  ghost function RegionSize(size: nat): (n: nat) {
    if size > SMALL_MAX then RoundUp(size + 16) else ARENA_SIZE
  }

  /** The kernel maps fresh memory if it maps any. */
  ghost predicate KernelOk(h: Heap, g: Shadow, size: nat, region: Option<nat>) {
    region.Some? ==> FreshRegion(h, g, region.value, RegionSize(size))
  }

  ghost function MallocShadow(h: Heap, g: Shadow, size: nat, region: Option<nat>): (r: Shadow)
    requires Inv(h, g)
  {
    if Malloc(h, size, region).1 == 0 then g
    else if size > SMALL_MAX then LargeShadow(g, size, region.value)
    else
      var c := ClassFor(size);
      var p := Malloc(h, size, region).1;
      if h.heads[c] != 0 then
        assert ListOk(h.mem, h.heads[c], g.lists[c]) && ListHolds(h.records, g.blocks, c, g.lists[c]);
        assert g.lists[c][0] in g.lists[c];
        PopShadow(h, g, c)
      else if h.current[c] != 0 && Word(h.mem, h.current[c] + 16) + Size(c) <= ARENA_SIZE
      then AddLive(g, p, IndexOf(h.records, Record(h.current[c], c)))
      else AddLive(g, p, |h.records|)
  }

  /** What malloc promises about its result and about everything else. */
  ghost predicate Allocated(h: Heap, g: Shadow, h': Heap, g': Shadow, p: nat, size: nat) {
    && !LiveAt(g, p) && (forall q :: LiveAt(g', q) <==> LiveAt(g, q) || q == p)
    && Cap(h', g', p) >= size
    && (forall q :: LiveAt(g, q) ==> Cap(h', g', q) == Cap(h, g, q))
    && (forall q, a :: InLive(h, g, q, a) ==> Word(h'.mem, a) == Word(h.mem, a))
  }

  lemma FreeNodeNotLive(h: Heap, g: Shadow, p: nat, x: nat, q: nat, a: nat)
    requires Inv(h, g) && InBlock(h.records, g.blocks, p, x) && InLive(h, g, q, a) && q != p
    ensures a != x
  {
    hide Inv, CapOf;
    if q in g.blocks {
      SmallSmall(h, g, p, q);
    } else {
      LargeBig(h, g, q);
      SmallLarge(h, g, p, q);
    }
  }

  lemma PopAllocates(h: Heap, g: Shadow, c: nat, size: nat)
    requires Inv(h, g) && c < NUM_CLASSES && |h.heads| == NUM_CLASSES && h.heads[c] != 0 && Size(c) >= size
    ensures |g.lists| == NUM_CLASSES && g.lists[c] != [] && g.lists[c][0] in g.blocks
    ensures Allocated(h, g, Pop(h, c).0, PopShadow(h, g, c), h.heads[c], size)
    ensures !LooksFreed(Pop(h, c).0, PopShadow(h, g, c), h.heads[c])
  {
    hide Inv, Size, RecordsOk, ArenasOk, CurrentOk, BlocksOk, LargeOk, ListsOk, InBlock, InLive;
    CurrentSize(h, g);
    PopKeeps(h, g, c);
    InvGives(h, g);
    HeadFirst(h, g, c);
    var node := h.heads[c];
    NotBoth(h, g, node);
    NodeWords(h, g, node);
    forall q: nat, a: nat | InLive(h, g, q, a)
      ensures Word(Pop(h, c).0.mem, a) == Word(h.mem, a)
    {
      InLiveAt(h, g, q, a);
      FreeNodeNotLive(h, g, node, node + 8, q, a);
    }
  }

  lemma InLiveAt(h: Heap, g: Shadow, p: nat, a: nat)
    requires InLive(h, g, p, a)
    ensures LiveAt(g, p)
  {
  }

  lemma HeadFirst(h: Heap, g: Shadow, c: nat)
    requires ListsOk(h, g) && c < NUM_CLASSES && h.heads[c] != 0
    ensures g.lists[c] != [] && g.lists[c][0] == h.heads[c]
  {
    HeadIsFree(h, g, c);
  }

  lemma HeaderNotLive(h: Heap, g: Shadow, i: nat, q: nat, a: nat)
    requires Inv(h, g) && i < |h.records| && InLive(h, g, q, a)
    ensures a != h.records[i].start + 16
  {
    hide Inv, CapOf;
    if q in g.blocks {
      BlockApart(h, g, q, a, i);
    } else {
      LargeBig(h, g, q);
      LargeNotArena(h, g, q, i);
    }
  }

  lemma LargeNotArena(h: Heap, g: Shadow, q: nat, i: nat)
    requires Inv(h, g) && q in g.large && i < |h.records|
    ensures q >= 16 && (q - 16 + g.large[q] <= h.records[i].start || h.records[i].start + ARENA_SIZE <= q - 16)
  {
    hide ListsOk, CurrentOk, BlocksOk, ArenasOk, RecordsOk;
    LargeBig(h, g, q);
    assert !Clash(q - 16, g.large[q], h.records[i].start, ARENA_SIZE);
  }

  lemma BumpAllocates(h: Heap, g: Shadow, c: nat, size: nat)
    requires Inv(h, g) && c < NUM_CLASSES && |h.current| == NUM_CLASSES && h.current[c] != 0 && Size(c) >= size
    requires Word(h.mem, h.current[c] + 16) + Size(c) <= ARENA_SIZE
    ensures var r := Bump(h, c); var g' := AddLive(g, r.1, IndexOf(h.records, Record(h.current[c], c)));
            Inv(r.0, g') && r.1 != 0 && Allocated(h, g, r.0, g', r.1, size)
  {
    hide Inv, Size, IndexOf;
    var i := BumpKeeps(h, g, c);
    AlignedStart(h, g, i);
    var r := Bump(h, c);
    var g' := AddLive(g, r.1, i);
    NotBoth(r.0, g', r.1);
    forall q: nat, a: nat | InLive(h, g, q, a)
      ensures a != h.records[i].start + 16
    {
      HeaderNotLive(h, g, i, q, a);
    }
  }

  lemma RegionNotLive(h: Heap, g: Shadow, a0: nat, n: nat, q: nat, a: nat)
    requires Inv(h, g) && FreshRegion(h, g, a0, n) && InLive(h, g, q, a)
    ensures a < a0 || a >= a0 + n
  {
    hide ListsOk, CurrentOk, RecordsOk;
    if q in g.blocks {
      SmallFacts(h, g, q);
      assert !Clash(a0, n, h.records[g.blocks[q].arena].start, ARENA_SIZE);
    } else {
      LargeBig(h, g, q);
      assert !Clash(a0, n, q - 16, g.large[q]);
    }
  }

  lemma ArenaAllocates(h: Heap, g: Shadow, c: nat, a0: nat, size: nat)
    requires Inv(h, g) && c < NUM_CLASSES && |h.current| == NUM_CLASSES && |h.records| < MAX_ARENAS
      && FreshRegion(h, g, a0, ARENA_SIZE)
    requires Size(c) >= size
    ensures var r := NewArena(h, c, a0); var g' := AddLive(g, r.1, |h.records|);
            Inv(r.0, g') && r.1 != 0 && Allocated(h, g, r.0, g', r.1, size)
  {
    hide Inv, Size, FreshRegion, ZeroFill;
    NewArenaKeeps(h, g, c, a0);
    var r := NewArena(h, c, a0);
    var g' := AddLive(g, r.1, |h.records|);
    NotBoth(r.0, g', r.1);
    forall q: nat, a: nat | InLive(h, g, q, a)
      ensures a < a0 || a >= a0 + ARENA_SIZE
    {
      RegionNotLive(h, g, a0, ARENA_SIZE, q, a);
    }
    forall q | q in g.blocks
      ensures CapOf(r.0.records, g.blocks[q]) == CapOf(h.records, g.blocks[q])
    {
      BlockHasArena(h, g, q);
    }
  }

  lemma LargeAllocates(h: Heap, g: Shadow, size: nat, a0: nat)
    requires Inv(h, g) && FreshRegion(h, g, a0, RoundUp(size + 16))
    ensures var r := NewLarge(h, size, a0); var g' := LargeShadow(g, size, a0);
            Inv(r.0, g') && r.1 != 0 && Allocated(h, g, r.0, g', r.1, size)
  {
    hide Inv, RoundUp, FreshRegion, ZeroFill;
    NewLargeKeeps(h, g, size, a0);
    TotalFits(size);
    var n := RoundUp(size + 16);
    var g' := LargeShadow(g, size, a0);
    RegionBlock(h, g, a0, n);
    forall q: nat, a: nat | InLive(h, g, q, a)
      ensures a < a0 || a >= a0 + n
    {
      RegionNotLive(h, g, a0, n, q, a);
    }
  }

  lemma RegionBlock(h: Heap, g: Shadow, a0: nat, n: nat)
    requires Inv(h, g) && FreshRegion(h, g, a0, n) && n >= PAGE_SIZE
    ensures a0 + 16 !in g.blocks && a0 + 16 !in g.large
  {
    hide Inv, FreshRegion;
    RegionApart(h, g, a0, n);
    var p := a0 + 16;
    assert Within(p, a0, n) && Within(p - 16, a0, n);
  }

  lemma ClassFits(size: nat)
    requires size <= SMALL_MAX
    ensures Size(ClassFor(size)) >= size
  {
    ClassFromFits(size, 0);
  }

  /** malloc: keeps the invariant and every live block's contents, and returns null exactly when asked
      for nothing or when memory must be mapped and cannot be; otherwise a new block large enough. */
  lemma MallocKeeps(h: Heap, g: Shadow, size: nat, region: Option<nat>)
    requires Inv(h, g) && KernelOk(h, g, size, region)
    ensures |h.heads| == NUM_CLASSES && |h.current| == NUM_CLASSES
    ensures var r := Malloc(h, size, region); var g' := MallocShadow(h, g, size, region);
            && Inv(r.0, g')
            && (r.1 == 0 <==>
                  || size == 0
                  || (NeedsRegion(h, size) && (region.None? || (size <= SMALL_MAX && |h.records| >= MAX_ARENAS))))
            && (r.1 == 0 ==> r.0 == h && g' == g)
            && (r.1 != 0 ==> Allocated(h, g, r.0, g', r.1, size))
  {
    hide Inv, FreshRegion, Size, ClassFor, Pop, Bump, NewArena, NewLarge, Allocated, RoundUp, PopShadow, AddLive,
      LargeShadow;
    CurrentSize(h, g);
    if size > SMALL_MAX {
      if region.Some? { LargeAllocates(h, g, size, region.value); NewLargeAt(h, size, region.value); }
    } else if size > 0 {
      var c := ClassFor(size);
      ClassFits(size);
      if h.heads[c] != 0 {
        PopKeeps(h, g, c);
        PopAllocates(h, g, c, size);
        PopAt(h, c);
      } else if h.current[c] != 0 && Word(h.mem, h.current[c] + 16) + Size(c) <= ARENA_SIZE {
        BumpAllocates(h, g, c, size);
      } else if |h.records| < MAX_ARENAS && region.Some? {
        ArenaAllocates(h, g, c, region.value, size);
      }
    }
  }

  /** How much malloc hands out: the smallest of the class sizes that holds the request, or for a large
      one whole pages less the header, with less than a page to spare. */
  lemma MallocExact(h: Heap, g: Shadow, size: nat, region: Option<nat>)
    requires Inv(h, g) && KernelOk(h, g, size, region)
    ensures |h.heads| == NUM_CLASSES && |h.current| == NUM_CLASSES
    ensures var r := Malloc(h, size, region); var cap := Cap(r.0, MallocShadow(h, g, size, region), r.1);
            r.1 != 0 ==>
              && (size <= SMALL_MAX ==>
                    && (exists c: nat :: c < NUM_CLASSES && cap == Size(c))
                    && forall c: nat :: c < NUM_CLASSES && Size(c) >= size ==> cap <= Size(c))
              && (size > SMALL_MAX ==> (cap + 16) % PAGE_SIZE == 0 && size <= cap < size + PAGE_SIZE)
  {
    hide Inv, FreshRegion, Size, ClassFor, Pop, Bump, NewArena, NewLarge, RoundUp, PopShadow, AddLive, LargeShadow,
      CapOf;
    CurrentSize(h, g);
    MallocKeeps(h, g, size, region);
    var r := Malloc(h, size, region);
    if r.1 != 0 {
      if size > SMALL_MAX {
        LargeCap(h, g, size, region.value);
      } else {
        SmallCap(h, g, size, region);
        LeastClass(size);
      }
    }
  }

  lemma LargeCap(h: Heap, g: Shadow, size: nat, a: nat)
    requires Inv(h, g) && FreshRegion(h, g, a, RoundUp(size + 16))
    ensures var r := NewLarge(h, size, a); var cap := Cap(r.0, LargeShadow(g, size, a), r.1);
            (cap + 16) % PAGE_SIZE == 0 && size <= cap < size + PAGE_SIZE
  {
    hide Inv, FreshRegion;
    TotalFits(size);
    RegionBlock(h, g, a, RoundUp(size + 16));
  }

  lemma LeastClass(size: nat)
    requires size <= SMALL_MAX
    ensures ClassFor(size) < NUM_CLASSES && Size(ClassFor(size)) >= size
    ensures forall c: nat :: c < NUM_CLASSES && Size(c) >= size ==> Size(ClassFor(size)) <= Size(c)
  {
    hide ClassFrom;
    ClassFromFits(size, 0);
  }

  lemma SmallCap(h: Heap, g: Shadow, size: nat, region: Option<nat>)
    requires Inv(h, g) && KernelOk(h, g, size, region) && 0 < size <= SMALL_MAX
    requires |h.heads| == NUM_CLASSES && |h.current| == NUM_CLASSES && Malloc(h, size, region).1 != 0
    ensures var r := Malloc(h, size, region); Cap(r.0, MallocShadow(h, g, size, region), r.1) == Size(ClassFor(size))
  {
    hide Inv, FreshRegion, Size, ClassFor;
    var c := ClassFor(size);
    if h.heads[c] != 0 {
      PopKeeps(h, g, c);
    } else if h.current[c] != 0 && Word(h.mem, h.current[c] + 16) + Size(c) <= ARENA_SIZE {
      var i := BumpKeeps(h, g, c);
    }
  }

  lemma NewLargeAt(h: Heap, size: nat, a: nat)
    ensures NewLarge(h, size, a).1 == a + 16
  {
  }

  lemma PopAt(h: Heap, c: nat)
    requires c < |h.heads|
    ensures Pop(h, c).1 == h.heads[c]
  {
  }

  // ----- free -----

  lemma FoundArena(h: Heap, g: Shadow, p: nat)
    requires Inv(h, g) && p in g.blocks
    ensures FindRecord(h.records, p, 0) == Some(g.blocks[p].arena)
  {
    hide ListsOk, CurrentOk, LargeOk, ArenasOk;
    SmallFacts(h, g, p);
    var i, b := FindRecord(h.records, p, 0), g.blocks[p].arena;
    assert i.Some? && i.value <= b;
    OneArena(h.records, i.value, b, p);
  }

  lemma OneArena(rs: seq<Record>, i: nat, j: nat, p: nat)
    requires RecordsOk(rs) && i <= j < |rs|
    requires rs[i].start <= p < rs[i].start + ARENA_SIZE && rs[j].start <= p < rs[j].start + ARENA_SIZE
    ensures i == j
  {
    assert i < j ==> !Clash(rs[i].start, ARENA_SIZE, rs[j].start, ARENA_SIZE);
  }

  lemma NotInArena(h: Heap, g: Shadow, p: nat)
    requires Inv(h, g) && p in g.large
    ensures FindRecord(h.records, p, 0) == None
  {
    hide Inv;
    LargeBig(h, g, p);
    if FindRecord(h.records, p, 0).Some? {
      LargeNotArena(h, g, p, FindRecord(h.records, p, 0).value);
    }
  }

  lemma FreeMagicSet(h: Heap, g: Shadow, p: nat)
    requires Inv(h, g) && p in g.blocks && !g.blocks[p].live
    ensures Word(h.mem, p + 8) == FREE_MAGIC
  {
    hide BlocksOk, CurrentOk, LargeOk, ArenasOk;
    BlockHasArena(h, g, p);
    var c := ClassOf(h.records, g.blocks[p]);
    assert ListHolds(h.records, g.blocks, c, g.lists[c]);
    assert p in g.lists[c];
    ListMagic(h.mem, h.heads[c], g.lists[c], p);
  }

  lemma {:induction false} ListMagic(mem: Mem, head: nat, l: seq<nat>, p: nat)
    requires ListOk(mem, head, l) && p in l
    ensures Word(mem, p + 8) == FREE_MAGIC
    decreases |l|
  {
    if p != l[0] {
      assert l == [l[0]] + l[1..];
      ListMagic(mem, Word(mem, l[0]), l[1..], p);
    }
  }

  /** Freeing a block that is already free changes nothing. */
  lemma DoubleFreeHarmless(h: Heap, g: Shadow, p: nat)
    requires Inv(h, g) && p in g.blocks && !g.blocks[p].live
    ensures |h.heads| == NUM_CLASSES && Free(h, p) == h
  {
    hide Inv;
    CurrentSize(h, g);
    FoundArena(h, g, p);
    FreeMagicSet(h, g, p);
  }

  /** The guard of free looks at the block's second word, which is the program's: a live block whose
      second word happens to hold the mark is not given back. */
  ghost predicate LooksFreed(h: Heap, g: Shadow, p: nat) {
    p in g.blocks && Word(h.mem, p + 8) == FREE_MAGIC
  }

  ghost function AfterFree(h: Heap, g: Shadow, p: nat): (r: Shadow)
    requires Inv(h, g)
  {
    if p in g.large then g.(large := g.large - {p})
    else if p in g.blocks && g.blocks[p].live && !LooksFreed(h, g, p) && ClassOf(h.records, g.blocks[p]) < |g.lists|
    then FreeShadow(h, g, ClassOf(h.records, g.blocks[p]), p)
    else g
  }

  ghost predicate Released(h: Heap, g: Shadow, h': Heap, g': Shadow, p: nat) {
    && (forall q :: LiveAt(g', q) <==> LiveAt(g, q) && q != p)
    && (forall q :: LiveAt(g', q) ==> Cap(h', g', q) == Cap(h, g, q))
    && (forall q, a :: InLive(h, g, q, a) && q != p ==> Word(h'.mem, a) == Word(h.mem, a))
  }

  lemma SmallFreed(h: Heap, g: Shadow, p: nat)
    requires Inv(h, g) && p in g.blocks && g.blocks[p].live && !LooksFreed(h, g, p)
    ensures |h.heads| == NUM_CLASSES && var h' := Free(h, p); var g' := AfterFree(h, g, p);
      Inv(h', g') && Released(h, g, h', g', p)
  {
    hide Inv, CapOf;
    CurrentSize(h, g);
    FoundArena(h, g, p);
    SmallFacts(h, g, p);
    NotBoth(h, g, p);
    AlignedStart(h, g, g.blocks[p].arena);
    var c := ClassOf(h.records, g.blocks[p]);
    PushFreeKeeps(h, g, c, p);
    NodeWords(h, g, p);
    forall q: nat, a: nat | InLive(h, g, q, a) && q != p
      ensures a != p && a != p + 8
    {
      FreeNodeNotLive(h, g, p, p, q, a);
      FreeNodeNotLive(h, g, p, p + 8, q, a);
    }
    SameCaps(h, g, c, p);
  }

  lemma SameCaps(h: Heap, g: Shadow, c: nat, p: nat)
    requires Inv(h, g) && c < |g.lists| && c < |h.heads| && p in g.blocks
    ensures forall q :: q in g.blocks ==>
      CapOf(h.records, FreeShadow(h, g, c, p).blocks[q]) == CapOf(h.records, g.blocks[q])
  {
    hide Inv, Size;
  }

  lemma LargeFreed(h: Heap, g: Shadow, p: nat)
    requires Inv(h, g) && p in g.large
    ensures |h.heads| == NUM_CLASSES && var h' := Free(h, p); var g' := AfterFree(h, g, p);
      Inv(h', g') && Released(h, g, h', g', p)
  {
    hide Inv, CapOf;
    CurrentSize(h, g);
    NotInArena(h, g, p);
    LargeBig(h, g, p);
    LargeHeaderStore(h, g, p, 0);
    if p in g.blocks { NotBoth(h, g, p); }
    forall q: nat, a: nat | InLive(h, g, q, a)
      ensures a != p - 8
    {
      LargeHeaderNotLive(h, g, p, q, a);
    }
  }

  lemma LargeHeaderNotLive(h: Heap, g: Shadow, p: nat, q: nat, a: nat)
    requires Inv(h, g) && p in g.large && InLive(h, g, q, a)
    ensures p >= 16 && a != p - 8 && a != p - 16
  {
    hide Inv, CapOf;
    LargeBig(h, g, p);
    if q in g.blocks {
      SmallLarge(h, g, q, p);
    } else if q != p {
      LargeBig(h, g, q);
      LargeLarge(h, g, p, q);
    }
  }

  /** free of a live block gives it back, unless its second word holds the mark, in which case nothing
      happens at all. */
  lemma FreeReleasesIff(h: Heap, g: Shadow, p: nat)
    requires Inv(h, g) && LiveAt(g, p)
    ensures |h.heads| == NUM_CLASSES
    ensures var h' := Free(h, p); var g' := AfterFree(h, g, p);
            && Inv(h', g')
            && (LooksFreed(h, g, p) ==> h' == h && g' == g)
            && (!LooksFreed(h, g, p) <==> Released(h, g, h', g', p))
  {
    hide Inv, CapOf, FreeShadow;
    CurrentSize(h, g);
    if p in g.large {
      LargeFreed(h, g, p);
      if p in g.blocks { NotBoth(h, g, p); }
    } else if LooksFreed(h, g, p) {
      FoundArena(h, g, p);
    } else {
      SmallFreed(h, g, p);
    }
  }

  /** A block that was given back is the next one handed out for its class. */
  lemma FreedIsReused(h: Heap, g: Shadow, p: nat, size: nat, region: Option<nat>)
    requires Inv(h, g) && p in g.blocks && g.blocks[p].live && !LooksFreed(h, g, p)
    requires 0 < size <= SMALL_MAX && ClassFor(size) == ClassOf(h.records, g.blocks[p])
    ensures |h.heads| == NUM_CLASSES && |Free(h, p).heads| == NUM_CLASSES && |Free(h, p).current| == NUM_CLASSES
    ensures Malloc(Free(h, p), size, region).1 == p
  {
    hide Inv, ClassFor, FindRecord, Size;
    CurrentSize(h, g);
    FoundArena(h, g, p);
    SmallFacts(h, g, p);
    AlignedStart(h, g, g.blocks[p].arena);
  }

  /** free of null, or of an address that is in no arena and behind no large header, does nothing. */
  lemma FreeForeign(h: Heap, p: nat)
    requires |h.heads| == NUM_CLASSES
    requires p == 0
      || (forall i :: 0 <= i < |h.records| ==> !(h.records[i].start <= p < h.records[i].start + ARENA_SIZE))
    requires p >= 16 ==> Word(h.mem, p - 8) != LARGE_MAGIC
    ensures Free(h, p) == h
  {
  }

  /** It happens: a program stores the mark in the second word of a fresh block and frees it. */
  lemma MarkedBlockStays()
    ensures var m := Malloc(EMPTY_HEAP, 16, Some(0x10000));
            var h := m.0.(mem := m.0.mem[m.1 + 8 := FREE_MAGIC]);
            m.1 == 0x10020 && Free(h, m.1) == h && h.heads[0] == 0
  {
    var m := Malloc(EMPTY_HEAP, 16, Some(0x10000));
    assert ClassFor(16) == 0;
    assert m == NewArena(EMPTY_HEAP, 0, 0x10000);
  }

  // ----- stores by the program -----

  lemma LargeWord(h: Heap, g: Shadow, p: nat, a: nat, v: nat)
    requires Inv(h, g) && p in g.large && p <= a && a + 8 <= p - 16 + g.large[p]
    ensures Inv(h.(mem := h.mem[a := v]), g)
  {
    hide Inv;
    LargeBig(h, g, p);
    LargeAbove(h, g);
    forall i | 0 <= i < |h.records|
      ensures a != h.records[i].start + 16
    {
      LargeNotArena(h, g, p, i);
    }
    forall q | q in g.large
      ensures q >= 16 && a != q - 16 && a != q - 8
    {
      LargeBig(h, g, q);
      if q != p { LargeLarge(h, g, p, q); }
    }
    forall q | q in g.blocks
      ensures a != q && a != q + 8
    {
      SmallLarge(h, g, q, p);
      SmallFacts(h, g, q);
    }
    OutsideKeeps(h, g, h.mem[a := v]);
  }

  /** A program that stores only into its live blocks keeps the invariant. */
  lemma LiveStoreKeeps(h: Heap, g: Shadow, p: nat, a: nat, v: nat)
    requires Inv(h, g) && InLive(h, g, p, a)
    ensures Inv(h.(mem := h.mem[a := v]), g)
  {
    hide Inv, CapOf;
    if p in g.large {
      LargeBig(h, g, p);
      if p in g.blocks { NotBoth(h, g, p); }
      LargeWord(h, g, p, a, v);
    } else {
      StoreKeeps(h, g, p, a, v);
    }
  }

  // ----- realloc -----

  function CopyWords(mem: Mem, src: nat, dst: nat, n: nat): (r: Mem) {
    if n == 0 then mem else CopyWords(mem, src, dst, n - 1)[dst + 8 * (n - 1) := Word(mem, src + 8 * (n - 1))]
  }

  lemma {:induction false} CopiedWord(mem: Mem, src: nat, dst: nat, n: nat, a: nat)
    ensures var m := CopyWords(mem, src, dst, n);
            && (a < dst || a >= dst + 8 * n ==> Word(m, a) == Word(mem, a))
            && (forall k :: 0 <= k < n ==> Word(m, dst + 8 * k) == Word(mem, src + 8 * k))
  {
    if n > 0 {
      CopiedWord(mem, src, dst, n - 1, a);
    }
  }

  lemma {:induction false} CopyKeeps(h: Heap, g: Shadow, src: nat, dst: nat, n: nat)
    requires Inv(h, g) && LiveAt(g, dst) && 8 * n <= Cap(h, g, dst)
    ensures Inv(h.(mem := CopyWords(h.mem, src, dst, n)), g)
  {
    hide Inv;
    if n > 0 {
      CopyKeeps(h, g, src, dst, n - 1);
      var h1 := h.(mem := CopyWords(h.mem, src, dst, n - 1));
      LiveStoreKeeps(h1, g, dst, dst + 8 * (n - 1), Word(h.mem, src + 8 * (n - 1)));
    }
  }

  /** The capacity realloc finds for a pointer: from its arena's class or its large header. */
  function CapSeen(h: Heap, p: nat): (n: Option<nat>) {
    var i := FindRecord(h.records, p, 0);
    if i.Some? then Some(Size(h.records[i.value].cls))
    else if p < 16 || Word(h.mem, p - 8) != LARGE_MAGIC || Word(h.mem, p - 16) < 16 then None
    else Some(Word(h.mem, p - 16) - 16)
  }

  function Realloc(h: Heap, p: nat, size: nat, region: Option<nat>): (r: (Heap, nat))
    requires |h.heads| == NUM_CLASSES && |h.current| == NUM_CLASSES
  {
    if p == 0 then Malloc(h, size, region)
    else if size == 0 then (Free(h, p), 0)
    else
      var cap := CapSeen(h, p);
      if cap.None? then (h, 0)
      else if cap.value >= size then (h, p)
      else
        var m := Malloc(h, size, region);
        if m.1 == 0 then (m.0, 0)
        else (Free(m.0.(mem := CopyWords(m.0.mem, p, m.1, cap.value / 8)), p), m.1)
  }

  lemma SeesCap(h: Heap, g: Shadow, p: nat)
    requires Inv(h, g) && LiveAt(g, p)
    ensures CapSeen(h, p) == Some(Cap(h, g, p))
  {
    hide Inv, Size;
    if p in g.blocks {
      FoundArena(h, g, p);
      SmallFacts(h, g, p);
    } else {
      NotInArena(h, g, p);
      LargeBig(h, g, p);
    }
  }

  ghost function ReallocShadow(h: Heap, g: Shadow, p: nat, size: nat, region: Option<nat>): (r: Shadow)
    requires Inv(h, g) && KernelOk(h, g, size, region)
  {
    MallocKeeps(h, g, size, region);
    if p == 0 then MallocShadow(h, g, size, region)
    else if size == 0 then AfterFree(h, g, p)
    else if Cap(h, g, p) >= size then g
    else
      var m := Malloc(h, size, region);
      var g1 := MallocShadow(h, g, size, region);
      if m.1 == 0 then g1
      else
        var h1 := m.0.(mem := CopyWords(m.0.mem, p, m.1, Cap(h, g, p) / 8));
        if Inv(h1, g1) then AfterFree(h1, g1, p) else g1
  }

  /** The contents of `p` up to `n` words are at `q`. */
  ghost predicate SameWords(mem: Mem, p: nat, mem': Mem, q: nat, n: nat) {
    forall k :: 0 <= k < n ==> Word(mem', q + 8 * k) == Word(mem, p + 8 * k)
  }

  /** What moving a block does, step by step. */
  lemma MoveKeeps(h: Heap, g: Shadow, p: nat, size: nat, region: Option<nat>)
    requires Inv(h, g) && LiveAt(g, p) && KernelOk(h, g, size, region) && Cap(h, g, p) < size
    requires |h.heads| == NUM_CLASSES && |h.current| == NUM_CLASSES && Malloc(h, size, region).1 != 0
    ensures var m := Malloc(h, size, region); var g1 := MallocShadow(h, g, size, region); var n := Cap(h, g, p) / 8;
            var h1 := m.0.(mem := CopyWords(m.0.mem, p, m.1, n));
            && Inv(h1, g1) && Allocated(h, g, m.0, g1, m.1, size) && Cap(h1, g1, m.1) >= size && LiveAt(g1, p)
            && p != m.1
            && SameWords(h.mem, p, h1.mem, m.1, n) && SameWords(h.mem, p, h1.mem, p, n)
            && (forall q, a :: InLive(h, g, q, a) ==> Word(h1.mem, a) == Word(h.mem, a))
  {
    hide Inv, Malloc, MallocShadow, CapOf;
    MallocKeeps(h, g, size, region);
    var m := Malloc(h, size, region);
    var g1 := MallocShadow(h, g, size, region);
    var n := Cap(h, g, p) / 8;
    var q0 := m.1;
    CopyKeeps(m.0, g1, p, q0, n);
    CopiedWord(m.0.mem, p, q0, n, 0);
    var h1 := m.0.(mem := CopyWords(m.0.mem, p, q0, n));
    forall q: nat, a: nat | InLive(h, g, q, a)
      ensures Word(h1.mem, a) == Word(h.mem, a)
    {
      LiveBlocksApart(m.0, g1, q0, q);
      CopiedWord(m.0.mem, p, q0, n, a);
    }
    forall k | 0 <= k < n
      ensures Word(m.0.mem, p + 8 * k) == Word(h.mem, p + 8 * k) && Word(h1.mem, p + 8 * k) == Word(h.mem, p + 8 * k)
    {
      assert InLive(h, g, p, p + 8 * k);
    }
  }

  /** realloc of a live block: it is returned as it is when large enough; otherwise, if memory can be
      had, a block large enough with the same contents, the old one given back; and null, with nothing
      changed, if not. Every other live block keeps its contents. */
  lemma ReallocKeeps(h: Heap, g: Shadow, p: nat, size: nat, region: Option<nat>)
    requires Inv(h, g) && LiveAt(g, p) && p != 0 && size > 0 && KernelOk(h, g, size, region)
    ensures |h.heads| == NUM_CLASSES && |h.current| == NUM_CLASSES
    ensures var r := Realloc(h, p, size, region); var g' := ReallocShadow(h, g, p, size, region);
            && Inv(r.0, g')
            && (Cap(h, g, p) >= size ==> r == (h, p) && g' == g)
            && (r.1 == 0 ==> r.0 == h && g' == g)
            && (r.1 != 0 ==>
                  && LiveAt(g', r.1) && Cap(r.0, g', r.1) >= size
                  && SameWords(h.mem, p, r.0.mem, r.1, Cap(h, g, p) / 8))
            && (forall q, a :: InLive(h, g, q, a) && q != p ==> LiveAt(g', q) && Word(r.0.mem, a) == Word(h.mem, a))
  {
    hide Inv, Malloc, MallocShadow, CapOf, CapSeen, AfterFree, Free, CopyWords;
    CurrentSize(h, g);
    SeesCap(h, g, p);
    MallocKeeps(h, g, size, region);
    var m := Malloc(h, size, region);
    if Cap(h, g, p) < size && m.1 != 0 {
      MoveKeeps(h, g, p, size, region);
      var g1 := MallocShadow(h, g, size, region);
      var n := Cap(h, g, p) / 8;
      var h1 := m.0.(mem := CopyWords(m.0.mem, p, m.1, n));
      FreeReleasesIff(h1, g1, p);
      FreedMove(h, g, h1, g1, Free(h1, p), AfterFree(h1, g1, p), p, m.1, n, size);
    }
  }

  /** realloc of null is malloc, and to size 0 gives the block back and returns null. */
  lemma ReallocEdges(h: Heap, g: Shadow, p: nat, size: nat, region: Option<nat>)
    requires Inv(h, g) && (p == 0 || LiveAt(g, p))
    ensures |h.heads| == NUM_CLASSES && |h.current| == NUM_CLASSES
    ensures p == 0 ==> Realloc(h, p, size, region) == Malloc(h, size, region)
    ensures p != 0 && size == 0 ==>
            && Realloc(h, p, size, region).1 == 0
            && (!LooksFreed(h, g, p) ==> Released(h, g, Realloc(h, p, size, region).0, AfterFree(h, g, p), p))
  {
    hide Inv, Malloc, Free, AfterFree, CapSeen, Released, LooksFreed;
    CurrentSize(h, g);
    if p != 0 {
      FreeReleasesIff(h, g, p);
    }
  }

  /** Giving the old block back disturbs neither the new one nor any other. */
  lemma FreedMove(h: Heap, g: Shadow, h1: Heap, g1: Shadow, h2: Heap, g2: Shadow, p: nat, q0: nat, n: nat, size: nat)
    requires Inv(h, g) && LiveAt(g, p) && LiveAt(g1, p) && p != q0 && 8 * n <= Cap(h, g, p) < size <= Cap(h1, g1, q0)
    requires (forall q :: LiveAt(g1, q) <==> LiveAt(g, q) || q == q0)
      && (forall q :: LiveAt(g, q) ==> Cap(h1, g1, q) == Cap(h, g, q))
    requires SameWords(h.mem, p, h1.mem, q0, n)
      && (forall q, a :: InLive(h, g, q, a) ==> Word(h1.mem, a) == Word(h.mem, a))
    requires (h2 == h1 && g2 == g1) || Released(h1, g1, h2, g2, p)
    ensures LiveAt(g2, q0) && Cap(h2, g2, q0) >= size && SameWords(h.mem, p, h2.mem, q0, n)
    ensures forall q, a :: InLive(h, g, q, a) && q != p ==> LiveAt(g2, q) && Word(h2.mem, a) == Word(h.mem, a)
  {
    hide Inv, CapOf, LiveAt;
    forall k | 0 <= k < n
      ensures Word(h2.mem, q0 + 8 * k) == Word(h.mem, p + 8 * k)
    {
      assert InLive(h1, g1, q0, q0 + 8 * k);
    }
    forall q: nat, a: nat | InLive(h, g, q, a) && q != p
      ensures LiveAt(g2, q) && Word(h2.mem, a) == Word(h.mem, a)
    {
      assert InLive(h1, g1, q, a);
    }
  }

  // ----- runs -----

  datatype Op =
    | MallocOp(size: nat, region: Option<nat>)
    | FreeOp(p: nat)
    | ReallocOp(p: nat, size: nat, region: Option<nat>)
    | StoreOp(p: nat, a: nat, v: nat)

  /** Programs store into blocks they hold, free or resize blocks they hold, or free one again. */
  ghost predicate WellBehaved(h: Heap, g: Shadow, op: Op) {
    match op
    case MallocOp(size, region) => KernelOk(h, g, size, region)
    case FreeOp(p) => p == 0 || LiveAt(g, p) || p in g.blocks
    case ReallocOp(p, size, region) => (p == 0 || LiveAt(g, p)) && KernelOk(h, g, size, region)
    case StoreOp(p, a, v) => InLive(h, g, p, a)
  }

  function StepHeap(h: Heap, op: Op): (r: Heap)
    requires |h.heads| == NUM_CLASSES && |h.current| == NUM_CLASSES
  {
    match op
    case MallocOp(size, region) => Malloc(h, size, region).0
    case FreeOp(p) => Free(h, p)
    case ReallocOp(p, size, region) => Realloc(h, p, size, region).0
    case StoreOp(p, a, v) => h.(mem := h.mem[a := v])
  }

  ghost function StepShadow(h: Heap, g: Shadow, op: Op): (r: Shadow)
    requires Inv(h, g) && WellBehaved(h, g, op)
  {
    match op
    case MallocOp(size, region) => MallocShadow(h, g, size, region)
    case FreeOp(p) => AfterFree(h, g, p)
    case ReallocOp(p, size, region) => ReallocShadow(h, g, p, size, region)
    case StoreOp(p, a, v) => g
  }

  lemma NullNotLive(h: Heap, g: Shadow)
    requires Inv(h, g)
    ensures 0 !in g.blocks && 0 !in g.large
  {
    hide Inv;
    if 0 in g.blocks { SmallFacts(h, g, 0); } else if 0 in g.large { LargeBig(h, g, 0); }
  }

  lemma FreeStep(h: Heap, g: Shadow, p: nat)
    requires Inv(h, g) && (p == 0 || LiveAt(g, p) || p in g.blocks)
    ensures |h.heads| == NUM_CLASSES && Inv(Free(h, p), AfterFree(h, g, p))
  {
    hide Inv, FreeShadow;
    CurrentSize(h, g);
    NullNotLive(h, g);
    if LiveAt(g, p) {
      FreeReleasesIff(h, g, p);
    } else if p != 0 {
      DoubleFreeHarmless(h, g, p);
    }
  }

  lemma StepKeeps(h: Heap, g: Shadow, op: Op)
    requires Inv(h, g) && WellBehaved(h, g, op)
    ensures |h.heads| == NUM_CLASSES && |h.current| == NUM_CLASSES && Inv(StepHeap(h, op), StepShadow(h, g, op))
  {
    hide Inv, Malloc, MallocShadow, Free, AfterFree, FreshRegion, Realloc;
    CurrentSize(h, g);
    match op
    case MallocOp(size, region) => MallocKeeps(h, g, size, region);
    case FreeOp(p) => FreeStep(h, g, p);
    case ReallocOp(p, size, region) => ReallocStep(h, g, p, size, region);
    case StoreOp(p, a, v) => LiveStoreKeeps(h, g, p, a, v);
  }

  lemma ReallocStep(h: Heap, g: Shadow, p: nat, size: nat, region: Option<nat>)
    requires Inv(h, g) && (p == 0 || LiveAt(g, p)) && KernelOk(h, g, size, region)
    ensures |h.heads| == NUM_CLASSES && |h.current| == NUM_CLASSES
    ensures Inv(Realloc(h, p, size, region).0, ReallocShadow(h, g, p, size, region))
  {
    hide Inv, Malloc, MallocShadow, Free, AfterFree, CapSeen, CopyWords;
    CurrentSize(h, g);
    if p == 0 {
      MallocKeeps(h, g, size, region);
    } else if size == 0 {
      FreeStep(h, g, p);
    } else {
      ReallocKeeps(h, g, p, size, region);
    }
  }

  ghost predicate StepsTo(h: Heap, g: Shadow, op: Op, h': Heap, g': Shadow) {
    && WellBehaved(h, g, op) && |h.heads| == NUM_CLASSES && |h.current| == NUM_CLASSES
    && h' == StepHeap(h, op) && (Inv(h, g) ==> g' == StepShadow(h, g, op))
  }

  ghost predicate Run(hs: seq<Heap>, gs: seq<Shadow>, ops: seq<Op>) {
    && |hs| == |ops| + 1 && |gs| == |hs|
    && forall i :: 0 <= i < |ops| ==> StepsTo(hs[i], gs[i], ops[i], hs[i + 1], gs[i + 1])
  }

  lemma StepsToKeeps(h: Heap, g: Shadow, op: Op, h': Heap, g': Shadow)
    requires Inv(h, g) && StepsTo(h, g, op, h', g')
    ensures Inv(h', g')
  {
    hide Inv, StepHeap, StepShadow, WellBehaved;
    StepKeeps(h, g, op);
  }

  /** Every state of every well-behaved run from the empty heap is sound. */
  lemma {:induction false} RunKeeps(hs: seq<Heap>, gs: seq<Shadow>, ops: seq<Op>, k: nat)
    requires Run(hs, gs, ops) && hs[0] == EMPTY_HEAP && gs[0] == EMPTY_SHADOW && k <= |ops|
    ensures Inv(hs[k], gs[k])
  {
    hide Inv, StepsTo;
    if k == 0 {
      EmptyOk();
    } else {
      RunKeeps(hs, gs, ops, k - 1);
      StepsToKeeps(hs[k - 1], gs[k - 1], ops[k - 1], hs[k], gs[k]);
    }
  }

  // ----- the allocator's own form -----

  class Allocator {
    var mem: Mem
    var freeLists: seq<nat>
    var currentArenas: seq<nat>
    var arenaRecords: seq<Record>

    ghost predicate Valid()
      reads this
    {
      |freeLists| == NUM_CLASSES && |currentArenas| == NUM_CLASSES
    }

    function Value(): (h: Heap)
      reads this
    {
      Heap(mem, freeLists, currentArenas, arenaRecords)
    }

    constructor ()
      ensures Valid() && Value() == EMPTY_HEAP
    {
      mem, freeLists, currentArenas, arenaRecords := map[], [0, 0, 0, 0, 0, 0, 0, 0], [0, 0, 0, 0, 0, 0, 0, 0], [];
    }

    /** The class search loop. */
    method FindClass(size: nat) returns (c: nat)
      requires size <= SMALL_MAX
      ensures c == ClassFor(size)
    {
      c := 0;
      while c < NUM_CLASSES - 1 && Size(c) < size
        invariant 0 <= c < NUM_CLASSES && ClassFrom(size, c) == ClassFor(size)
      {
        c := c + 1;
      }
    }

    method MallocBlock(size: nat, region: Option<nat>) returns (p: nat)
      requires Valid()
      modifies this
      ensures Valid() && (Value(), p) == Malloc(old(Value()), size, region)
    {
      hide Size, ClassFor, RoundUp, ZeroFill;
      if size == 0 {
        return 0;
      }
      if size > SMALL_MAX {
        p := MapLarge(size, region);
        return;
      }
      var c := FindClass(size);
      var node := freeLists[c];
      if node != 0 {
        freeLists := freeLists[c := Word(mem, node)];
        mem := mem[node + 8 := 0];
        return node;
      }
      var arena := currentArenas[c];
      if arena != 0 && Word(mem, arena + 16) + Size(c) <= ARENA_SIZE {
        p := arena + Word(mem, arena + 16);
        mem := mem[arena + 16 := Word(mem, arena + 16) + Size(c)];
        return;
      }
      if |arenaRecords| >= MAX_ARENAS || region.None? {
        return 0;
      }
      p := AddArena(c, region.value);
    }

    /** Blocks above the classes get a mapping of their own. */
    method MapLarge(size: nat, region: Option<nat>) returns (p: nat)
      requires Valid()
      modifies this`mem
      ensures Valid()
      ensures (Value(), p) == if region.None? then (old(Value()), 0) else NewLarge(old(Value()), size, region.value)
    {
      hide RoundUp, ZeroFill;
      if region.None? {
        return 0;
      }
      p := region.value;
      mem := ZeroFill(mem, p, RoundUp(size + 16));
      mem := mem[p := RoundUp(size + 16)];
      mem := mem[p + 8 := LARGE_MAGIC];
      p := p + 16;
    }

    /** Sets up a new arena and takes its first block. */
    method AddArena(c: nat, a: nat) returns (p: nat)
      requires Valid() && c < NUM_CLASSES
      modifies this
      ensures Valid() && (Value(), p) == NewArena(old(Value()), c, a)
    {
      hide Size, ZeroFill;
      mem := ZeroFill(mem, a, ARENA_SIZE);
      mem := mem[a := ARENA_MAGIC];
      mem := mem[a + 8 := c];
      mem := mem[a + 16 := HEADER + Size(c)];
      mem := mem[a + 24 := currentArenas[c]];
      currentArenas := currentArenas[c := a];
      arenaRecords := arenaRecords + [Record(a, c)];
      p := a + HEADER;
    }

    /** The loop over the arena table. */
    method FindArena(p: nat) returns (i: Option<nat>)
      ensures i == FindRecord(arenaRecords, p, 0)
    {
      var k := 0;
      while k < |arenaRecords|
        invariant 0 <= k <= |arenaRecords| && FindRecord(arenaRecords, p, k) == FindRecord(arenaRecords, p, 0)
      {
        if arenaRecords[k].start <= p < arenaRecords[k].start + ARENA_SIZE {
          return Some(k);
        }
        k := k + 1;
      }
      i := None;
    }

    method FreeBlock(p: nat)
      requires Valid()
      modifies this`mem, this`freeLists
      ensures Valid() && Value() == Free(old(Value()), p)
    {
      hide FindRecord;
      if p == 0 {
        return;
      }
      var i := FindArena(p);
      if i.Some? {
        var c := arenaRecords[i.value].cls;
        if Word(mem, p + 8) != FREE_MAGIC && c < NUM_CLASSES {
          mem := mem[p + 8 := FREE_MAGIC];
          mem := mem[p := freeLists[c]];
          freeLists := freeLists[c := p];
        }
      } else if p >= 16 && Word(mem, p - 8) == LARGE_MAGIC {
        mem := mem[p - 8 := 0];
      }
    }

    method CopyBlock(src: nat, dst: nat, n: nat)
      requires dst + 8 * n <= src || src + 8 * n <= dst
      modifies this`mem
      ensures mem == CopyWords(old(mem), src, dst, n)
    {
      var i := 0;
      while i < n
        invariant 0 <= i <= n && mem == CopyWords(old(mem), src, dst, i)
      {
        CopiedWord(old(mem), src, dst, i, src + 8 * i);
        mem := mem[dst + 8 * i := Word(mem, src + 8 * i)];
        i := i + 1;
      }
    }

    /** Resizes a block. The caller's block and the new one do not overlap, as ReallocKeeps shows. */
    method ReallocBlock(p: nat, size: nat, region: Option<nat>, ghost g: Shadow) returns (q: nat)
      requires Valid() && Inv(Value(), g) && (p == 0 || LiveAt(g, p)) && KernelOk(Value(), g, size, region)
      modifies this
      ensures Valid() && (Value(), q) == Realloc(old(Value()), p, size, region)
    {
      hide Inv, Malloc, Free, CapSeen, CopyWords, KernelOk, FindRecord;
      if p == 0 {
        q := MallocBlock(size, region);
        return;
      }
      if size == 0 {
        FreeBlock(p);
        return 0;
      }
      ghost var h := Value();
      var cap := CapSeen(Value(), p);
      if cap.None? {
        return 0;
      }
      if cap.value >= size {
        return p;
      }
      MoveApart(h, g, p, size, region, cap.value);
      q := MallocBlock(size, region);
      if q != 0 {
        CopyBlock(p, q, cap.value / 8);
        FreeBlock(p);
      }
    }
  }

  lemma MoveApart(h: Heap, g: Shadow, p: nat, size: nat, region: Option<nat>, cap: nat)
    requires Inv(h, g) && LiveAt(g, p) && KernelOk(h, g, size, region) && CapSeen(h, p) == Some(cap) && cap < size
    ensures |h.heads| == NUM_CLASSES && |h.current| == NUM_CLASSES
    ensures var q := Malloc(h, size, region).1; q != 0 ==> q + 8 * (cap / 8) <= p || p + 8 * (cap / 8) <= q
  {
    hide Inv, Malloc, MallocShadow, CapSeen, KernelOk, CapOf;
    CurrentSize(h, g);
    SeesCap(h, g, p);
    MallocKeeps(h, g, size, region);
    var m := Malloc(h, size, region);
    if m.1 != 0 {
      LiveBlocksApart(m.0, MallocShadow(h, g, size, region), m.1, p);
    }
  }
}

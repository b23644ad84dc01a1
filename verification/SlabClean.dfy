/** A program that never stores the mark of freed blocks never has a block taken for a freed one: no
    word that is handed out, or can be, holds the mark. */
module SlabClean {
  import opened Common
  import opened Slab
  import opened SlabRuns

  /** `a` is a word of the arena that no block has reached yet. */
  ghost predicate Unreached(h: Heap, i: nat, a: nat) {
    i < |h.records| && h.records[i].start + BumpOf(h.mem, h.records[i]) <= a && a + 8 <= h.records[i].start + ARENA_SIZE
  }

  ghost predicate InLarge(g: Shadow, p: nat, a: nat) {
    p in g.large && p <= a && a + 24 <= p + g.large[p]
  }

  /** Only the second word of a free block holds the mark. */
  ghost predicate CleanBlocks(h: Heap, g: Shadow) {
    forall p, a :: InBlock(h.records, g.blocks, p, a) && Word(h.mem, a) == FREE_MAGIC ==>
      !g.blocks[p].live && a == p + 8
  }

  ghost predicate CleanArenas(h: Heap) {
    forall i, a :: Unreached(h, i, a) ==> Word(h.mem, a) != FREE_MAGIC
  }

  ghost predicate CleanLarge(h: Heap, g: Shadow) {
    forall p, a :: InLarge(g, p, a) ==> Word(h.mem, a) != FREE_MAGIC
  }

  ghost predicate Clean(h: Heap, g: Shadow) {
    CleanBlocks(h, g) && CleanArenas(h) && CleanLarge(h, g)
  }

  /** So no live block looks freed. */
  lemma CleanNotFreed(h: Heap, g: Shadow, p: nat)
    requires Inv(h, g) && Clean(h, g) && LiveAt(g, p)
    ensures !LooksFreed(h, g, p)
  {
    hide Inv, CleanArenas, CleanLarge, InBlock;
    if p in g.blocks {
      NodeWords(h, g, p);
      if p in g.large { NotBoth(h, g, p); }
      assert InBlock(h.records, g.blocks, p, p + 8);
    }
  }

  // ----- stores -----

  /** A store of anything else, outside the bump offsets. */
  lemma CleanStore(h: Heap, g: Shadow, a: nat, v: nat)
    requires Clean(h, g) && v != FREE_MAGIC && forall i :: 0 <= i < |h.records| ==> a != h.records[i].start + 16
    ensures Clean(h.(mem := h.mem[a := v]), g)
  {
    hide CapOf, InLarge;
    var h' := h.(mem := h.mem[a := v]);
    forall i: nat, x: nat | Unreached(h', i, x)
      ensures Word(h'.mem, x) != FREE_MAGIC
    {
      assert Unreached(h, i, x);
    }
    forall p: nat, x: nat | InBlock(h.records, g.blocks, p, x) && Word(h'.mem, x) == FREE_MAGIC
      ensures !g.blocks[p].live && x == p + 8
    {
      assert Word(h.mem, x) == FREE_MAGIC;
    }
  }

  lemma LiveStoreClean(h: Heap, g: Shadow, p: nat, a: nat, v: nat)
    requires Inv(h, g) && Clean(h, g) && InLive(h, g, p, a) && v != FREE_MAGIC
    ensures Clean(h.(mem := h.mem[a := v]), g)
  {
    hide Inv, Clean, InLive;
    forall i | 0 <= i < |h.records|
      ensures a != h.records[i].start + 16
    {
      HeaderNotLive(h, g, i, p, a);
    }
    CleanStore(h, g, a, v);
  }

  /** Words of live blocks do not hold the mark. */
  lemma LiveWordClean(h: Heap, g: Shadow, p: nat, a: nat)
    requires Inv(h, g) && Clean(h, g) && InLive(h, g, p, a)
    ensures Word(h.mem, a) != FREE_MAGIC
  {
    hide Inv, CleanArenas, CapOf;
    if p in g.blocks {
      NotBoth(h, g, p);
      assert InBlock(h.records, g.blocks, p, a);
    } else {
      LargeBig(h, g, p);
      assert InLarge(g, p, a);
    }
  }

  lemma {:induction false} CopyClean(h: Heap, g: Shadow, src: nat, dst: nat, n: nat)
    requires Inv(h, g) && Clean(h, g) && LiveAt(g, dst) && 8 * n <= Cap(h, g, dst)
    requires forall k :: 0 <= k < n ==> Word(h.mem, src + 8 * k) != FREE_MAGIC
    ensures Clean(h.(mem := CopyWords(h.mem, src, dst, n)), g)
  {
    hide Inv, Clean;
    if n > 0 {
      CopyClean(h, g, src, dst, n - 1);
      CopyKeeps(h, g, src, dst, n - 1);
      var h1 := h.(mem := CopyWords(h.mem, src, dst, n - 1));
      LiveStoreClean(h1, g, dst, dst + 8 * (n - 1), Word(h.mem, src + 8 * (n - 1)));
    }
  }

  // ----- malloc -----

  lemma PopClean(h: Heap, g: Shadow, c: nat)
    requires Inv(h, g) && Clean(h, g) && c < NUM_CLASSES && |h.heads| == NUM_CLASSES && h.heads[c] != 0
    requires |g.lists| == NUM_CLASSES && g.lists[c] != [] && g.lists[c][0] in g.blocks
    ensures Clean(Pop(h, c).0, PopShadow(h, g, c))
  {
    hide Inv, Clean, InBlock, PopShadow, Pop;
    InvGives(h, g);
    HeadFirst(h, g, c);
    var node := h.heads[c];
    NodeWords(h, g, node);
    forall i | 0 <= i < |h.records|
      ensures node + 8 != h.records[i].start + 16
    {
      BlockApart(h, g, node, node + 8, i);
    }
    CleanStore(h, g, node + 8, 0);
    PoppedClean(h, g, c);
  }

  lemma PoppedClean(h: Heap, g: Shadow, c: nat)
    requires c < |h.heads| && c < |g.lists| && g.lists[c] != [] && g.lists[c][0] == h.heads[c] && h.heads[c] in g.blocks
    requires Clean(h.(mem := h.mem[h.heads[c] + 8 := 0]), g)
    ensures Clean(Pop(h, c).0, PopShadow(h, g, c))
  {
    hide CleanLarge, Size;
    var h1 := h.(mem := h.mem[h.heads[c] + 8 := 0]);
    var h', g' := Pop(h, c).0, PopShadow(h, g, c);
    forall p: nat, x: nat | InBlock(h'.records, g'.blocks, p, x) && Word(h'.mem, x) == FREE_MAGIC
      ensures !g'.blocks[p].live && x == p + 8
    {
      assert InBlock(h1.records, g.blocks, p, x);
    }
    forall i: nat, x: nat | Unreached(h', i, x)
      ensures Word(h'.mem, x) != FREE_MAGIC
    {
      assert Unreached(h1, i, x);
    }
    SameLarge(h1, h', g, g');
  }

  lemma SameLarge(h: Heap, h': Heap, g: Shadow, g': Shadow)
    requires CleanLarge(h, g) && h'.mem == h.mem && g'.large == g.large
    ensures CleanLarge(h', g')
  {
    forall p: nat, a: nat | InLarge(g', p, a)
      ensures Word(h'.mem, a) != FREE_MAGIC
    {
      assert InLarge(g, p, a);
    }
  }

  lemma BumpClean(h: Heap, g: Shadow, c: nat, i: nat)
    requires Inv(h, g) && Clean(h, g) && c < NUM_CLASSES && |h.current| == NUM_CLASSES && i < |h.records|
    requires h.records[i] == Record(h.current[c], c) && Word(h.mem, h.current[c] + 16) + Size(c) <= ARENA_SIZE
    ensures Clean(Bump(h, c).0, AddLive(g, Bump(h, c).1, i))
  {
    hide Inv, Size;
    InvGives(h, g);
    var r := Bump(h, c);
    var g' := AddLive(g, r.1, i);
    assert r.0.mem == h.mem[h.records[i].start + 16 := BumpOf(h.mem, h.records[i]) + Size(c)];
    forall p: nat, x: nat | InBlock(h.records, g'.blocks, p, x)
      ensures Word(r.0.mem, x) == FREE_MAGIC ==> !g'.blocks[p].live && x == p + 8
    {
      if p == r.1 {
        assert Unreached(h, i, x);
      } else {
        assert InBlock(h.records, g.blocks, p, x);
      }
    }
    forall j: nat, x: nat | Unreached(r.0, j, x)
      ensures Word(r.0.mem, x) != FREE_MAGIC
    {
      BumpAfter(h, i, BumpOf(h.mem, h.records[i]) + Size(c), j);
      assert Unreached(h, j, x);
    }
    forall p: nat, x: nat | InLarge(g', p, x)
      ensures Word(r.0.mem, x) != FREE_MAGIC
    {
      assert InLarge(g, p, x);
    }
  }

  /** Arenas, blocks and large blocks lie outside a region the kernel maps. */
  lemma OutsideRegion(h: Heap, g: Shadow, a: nat, n: nat, x: nat)
    requires Inv(h, g) && FreshRegion(h, g, a, n)
    ensures forall p :: InBlock(h.records, g.blocks, p, x) ==> !Within(x, a, n)
    ensures forall i :: Unreached(h, i, x) ==> !Within(x, a, n)
    ensures forall p :: InLarge(g, p, x) ==> !Within(x, a, n)
  {
    hide Inv, FreshRegion;
    forall p: nat | InBlock(h.records, g.blocks, p, x)
      ensures !Within(x, a, n)
    {
      SmallFacts(h, g, p);
      ApartFromArena(h, g, a, n, g.blocks[p].arena);
    }
    forall i: nat | Unreached(h, i, x)
      ensures !Within(x, a, n)
    {
      ApartFromArena(h, g, a, n, i);
    }
    forall p: nat | InLarge(g, p, x)
      ensures !Within(x, a, n)
    {
      ApartFromLarge(h, g, a, n, p);
    }
  }

  lemma ApartFromArena(h: Heap, g: Shadow, a: nat, n: nat, i: nat)
    requires FreshRegion(h, g, a, n) && i < |h.records|
    ensures a + n <= h.records[i].start || h.records[i].start + ARENA_SIZE <= a || n == 0
  {
    assert !Clash(a, n, h.records[i].start, ARENA_SIZE);
  }

  lemma ApartFromLarge(h: Heap, g: Shadow, a: nat, n: nat, p: nat)
    requires FreshRegion(h, g, a, n) && p in g.large
    ensures p >= 16 && (a + n <= p - 16 || p - 16 + g.large[p] <= a || n == 0 || g.large[p] == 0)
  {
    assert !Clash(a, n, p - 16, g.large[p]);
  }

  /** Memory that changed in the region only is as clean as it was, outside. */
  lemma CleanOutside(h: Heap, g: Shadow, mem': Mem, a: nat, n: nat)
    requires Inv(h, g) && Clean(h, g) && FreshRegion(h, g, a, n)
    requires forall x: nat :: !Within(x, a, n) ==> Word(mem', x) == Word(h.mem, x)
    ensures Clean(h.(mem := mem'), g)
  {
    hide Inv, FreshRegion, InLarge, CapOf, Within;
    var h' := h.(mem := mem');
    RegionApart(h, g, a, n);
    forall i | 0 <= i < |h.records|
      ensures BumpOf(mem', h.records[i]) == BumpOf(h.mem, h.records[i])
    {
      assert !Within(h.records[i].start + 16, a, n);
    }
    forall p: nat, x: nat | InBlock(h.records, g.blocks, p, x) && Word(mem', x) == FREE_MAGIC
      ensures !g.blocks[p].live && x == p + 8
    {
      OutsideRegion(h, g, a, n, x);
    }
    forall i: nat, x: nat | Unreached(h', i, x)
      ensures Word(mem', x) != FREE_MAGIC
    {
      assert Unreached(h, i, x);
      OutsideRegion(h, g, a, n, x);
    }
    forall p: nat, x: nat | InLarge(g, p, x)
      ensures Word(mem', x) != FREE_MAGIC
    {
      OutsideRegion(h, g, a, n, x);
    }
  }

  lemma ArenaWords(h: Heap, c: nat, a: nat, x: nat)
    requires c < |h.current|
    ensures !Within(x, a, ARENA_SIZE) ==> Word(NewArena(h, c, a).0.mem, x) == Word(h.mem, x)
    ensures a + HEADER <= x < a + ARENA_SIZE ==> Word(NewArena(h, c, a).0.mem, x) == 0
  {
    hide ZeroFill, Size;
    assert Within(x, a, ARENA_SIZE) ==> Word(ZeroFill(h.mem, a, ARENA_SIZE), x) == 0;
  }

  lemma NewArenaAt(h: Heap, c: nat, a: nat)
    requires c < |h.current|
    ensures NewArena(h, c, a).1 == a + HEADER
  {
  }

  lemma NewArenaClean(h: Heap, g: Shadow, c: nat, a: nat)
    requires Inv(h, g) && Clean(h, g) && c < NUM_CLASSES && |h.current| == NUM_CLASSES
      && FreshRegion(h, g, a, ARENA_SIZE)
    requires |h.records| < MAX_ARENAS
    ensures Clean(NewArena(h, c, a).0, AddLive(g, NewArena(h, c, a).1, |h.records|))
  {
    hide Inv, Clean, FreshRegion, NewArena;
    var r := NewArena(h, c, a);
    forall x: nat
      ensures !Within(x, a, ARENA_SIZE) ==> Word(r.0.mem, x) == Word(h.mem, x)
      ensures a + HEADER <= x < a + ARENA_SIZE ==> Word(r.0.mem, x) == 0
    {
      ArenaWords(h, c, a, x);
    }
    CleanOutside(h, g, r.0.mem, a, ARENA_SIZE);
    NewArenaKeeps(h, g, c, a);
    NewArenaAt(h, c, a);
    ArenaAddedClean(h, g, c, a, r.0);
  }

  lemma ArenaAddedClean(h: Heap, g: Shadow, c: nat, a: nat, h': Heap)
    requires Clean(h.(mem := h'.mem), g) && c < |h.current| && h' == NewArena(h, c, a).0 && Inv(h, g)
    requires forall x: nat :: a + HEADER <= x < a + ARENA_SIZE ==> Word(h'.mem, x) == 0
    requires Inv(h', AddLive(g, a + HEADER, |h.records|)) && a + HEADER !in g.blocks
    ensures Clean(h', AddLive(g, a + HEADER, |h.records|))
  {
    hide Inv, ZeroFill, Size, CleanLarge;
    var h1 := h.(mem := h'.mem);
    var g' := AddLive(g, a + HEADER, |h.records|);
    forall p: nat, x: nat | InBlock(h'.records, g'.blocks, p, x) && Word(h'.mem, x) == FREE_MAGIC
      ensures !g'.blocks[p].live && x == p + 8
    {
      SmallFacts(h', g', p);
      if p != a + HEADER {
        BlockHasArena(h, g, p);
        assert InBlock(h1.records, g.blocks, p, x);
      }
    }
    forall i: nat, x: nat | Unreached(h', i, x)
      ensures Word(h'.mem, x) != FREE_MAGIC
    {
      if i < |h.records| {
        assert Unreached(h1, i, x);
      } else {
        BumpFits(h', g', i);
      }
    }
    SameLarge(h1, h', g, g');
  }

  lemma LargeWords(h: Heap, size: nat, a: nat, x: nat)
    ensures !Within(x, a, RoundUp(size + 16)) ==> Word(NewLarge(h, size, a).0.mem, x) == Word(h.mem, x)
    ensures a + 16 <= x < a + RoundUp(size + 16) ==> Word(NewLarge(h, size, a).0.mem, x) == 0
  {
    hide ZeroFill, RoundUp;
    TotalFits(size);
    assert Within(x, a, RoundUp(size + 16)) ==> Word(ZeroFill(h.mem, a, RoundUp(size + 16)), x) == 0;
  }

  lemma NewLargeClean(h: Heap, g: Shadow, size: nat, a: nat)
    requires Inv(h, g) && Clean(h, g) && FreshRegion(h, g, a, RoundUp(size + 16))
    ensures Clean(NewLarge(h, size, a).0, LargeShadow(g, size, a))
  {
    hide Inv, CleanBlocks, CleanArenas, FreshRegion, NewLarge, RoundUp;
    var n := RoundUp(size + 16);
    var r := NewLarge(h, size, a);
    forall x: nat
      ensures !Within(x, a, n) ==> Word(r.0.mem, x) == Word(h.mem, x)
      ensures a + 16 <= x < a + n ==> Word(r.0.mem, x) == 0
    {
      LargeWords(h, size, a, x);
    }
    CleanOutside(h, g, r.0.mem, a, n);
    LargeOnly(h, size, a);
    var g' := LargeShadow(g, size, a);
    forall p: nat, x: nat | InLarge(g', p, x)
      ensures Word(r.0.mem, x) != FREE_MAGIC
    {
      if p != a + 16 {
        assert InLarge(g, p, x);
      }
    }
    SameRest(h.(mem := r.0.mem), r.0, g, g');
  }

  lemma LargeOnly(h: Heap, size: nat, a: nat)
    ensures var r := NewLarge(h, size, a).0; r == h.(mem := r.mem)
  {
  }

  lemma SameRest(h: Heap, h': Heap, g: Shadow, g': Shadow)
    requires h' == h && g'.blocks == g.blocks && CleanBlocks(h, g) && CleanArenas(h)
    ensures CleanBlocks(h', g') && CleanArenas(h')
  {
    hide CapOf;
    forall p: nat, x: nat | InBlock(h'.records, g'.blocks, p, x) && Word(h'.mem, x) == FREE_MAGIC
      ensures !g'.blocks[p].live && x == p + 8
    {
      assert InBlock(h.records, g.blocks, p, x);
    }
  }

  lemma MallocClean(h: Heap, g: Shadow, size: nat, region: Option<nat>)
    requires Inv(h, g) && Clean(h, g) && KernelOk(h, g, size, region)
    ensures |h.heads| == NUM_CLASSES && |h.current| == NUM_CLASSES
    ensures Clean(Malloc(h, size, region).0, MallocShadow(h, g, size, region))
  {
    hide Inv, Clean, FreshRegion, Size, ClassFor, Pop, Bump, NewArena, NewLarge, RoundUp, PopShadow, AddLive,
      LargeShadow;
    CurrentSize(h, g);
    MallocKeeps(h, g, size, region);
    if size > SMALL_MAX {
      if region.Some? { NewLargeClean(h, g, size, region.value); NewLargeAt(h, size, region.value); }
    } else if size > 0 {
      var c := ClassFor(size);
      if h.heads[c] != 0 {
        PopKeeps(h, g, c);
        PopClean(h, g, c);
        PopAt(h, c);
      } else if h.current[c] != 0 && Word(h.mem, h.current[c] + 16) + Size(c) <= ARENA_SIZE {
        var i := BumpKeeps(h, g, c);
        BumpClean(h, g, c, i);
      } else if |h.records| < MAX_ARENAS && region.Some? {
        NewArenaClean(h, g, c, region.value);
      }
    }
  }

  // ----- free -----

  /** A free list's head is no mark: blocks are aligned. */
  lemma HeadNoMark(h: Heap, g: Shadow, c: nat)
    requires Inv(h, g) && c < NUM_CLASSES && |h.heads| == NUM_CLASSES
    ensures h.heads[c] != FREE_MAGIC
  {
    hide Inv, CapOf;
    InvGives(h, g);
    if h.heads[c] != 0 {
      HeadIsFree(h, g, c);
      SmallFacts(h, g, h.heads[c]);
    }
  }

  lemma PushFreeClean(h: Heap, g: Shadow, c: nat, p: nat)
    requires Inv(h, g) && Clean(h, g) && c < NUM_CLASSES && |h.heads| == NUM_CLASSES && |g.lists| == NUM_CLASSES
    requires p in g.blocks && g.blocks[p].live
    ensures Clean(PushFree(h, c, p), FreeShadow(h, g, c, p))
  {
    hide Inv, Size;
    HeadNoMark(h, g, c);
    NodeWords(h, g, p);
    var h', g' := PushFree(h, c, p), FreeShadow(h, g, c, p);
    forall q: nat, x: nat | InBlock(h'.records, g'.blocks, q, x) && Word(h'.mem, x) == FREE_MAGIC
      ensures !g'.blocks[q].live && x == q + 8
    {
      assert InBlock(h.records, g.blocks, q, x);
      if q != p { BlocksApart(h, g, p, q, x); }
    }
    forall i: nat, x: nat | Unreached(h', i, x)
      ensures Word(h'.mem, x) != FREE_MAGIC
    {
      BlockApart(h, g, p, p, i);
      BlockApart(h, g, p, p + 8, i);
      assert Unreached(h, i, x);
      AboveBlocks(h, g, p, i, x);
    }
    forall q: nat, x: nat | InLarge(g', q, x)
      ensures Word(h'.mem, x) != FREE_MAGIC
    {
      assert InLarge(g, q, x);
      LargeApart(h, g, p, q, x);
    }
  }

  lemma BlocksApart(h: Heap, g: Shadow, p: nat, q: nat, x: nat)
    requires Inv(h, g) && p in g.blocks && q != p && InBlock(h.records, g.blocks, q, x)
    ensures x != p && x != p + 8
  {
    hide Inv, CapOf;
    SmallSmall(h, g, p, q);
    SmallFacts(h, g, p);
  }

  lemma AboveBlocks(h: Heap, g: Shadow, p: nat, i: nat, x: nat)
    requires Inv(h, g) && p in g.blocks && Unreached(h, i, x)
    ensures x != p && x != p + 8
  {
    hide Inv, CapOf;
    AboveBump(h, g, i, p);
    SmallFacts(h, g, p);
  }

  lemma LargeApart(h: Heap, g: Shadow, p: nat, q: nat, x: nat)
    requires Inv(h, g) && p in g.blocks && InLarge(g, q, x)
    ensures x != p && x != p + 8
  {
    hide Inv, CapOf;
    SmallLarge(h, g, p, q);
    SmallFacts(h, g, p);
  }

  lemma DropLargeClean(h: Heap, g: Shadow, p: nat)
    requires Inv(h, g) && Clean(h, g) && p in g.large
    ensures p >= 16 && Clean(h.(mem := h.mem[p - 8 := 0]), g.(large := g.large - {p}))
  {
    hide Inv, InBlock;
    LargeBig(h, g, p);
    forall i | 0 <= i < |h.records|
      ensures p - 8 != h.records[i].start + 16
    {
      LargeNotArena(h, g, p, i);
    }
    CleanStore(h, g, p - 8, 0);
    var h', g' := h.(mem := h.mem[p - 8 := 0]), g.(large := g.large - {p});
    SameRest(h', h', g, g');
    forall q: nat, x: nat | InLarge(g', q, x)
      ensures Word(h'.mem, x) != FREE_MAGIC
    {
      assert InLarge(g, q, x);
    }
  }

  lemma FreeClean(h: Heap, g: Shadow, p: nat)
    requires Inv(h, g) && Clean(h, g) && (p == 0 || LiveAt(g, p) || p in g.blocks)
    ensures |h.heads| == NUM_CLASSES && Clean(Free(h, p), AfterFree(h, g, p))
  {
    hide Inv, Clean, FreeShadow, PushFree, FindRecord;
    CurrentSize(h, g);
    NullNotLive(h, g);
    if p in g.large {
      NotInArena(h, g, p);
      LargeBig(h, g, p);
      DropLargeClean(h, g, p);
    } else if p in g.blocks && g.blocks[p].live {
      CleanNotFreed(h, g, p);
      FoundArena(h, g, p);
      SmallFacts(h, g, p);
      AlignedStart(h, g, g.blocks[p].arena);
      PushFreeClean(h, g, ClassOf(h.records, g.blocks[p]), p);
    } else if p != 0 {
      DoubleFreeHarmless(h, g, p);
    }
  }

  // ----- realloc -----

  lemma ReallocClean(h: Heap, g: Shadow, p: nat, size: nat, region: Option<nat>)
    requires Inv(h, g) && Clean(h, g) && (p == 0 || LiveAt(g, p)) && KernelOk(h, g, size, region)
    ensures |h.heads| == NUM_CLASSES && |h.current| == NUM_CLASSES
    ensures Clean(Realloc(h, p, size, region).0, ReallocShadow(h, g, p, size, region))
  {
    hide Inv, Clean, Malloc, MallocShadow, CapOf, CapSeen, AfterFree, Free, CopyWords, KernelOk;
    CurrentSize(h, g);
    MallocClean(h, g, size, region);
    if p != 0 && size == 0 {
      FreeClean(h, g, p);
    } else if p != 0 {
      SeesCap(h, g, p);
      MallocKeeps(h, g, size, region);
      var m := Malloc(h, size, region);
      if Cap(h, g, p) < size && m.1 != 0 {
        MoveKeeps(h, g, p, size, region);
        MovedClean(h, g, p, size, region);
      }
    }
  }

  lemma MovedClean(h: Heap, g: Shadow, p: nat, size: nat, region: Option<nat>)
    requires Inv(h, g) && Clean(h, g) && LiveAt(g, p) && KernelOk(h, g, size, region) && Cap(h, g, p) < size
    requires |h.heads| == NUM_CLASSES && |h.current| == NUM_CLASSES && Malloc(h, size, region).1 != 0
    ensures var m := Malloc(h, size, region); var g1 := MallocShadow(h, g, size, region);
            var h1 := m.0.(mem := CopyWords(m.0.mem, p, m.1, Cap(h, g, p) / 8));
            Inv(h1, g1) && LiveAt(g1, p) && |h1.heads| == NUM_CLASSES && Clean(Free(h1, p), AfterFree(h1, g1, p))
  {
    hide Inv, Clean, Malloc, MallocShadow, CapOf, AfterFree, Free, CopyWords, KernelOk, LiveAt;
    MallocKeeps(h, g, size, region);
    MallocClean(h, g, size, region);
    MoveKeeps(h, g, p, size, region);
    var m := Malloc(h, size, region);
    var g1 := MallocShadow(h, g, size, region);
    var n := Cap(h, g, p) / 8;
    forall k | 0 <= k < n
      ensures Word(m.0.mem, p + 8 * k) != FREE_MAGIC
    {
      assert InLive(h, g, p, p + 8 * k);
      LiveWordClean(h, g, p, p + 8 * k);
    }
    CopyClean(m.0, g1, p, m.1, n);
    var h1 := m.0.(mem := CopyWords(m.0.mem, p, m.1, n));
    CurrentSize(h1, g1);
    FreeClean(h1, g1, p);
  }

  // ----- runs -----

  /** The program does not store the mark. */
  predicate Honest(op: Op) {
    op.StoreOp? ==> op.v != FREE_MAGIC
  }

  lemma StepClean(h: Heap, g: Shadow, op: Op)
    requires Inv(h, g) && Clean(h, g) && WellBehaved(h, g, op) && Honest(op)
    ensures |h.heads| == NUM_CLASSES && |h.current| == NUM_CLASSES && Clean(StepHeap(h, op), StepShadow(h, g, op))
  {
    hide Inv, Clean, Malloc, MallocShadow, Free, AfterFree, Realloc, ReallocShadow, KernelOk, InLive, LiveAt;
    CurrentSize(h, g);
    match op
    case MallocOp(size, region) => MallocClean(h, g, size, region);
    case FreeOp(p) => FreeClean(h, g, p);
    case ReallocOp(p, size, region) => ReallocClean(h, g, p, size, region);
    case StoreOp(p, a, v) => LiveStoreClean(h, g, p, a, v);
  }

  lemma EmptyClean()
    ensures Clean(EMPTY_HEAP, EMPTY_SHADOW)
  {
  }

  lemma StepsToClean(h: Heap, g: Shadow, op: Op, h': Heap, g': Shadow)
    requires Inv(h, g) && Clean(h, g) && StepsTo(h, g, op, h', g') && Honest(op)
    ensures Clean(h', g')
  {
    hide Inv, Clean, StepHeap, StepShadow, WellBehaved, Honest;
    StepClean(h, g, op);
  }

  lemma {:induction false} RunClean(hs: seq<Heap>, gs: seq<Shadow>, ops: seq<Op>, k: nat)
    requires Run(hs, gs, ops) && hs[0] == EMPTY_HEAP && gs[0] == EMPTY_SHADOW && k <= |ops|
    requires forall i :: 0 <= i < |ops| ==> Honest(ops[i])
    ensures Clean(hs[k], gs[k])
  {
    hide Inv, Clean, StepsTo, Honest;
    if k == 0 {
      EmptyClean();
    } else {
      RunClean(hs, gs, ops, k - 1);
      RunKeeps(hs, gs, ops, k - 1);
      StepsToClean(hs[k - 1], gs[k - 1], ops[k - 1], hs[k], gs[k]);
    }
  }

  /** In every run of a program that never stores the mark, whatever blocks it reuses, free of a live
      block gives it back. */
  lemma FreeNeverIgnored(hs: seq<Heap>, gs: seq<Shadow>, ops: seq<Op>, k: nat)
    requires Run(hs, gs, ops) && hs[0] == EMPTY_HEAP && gs[0] == EMPTY_SHADOW && k < |ops|
    requires (forall i :: 0 <= i < |ops| ==> Honest(ops[i])) && ops[k].FreeOp? && LiveAt(gs[k], ops[k].p)
    ensures Released(hs[k], gs[k], hs[k + 1], gs[k + 1], ops[k].p)
  {
    hide Inv, Clean, LiveAt, Released, Free, AfterFree, Honest, Run;
    RunShape(hs, gs, ops);
    RunClean(hs, gs, ops, k);
    RunKeeps(hs, gs, ops, k);
    RunStep(hs, gs, ops, k);
    CleanNotFreed(hs[k], gs[k], ops[k].p);
    FreeReleasesIff(hs[k], gs[k], ops[k].p);
  }

  lemma RunShape(hs: seq<Heap>, gs: seq<Shadow>, ops: seq<Op>)
    requires Run(hs, gs, ops)
    ensures |hs| == |ops| + 1 && |gs| == |hs|
  {
  }

  lemma RunStep(hs: seq<Heap>, gs: seq<Shadow>, ops: seq<Op>, k: nat)
    requires Run(hs, gs, ops) && k < |ops|
    ensures StepsTo(hs[k], gs[k], ops[k], hs[k + 1], gs[k + 1])
  {
    hide StepsTo;
  }
}

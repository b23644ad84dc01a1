/** The C library's allocator: size classes served from 64 KiB arenas with free lists threaded through
    the freed blocks, and large blocks mapped one by one. Memory is modelled by 8-byte words. */
module Slab {
  import opened Common

  const FREE_MAGIC := 0x504F534958465245
  const LARGE_MAGIC := 0x504F5349584D454D
  const ARENA_MAGIC := 0x504F53495841524E
  const ARENA_SIZE := 0x1_0000
  const HEADER := 32
  const NUM_CLASSES := 8
  const SMALL_MAX := 2048
  const MAX_ARENAS := 512

  /** Words by address; an address never written reads as zero. */
  type Mem = map<nat, nat>

  function Word(mem: Mem, a: nat): (w: nat) {
    if a in mem then mem[a] else 0
  }

  datatype Record = Record(start: nat, cls: nat)

  /** The allocator's globals together with memory. */
  datatype Heap = Heap(mem: Mem, heads: seq<nat>, current: seq<nat>, records: seq<Record>)

  const EMPTY_HEAP := Heap(map[], [0, 0, 0, 0, 0, 0, 0, 0], [0, 0, 0, 0, 0, 0, 0, 0], [])

  // ----- size classes -----

  function Size(c: nat): (n: nat) {
    if c == 0 then 16 else if c == 1 then 32 else if c == 2 then 64 else if c == 3 then 128
    else if c == 4 then 256 else if c == 5 then 512 else if c == 6 then 1024 else 2048
  }

  lemma SizeFacts(c: nat)
    ensures 16 <= Size(c) <= SMALL_MAX && Size(c) % 16 == 0
  {
  }

  function ClassFrom(size: nat, c: nat): (r: nat)
    requires c < NUM_CLASSES && size <= SMALL_MAX
    ensures c <= r < NUM_CLASSES && (c == 7 || Size(c) >= size || r > c)
    decreases NUM_CLASSES - c
  {
    if c == 7 || Size(c) >= size then c else ClassFrom(size, c + 1)
  }

  /** The smallest class that holds `size` bytes. */
  function ClassFor(size: nat): (c: nat)
    requires size <= SMALL_MAX
    ensures c < NUM_CLASSES
  {
    ClassFrom(size, 0)
  }

  lemma {:induction false} ClassFromFits(size: nat, c: nat)
    requires c < NUM_CLASSES && size <= SMALL_MAX
    ensures Size(ClassFrom(size, c)) >= size
    ensures forall d :: c <= d < ClassFrom(size, c) ==> Size(d) < size
    decreases NUM_CLASSES - c
  {
    if c < 7 && Size(c) < size { ClassFromFits(size, c + 1); }
  }

  // ----- the calls -----

  function RoundUp(n: nat): (r: nat) {
    (n + PAGE_SIZE - 1) / PAGE_SIZE * PAGE_SIZE
  }

  function Pop(h: Heap, c: nat): (r: (Heap, nat))
    requires c < |h.heads|
  {
    var node := h.heads[c];
    (h.(heads := h.heads[c := Word(h.mem, node)], mem := h.mem[node + 8 := 0]), node)
  }

  function Bump(h: Heap, c: nat): (r: (Heap, nat))
    requires c < |h.current|
  {
    var arena := h.current[c];
    var off := Word(h.mem, arena + 16);
    (h.(mem := h.mem[arena + 16 := off + Size(c)]), arena + off)
  }

  /** Memory after the kernel has mapped `[a, a + n)`: its pages read as zeros. */
  function ZeroFill(mem: Mem, a: nat, n: nat): (r: Mem)
    ensures forall x: nat :: Word(r, x) == if a <= x < a + n then 0 else Word(mem, x)
  {
    map x | x in mem && !(a <= x < a + n) :: mem[x]
  }

  function NewArena(h: Heap, c: nat, a: nat): (r: (Heap, nat))
    requires c < |h.current|
  {
    var zeroed := ZeroFill(h.mem, a, ARENA_SIZE);
    var mem := zeroed[a := ARENA_MAGIC][a + 8 := c][a + 16 := HEADER + Size(c)][a + 24 := h.current[c]];
    (h.(mem := mem, current := h.current[c := a], records := h.records + [Record(a, c)]), a + HEADER)
  }

  function NewLarge(h: Heap, size: nat, a: nat): (r: (Heap, nat)) {
    (h.(mem := ZeroFill(h.mem, a, RoundUp(size + 16))[a := RoundUp(size + 16)][a + 8 := LARGE_MAGIC]), a + 16)
  }

  /** `region` is what the kernel answers if memory has to be mapped. */
  function Malloc(h: Heap, size: nat, region: Option<nat>): (r: (Heap, nat))
    requires |h.heads| == NUM_CLASSES && |h.current| == NUM_CLASSES
  {
    if size == 0 then (h, 0)
    else if size > SMALL_MAX then (if region.None? then (h, 0) else NewLarge(h, size, region.value))
    else
      var c := ClassFor(size);
      if h.heads[c] != 0 then Pop(h, c)
      else if h.current[c] != 0 && Word(h.mem, h.current[c] + 16) + Size(c) <= ARENA_SIZE then Bump(h, c)
      else if |h.records| >= MAX_ARENAS || region.None? then (h, 0)
      else NewArena(h, c, region.value)
  }

  /** The first record whose arena holds `p`. */
  function FindRecord(rs: seq<Record>, p: nat, i: nat): (r: Option<nat>)
    requires i <= |rs|
    ensures r.Some? ==> i <= r.value < |rs| && rs[r.value].start <= p < rs[r.value].start + ARENA_SIZE
    ensures forall j :: i <= j < (if r.Some? then r.value else |rs|) ==> !(rs[j].start <= p < rs[j].start + ARENA_SIZE)
    decreases |rs| - i
  {
    if i == |rs| then None
    else if rs[i].start <= p < rs[i].start + ARENA_SIZE then Some(i)
    else FindRecord(rs, p, i + 1)
  }

  function PushFree(h: Heap, c: nat, p: nat): (r: Heap)
    requires c < |h.heads|
  {
    h.(mem := h.mem[p + 8 := FREE_MAGIC][p := h.heads[c]], heads := h.heads[c := p])
  }

  function Free(h: Heap, p: nat): (r: Heap)
    requires |h.heads| == NUM_CLASSES
  {
    if p == 0 then h
    else
      var i := FindRecord(h.records, p, 0);
      if i.Some? then
        var c := h.records[i.value].cls;
        if Word(h.mem, p + 8) == FREE_MAGIC || c >= NUM_CLASSES then h else PushFree(h, c, p)
      else if p >= 16 && Word(h.mem, p - 8) == LARGE_MAGIC then h.(mem := h.mem[p - 8 := 0])
      else h
  }

  // ----- what is allocated -----

  /** A block of an arena: its record, and whether the program holds it. */
  datatype Block = Block(arena: nat, live: bool)

  /** The allocator's blocks, its free lists as sequences, and its large blocks with their sizes. */
  datatype Shadow = Shadow(blocks: map<nat, Block>, lists: seq<seq<nat>>, large: map<nat, nat>)

  const EMPTY_SHADOW := Shadow(map[], [[], [], [], [], [], [], [], []], map[])

  ghost predicate Clash(a: nat, n: nat, b: nat, m: nat) {
    a < b + m && b < a + n
  }

  ghost predicate RecordsOk(rs: seq<Record>) {
    && |rs| <= MAX_ARENAS
    && (forall i :: 0 <= i < |rs| ==> rs[i].start > 0 && rs[i].start % PAGE_SIZE == 0 && rs[i].cls < NUM_CLASSES)
    && (forall i, j :: 0 <= i < j < |rs| ==> !Clash(rs[i].start, ARENA_SIZE, rs[j].start, ARENA_SIZE))
  }

  function BumpOf(mem: Mem, r: Record): (n: nat) {
    Word(mem, r.start + 16)
  }

  ghost predicate ArenasOk(mem: Mem, rs: seq<Record>) {
    forall i :: 0 <= i < |rs| ==> HEADER <= BumpOf(mem, rs[i]) <= ARENA_SIZE && BumpOf(mem, rs[i]) % 16 == 0
  }

  ghost predicate IsCurrent(rs: seq<Record>, a: nat, c: nat) {
    a == 0 || exists i :: 0 <= i < |rs| && rs[i] == Record(a, c)
  }

  ghost predicate CurrentOk(rs: seq<Record>, current: seq<nat>) {
    |current| == NUM_CLASSES && forall c :: 0 <= c < NUM_CLASSES ==> IsCurrent(rs, current[c], c)
  }

  function ClassOf(rs: seq<Record>, b: Block): (c: nat) {
    if b.arena < |rs| then rs[b.arena].cls else 0
  }

  function CapOf(rs: seq<Record>, b: Block): (n: nat) {
    Size(ClassOf(rs, b))
  }

  /** Aligned, inside its arena behind the header, below the bump offset. */
  ghost predicate BlockIn(mem: Mem, rs: seq<Record>, p: nat, b: Block) {
    && b.arena < |rs| && p % 16 == 0
    && rs[b.arena].start + HEADER <= p && p + CapOf(rs, b) <= rs[b.arena].start + BumpOf(mem, rs[b.arena])
  }

  ghost predicate BlocksOk(mem: Mem, rs: seq<Record>, blocks: map<nat, Block>) {
    && (forall p :: p in blocks ==> BlockIn(mem, rs, p, blocks[p]))
    && (forall p, q :: p in blocks && q in blocks && p != q ==>
       !Clash(p, CapOf(rs, blocks[p]), q, CapOf(rs, blocks[q])))
  }

  ghost predicate LargeIn(mem: Mem, p: nat, n: nat) {
    && p > 16 && (p - 16) % PAGE_SIZE == 0 && n >= PAGE_SIZE
    && Word(mem, p - 16) == n && Word(mem, p - 8) == LARGE_MAGIC
  }

  ghost predicate LargeOk(mem: Mem, rs: seq<Record>, large: map<nat, nat>) {
    && (forall p :: p in large ==> LargeIn(mem, p, large[p]))
    && (forall p, i :: p in large && 0 <= i < |rs| ==> !Clash(p - 16, large[p], rs[i].start, ARENA_SIZE))
    && (forall p, q :: p in large && q in large && p != q ==> !Clash(p - 16, large[p], q - 16, large[q]))
  }

  /** The list threaded through memory from `head` is `l`. */
  ghost predicate ListOk(mem: Mem, head: nat, l: seq<nat>)
    decreases |l|
  {
    if l == [] then head == 0
    else head == l[0] != 0 && Word(mem, l[0] + 8) == FREE_MAGIC && ListOk(mem, Word(mem, l[0]), l[1..])
  }

  ghost predicate Distinct(l: seq<nat>) {
    forall i, j :: 0 <= i < j < |l| ==> l[i] != l[j]
  }

  /** List `c` holds exactly the free blocks of class `c`, each once. */
  ghost predicate ListHolds(rs: seq<Record>, blocks: map<nat, Block>, c: nat, l: seq<nat>) {
    Distinct(l) && forall p :: p in l <==> p in blocks && !blocks[p].live && ClassOf(rs, blocks[p]) == c
  }

  ghost predicate ListsOk(h: Heap, g: Shadow) {
    && |h.heads| == NUM_CLASSES && |g.lists| == NUM_CLASSES
    && forall c :: 0 <= c < NUM_CLASSES ==>
       ListOk(h.mem, h.heads[c], g.lists[c]) && ListHolds(h.records, g.blocks, c, g.lists[c])
  }

  ghost predicate Inv(h: Heap, g: Shadow) {
    && RecordsOk(h.records) && ArenasOk(h.mem, h.records) && CurrentOk(h.records, h.current)
    && BlocksOk(h.mem, h.records, g.blocks) && LargeOk(h.mem, h.records, g.large) && ListsOk(h, g)
  }

  lemma EmptyOk()
    ensures Inv(EMPTY_HEAP, EMPTY_SHADOW)
  {
    hide ListOk, ListHolds;
    forall c | 0 <= c < NUM_CLASSES
      ensures ListOk(EMPTY_HEAP.mem, EMPTY_HEAP.heads[c], EMPTY_SHADOW.lists[c])
      ensures ListHolds(EMPTY_HEAP.records, EMPTY_SHADOW.blocks, c, EMPTY_SHADOW.lists[c])
    {
      EmptyList(c);
    }
  }

  lemma EmptyList(c: nat)
    ensures ListOk(map[], 0, []) && ListHolds([], map[], c, [])
  {
  }

  // ----- separation -----

  /** `a` is one of the words of the block at `p`. */
  ghost predicate InBlock(rs: seq<Record>, blocks: map<nat, Block>, p: nat, a: nat) {
    p in blocks && p <= a && a + 8 <= p + CapOf(rs, blocks[p])
  }

  /** A word of a block is no arena header and in no large block. */
  lemma BlockApart(h: Heap, g: Shadow, p: nat, a: nat, i: nat)
    requires Inv(h, g) && InBlock(h.records, g.blocks, p, a) && i < |h.records|
    ensures a != h.records[i].start + 16
    ensures forall q :: q in g.large ==> a + 8 <= q - 16 || q - 16 + g.large[q] <= a
  {
    hide ListsOk, CurrentOk, ArenasOk;
    var b := g.blocks[p];
    var rs := h.records;
    assert BlockIn(h.mem, rs, p, b);
    BumpFits(h, g, b.arena);
    if b.arena != i {
      assert !Clash(rs[b.arena].start, ARENA_SIZE, rs[i].start, ARENA_SIZE);
    }
    forall q | q in g.large
      ensures a + 8 <= q - 16 || q - 16 + g.large[q] <= a
    {
      assert !Clash(q - 16, g.large[q], rs[b.arena].start, ARENA_SIZE);
    }
  }

  lemma BumpFits(h: Heap, g: Shadow, i: nat)
    requires Inv(h, g) && i < |h.records|
    ensures HEADER <= BumpOf(h.mem, h.records[i]) <= ARENA_SIZE
  {
  }

  lemma OtherBlock(h: Heap, g: Shadow, p: nat, a: nat, q: nat)
    requires Inv(h, g) && InBlock(h.records, g.blocks, p, a) && q in g.blocks && q != p
    ensures a != q && a != q + 8
  {
    hide ListsOk, CurrentOk, ArenasOk, LargeOk, RecordsOk;
    SizeFacts(ClassOf(h.records, g.blocks[q]));
    assert !Clash(p, CapOf(h.records, g.blocks[p]), q, CapOf(h.records, g.blocks[q]));
  }

  /** Memory may change anywhere but in these words. */
  ghost predicate PrivateSame(h: Heap, g: Shadow, mem': Mem) {
    && (forall i :: 0 <= i < |h.records| ==> BumpOf(mem', h.records[i]) == BumpOf(h.mem, h.records[i]))
    && (forall p :: p in g.large ==>
       p >= 16 && Word(mem', p - 16) == Word(h.mem, p - 16) && Word(mem', p - 8) == Word(h.mem, p - 8))
  }

  lemma PrivateKeeps(h: Heap, g: Shadow, mem': Mem)
    requires Inv(h, g) && PrivateSame(h, g, mem')
    ensures ArenasOk(mem', h.records) && BlocksOk(mem', h.records, g.blocks) && LargeOk(mem', h.records, g.large)
  {
    hide ListsOk, CurrentOk, RecordsOk;
  }

  /** A word of a block may be changed without touching anything private. */
  lemma BlockWordPrivate(h: Heap, g: Shadow, p: nat, a: nat, v: nat)
    requires Inv(h, g) && InBlock(h.records, g.blocks, p, a)
    ensures PrivateSame(h, g, h.mem[a := v])
  {
    hide ListsOk, CurrentOk, ArenasOk, RecordsOk, BlocksOk;
    forall i | 0 <= i < |h.records|
      ensures a != h.records[i].start + 16
    {
      BlockApart(h, g, p, a, i);
    }
    forall q | q in g.large
      ensures q >= 16 && a != q - 16 && a != q - 8
    {
      BlockHasArena(h, g, p);
      BlockApart(h, g, p, a, 0);
    }
  }

  lemma BlockHasArena(h: Heap, g: Shadow, p: nat)
    requires Inv(h, g) && p in g.blocks
    ensures g.blocks[p].arena < |h.records| && p > 0
  {
    hide ListsOk, CurrentOk, ArenasOk, LargeOk;
    assert BlockIn(h.mem, h.records, p, g.blocks[p]);
  }

  lemma {:induction false} ListFrame(mem: Mem, mem': Mem, head: nat, l: seq<nat>)
    requires ListOk(mem, head, l) && forall p :: p in l ==>
      Word(mem', p) == Word(mem, p) && Word(mem', p + 8) == Word(mem, p + 8)
    ensures ListOk(mem', head, l)
    decreases |l|
  {
    if l != [] {
      assert l[0] in l && forall p :: p in l[1..] ==> p in l;
      ListFrame(mem, mem', Word(mem, l[0]), l[1..]);
    }
  }

  /** Free lists whose blocks keep their two words stay as they are. */
  lemma ListsFrame(h: Heap, g: Shadow, mem': Mem, c: nat)
    requires ListsOk(h, g) && c < NUM_CLASSES
    requires forall p :: p in g.blocks && !g.blocks[p].live && ClassOf(h.records, g.blocks[p]) == c ==>
      Word(mem', p) == Word(h.mem, p) && Word(mem', p + 8) == Word(h.mem, p + 8)
    ensures ListOk(mem', h.heads[c], g.lists[c])
  {
    ListFrame(h.mem, mem', h.heads[c], g.lists[c]);
  }

  /** Collects the parts of the invariant. */
  lemma InvFrom(h: Heap, g: Shadow)
    requires RecordsOk(h.records) && ArenasOk(h.mem, h.records) && CurrentOk(h.records, h.current)
    requires BlocksOk(h.mem, h.records, g.blocks) && LargeOk(h.mem, h.records, g.large) && ListsOk(h, g)
    ensures Inv(h, g)
  {
  }

  lemma InvGives(h: Heap, g: Shadow)
    requires Inv(h, g)
    ensures RecordsOk(h.records) && ArenasOk(h.mem, h.records) && CurrentOk(h.records, h.current)
    ensures BlocksOk(h.mem, h.records, g.blocks) && LargeOk(h.mem, h.records, g.large) && ListsOk(h, g)
  {
  }

  // ----- taking a block from a free list -----

  ghost function WithLive(blocks: map<nat, Block>, p: nat, live: bool): (r: map<nat, Block>)
    requires p in blocks
  {
    blocks[p := blocks[p].(live := live)]
  }

  ghost function PopShadow(h: Heap, g: Shadow, c: nat): (r: Shadow)
    requires c < |g.lists| && g.lists[c] != [] && g.lists[c][0] in g.blocks
  {
    g.(blocks := WithLive(g.blocks, g.lists[c][0], true), lists := g.lists[c := g.lists[c][1..]])
  }

  lemma HeadIsFree(h: Heap, g: Shadow, c: nat)
    requires ListsOk(h, g) && c < NUM_CLASSES && h.heads[c] != 0
    ensures g.lists[c] != [] && g.lists[c][0] == h.heads[c] && h.heads[c] in g.blocks
    ensures !g.blocks[h.heads[c]].live && ClassOf(h.records, g.blocks[h.heads[c]]) == c
    ensures ListOk(h.mem, Word(h.mem, h.heads[c]), g.lists[c][1..])
  {
    assert ListOk(h.mem, h.heads[c], g.lists[c]);
    assert g.lists[c][0] in g.lists[c];
  }

  /** Marking a block live or free changes no size. */
  lemma SameSizes(h: Heap, g: Shadow, p: nat, live: bool)
    requires BlocksOk(h.mem, h.records, g.blocks) && p in g.blocks
    ensures BlocksOk(h.mem, h.records, WithLive(g.blocks, p, live))
  {
  }

  lemma TailHolds(rs: seq<Record>, blocks: map<nat, Block>, c: nat, l: seq<nat>)
    requires ListHolds(rs, blocks, c, l) && l != [] && l[0] in blocks
    ensures ListHolds(rs, WithLive(blocks, l[0], true), c, l[1..])
  {
    assert l == [l[0]] + l[1..];
    assert l[0] in l && l[0] !in l[1..];
    forall p
      ensures p in l[1..] <==> p in l && p != l[0]
    {
    }
  }

  lemma OthersHold(rs: seq<Record>, blocks: map<nat, Block>, c: nat, l: seq<nat>, p: nat, live: bool)
    requires ListHolds(rs, blocks, c, l) && p in blocks && ClassOf(rs, blocks[p]) != c
    ensures ListHolds(rs, WithLive(blocks, p, live), c, l)
  {
  }

  lemma PopLists(h: Heap, g: Shadow, c: nat)
    requires Inv(h, g) && c < NUM_CLASSES && |h.heads| == NUM_CLASSES && h.heads[c] != 0
    ensures g.lists != [] && |g.lists| == NUM_CLASSES && g.lists[c] != [] && g.lists[c][0] in g.blocks
    ensures ListsOk(Pop(h, c).0, PopShadow(h, g, c))
  {
    hide RecordsOk, ArenasOk, CurrentOk, BlocksOk, LargeOk, ListHolds, Inv, ListOk, InBlock;
    InvGives(h, g);
    HeadIsFree(h, g, c);
    var node := h.heads[c];
    var h', g' := Pop(h, c).0, PopShadow(h, g, c);
    forall d | 0 <= d < NUM_CLASSES
      ensures ListOk(h'.mem, h'.heads[d], g'.lists[d]) && ListHolds(h'.records, g'.blocks, d, g'.lists[d])
    {
      PopOneList(h, g, c, d);
    }
  }

  lemma NodeWords(h: Heap, g: Shadow, p: nat)
    requires Inv(h, g) && p in g.blocks
    ensures InBlock(h.records, g.blocks, p, p) && InBlock(h.records, g.blocks, p, p + 8)
  {
    SizeFacts(ClassOf(h.records, g.blocks[p]));
  }

  lemma PopOneList(h: Heap, g: Shadow, c: nat, d: nat)
    requires Inv(h, g) && c < NUM_CLASSES && d < NUM_CLASSES && |h.heads| == NUM_CLASSES && h.heads[c] != 0
    requires |g.lists| == NUM_CLASSES && g.lists[c] != [] && g.lists[c][0] == h.heads[c] && h.heads[c] in g.blocks
    ensures var h', g' := Pop(h, c).0, PopShadow(h, g, c);
            ListOk(h'.mem, h'.heads[d], g'.lists[d]) && ListHolds(h'.records, g'.blocks, d, g'.lists[d])
  {
    hide RecordsOk, ArenasOk, CurrentOk, BlocksOk, LargeOk, ListHolds, Inv, ListOk, InBlock;
    InvGives(h, g);
    HeadIsFree(h, g, c);
    var node := h.heads[c];
    var mem' := h.mem[node + 8 := 0];
    forall q | q in g.blocks && q != node
      ensures Word(mem', q) == Word(h.mem, q) && Word(mem', q + 8) == Word(h.mem, q + 8)
    {
      NodeWords(h, g, node);
      OtherBlock(h, g, node, node + 8, q);
    }
    if d == c {
      TailHolds(h.records, g.blocks, c, g.lists[c]);
      TailElements(h, g, c);
      ListFrame(h.mem, mem', Word(h.mem, node), g.lists[c][1..]);
    } else {
      OthersHold(h.records, g.blocks, d, g.lists[d], node, true);
      ListsFrame(h, g, mem', d);
    }
  }

  lemma TailElements(h: Heap, g: Shadow, c: nat)
    requires ListsOk(h, g) && c < NUM_CLASSES && g.lists[c] != []
    ensures forall p :: p in g.lists[c][1..] ==> p in g.blocks && p != g.lists[c][0]
  {
    var l := g.lists[c];
    assert ListHolds(h.records, g.blocks, c, l);
    assert forall p :: p in l[1..] ==> p in l;
  }

  lemma PopKeeps(h: Heap, g: Shadow, c: nat)
    requires Inv(h, g) && c < NUM_CLASSES && |h.heads| == NUM_CLASSES && h.heads[c] != 0
    ensures |g.lists| == NUM_CLASSES && g.lists[c] != [] && g.lists[c][0] in g.blocks
    ensures Inv(Pop(h, c).0, PopShadow(h, g, c))
    ensures var p := h.heads[c]; p in g.blocks && !g.blocks[p].live && ClassOf(h.records, g.blocks[p]) == c
  {
    hide RecordsOk, ArenasOk, CurrentOk, BlocksOk, LargeOk, ListsOk, Inv, InBlock, PrivateSame;
    InvGives(h, g);
    HeadIsFree(h, g, c);
    PopLists(h, g, c);
    var node := h.heads[c];
    NodeWords(h, g, node);
    BlockWordPrivate(h, g, node, node + 8, 0);
    PrivateKeeps(h, g, h.mem[node + 8 := 0]);
    SameSizes(Pop(h, c).0, g, node, true);
    InvFrom(Pop(h, c).0, PopShadow(h, g, c));
  }

  // ----- giving a block back -----

  ghost function FreeShadow(h: Heap, g: Shadow, c: nat, p: nat): (r: Shadow)
    requires c < |g.lists| && p in g.blocks
  {
    g.(blocks := WithLive(g.blocks, p, false), lists := g.lists[c := [p] + g.lists[c]])
  }

  lemma ConsHolds(rs: seq<Record>, blocks: map<nat, Block>, c: nat, l: seq<nat>, p: nat)
    requires ListHolds(rs, blocks, c, l) && p in blocks && blocks[p].live && ClassOf(rs, blocks[p]) == c
    ensures ListHolds(rs, WithLive(blocks, p, false), c, [p] + l)
  {
    assert p !in l;
  }

  lemma ConsList(mem: Mem, head: nat, l: seq<nat>, p: nat)
    requires ListOk(mem, head, l) && p != 0 && Word(mem, p) == head && Word(mem, p + 8) == FREE_MAGIC
    ensures ListOk(mem, p, [p] + l)
  {
    assert ([p] + l)[1..] == l;
  }

  lemma FreeOneList(h: Heap, g: Shadow, c: nat, p: nat, d: nat)
    requires Inv(h, g) && c < NUM_CLASSES && d < NUM_CLASSES && |h.heads| == NUM_CLASSES && |g.lists| == NUM_CLASSES
    requires p in g.blocks && g.blocks[p].live && ClassOf(h.records, g.blocks[p]) == c
    ensures var h', g' := PushFree(h, c, p), FreeShadow(h, g, c, p);
            ListOk(h'.mem, h'.heads[d], g'.lists[d]) && ListHolds(h'.records, g'.blocks, d, g'.lists[d])
  {
    hide RecordsOk, ArenasOk, CurrentOk, BlocksOk, LargeOk, ListHolds, Inv, ListOk, InBlock;
    InvGives(h, g);
    BlockHasArena(h, g, p);
    var mem' := h.mem[p + 8 := FREE_MAGIC][p := h.heads[c]];
    forall q | q in g.blocks && q != p
      ensures Word(mem', q) == Word(h.mem, q) && Word(mem', q + 8) == Word(h.mem, q + 8)
    {
      NodeWords(h, g, p);
      OtherBlock(h, g, p, p + 8, q);
      OtherBlock(h, g, p, p, q);
    }
    FreeOnly(h, g, d);
    ListsFrame(h, g, mem', d);
    if d == c {
      ConsHolds(h.records, g.blocks, c, g.lists[c], p);
      ConsList(mem', h.heads[c], g.lists[c], p);
    } else {
      OthersHold(h.records, g.blocks, d, g.lists[d], p, false);
    }
  }

  lemma FreeOnly(h: Heap, g: Shadow, d: nat)
    requires ListsOk(h, g) && d < NUM_CLASSES
    ensures ListHolds(h.records, g.blocks, d, g.lists[d])
  {
  }

  lemma PushFreeKeeps(h: Heap, g: Shadow, c: nat, p: nat)
    requires Inv(h, g) && c < NUM_CLASSES && |h.heads| == NUM_CLASSES && |g.lists| == NUM_CLASSES
    requires p in g.blocks && g.blocks[p].live && ClassOf(h.records, g.blocks[p]) == c
    ensures Inv(PushFree(h, c, p), FreeShadow(h, g, c, p))
  {
    hide RecordsOk, ArenasOk, CurrentOk, BlocksOk, LargeOk, ListOk, ListHolds, Inv, InBlock, PrivateSame;
    InvGives(h, g);
    var h', g' := PushFree(h, c, p), FreeShadow(h, g, c, p);
    NodeWords(h, g, p);
    BlockWordPrivate(h, g, p, p + 8, FREE_MAGIC);
    PrivateTwo(h, g, p, FREE_MAGIC, h.heads[c]);
    PrivateKeeps(h, g, h'.mem);
    SameSizes(h', g, p, false);
    forall d | 0 <= d < NUM_CLASSES
      ensures ListOk(h'.mem, h'.heads[d], g'.lists[d]) && ListHolds(h'.records, g'.blocks, d, g'.lists[d])
    {
      FreeOneList(h, g, c, p, d);
    }
    InvFrom(h', g');
  }

  lemma PrivateTwo(h: Heap, g: Shadow, p: nat, v: nat, w: nat)
    requires Inv(h, g) && InBlock(h.records, g.blocks, p, p) && InBlock(h.records, g.blocks, p, p + 8)
    ensures PrivateSame(h, g, h.mem[p + 8 := v][p := w])
  {
    hide Inv, InBlock, BumpOf;
    BlockWordPrivate(h, g, p, p + 8, v);
    BlockWordPrivate(h, g, p, p, w);
    PrivateBoth(h, g, p + 8, v, p, w);
  }

  lemma PrivateBoth(h: Heap, g: Shadow, a: nat, v: nat, b: nat, w: nat)
    requires Inv(h, g) && PrivateSame(h, g, h.mem[a := v]) && PrivateSame(h, g, h.mem[b := w])
    ensures PrivateSame(h, g, h.mem[a := v][b := w])
  {
    hide ListsOk, CurrentOk, ArenasOk, RecordsOk, BlocksOk;
    var m1, m2, m3 := h.mem[a := v], h.mem[b := w], h.mem[a := v][b := w];
    forall x: nat
      ensures Word(m3, x) == if x == b then Word(m2, x) else Word(m1, x)
    {
    }
  }

  // ----- program stores -----

  /** A store into a live block. */
  lemma StoreKeeps(h: Heap, g: Shadow, p: nat, a: nat, v: nat)
    requires Inv(h, g) && InBlock(h.records, g.blocks, p, a) && g.blocks[p].live
    ensures Inv(h.(mem := h.mem[a := v]), g)
  {
    hide RecordsOk, ArenasOk, CurrentOk, BlocksOk, LargeOk, ListOk, ListHolds, Inv, InBlock, PrivateSame;
    InvGives(h, g);
    var h' := h.(mem := h.mem[a := v]);
    BlockWordPrivate(h, g, p, a, v);
    PrivateKeeps(h, g, h'.mem);
    forall d | 0 <= d < NUM_CLASSES
      ensures ListOk(h'.mem, h.heads[d], g.lists[d])
    {
      StoreOneList(h, g, p, a, v, d);
    }
    InvFrom(h', g);
  }

  lemma StoreOneList(h: Heap, g: Shadow, p: nat, a: nat, v: nat, d: nat)
    requires Inv(h, g) && InBlock(h.records, g.blocks, p, a) && g.blocks[p].live && d < NUM_CLASSES
    requires |h.heads| == NUM_CLASSES && |g.lists| == NUM_CLASSES
    ensures ListOk(h.mem[a := v], h.heads[d], g.lists[d])
  {
    hide RecordsOk, ArenasOk, CurrentOk, BlocksOk, LargeOk, ListOk, ListHolds, Inv;
    InvGives(h, g);
    forall q | q in g.blocks && !g.blocks[q].live
      ensures a != q && a != q + 8
    {
      OtherBlock(h, g, p, a, q);
    }
    ListsFrame(h, g, h.mem[a := v], d);
  }

  /** A store outside every arena header, block and large header. */
  lemma OutsideKeeps(h: Heap, g: Shadow, mem': Mem)
    requires Inv(h, g) && PrivateSame(h, g, mem')
    requires forall p :: p in g.blocks ==> Word(mem', p) == Word(h.mem, p) && Word(mem', p + 8) == Word(h.mem, p + 8)
    ensures Inv(h.(mem := mem'), g)
  {
    hide RecordsOk, ArenasOk, CurrentOk, BlocksOk, LargeOk, ListOk, ListHolds, Inv, PrivateSame;
    InvGives(h, g);
    PrivateKeeps(h, g, mem');
    forall d | 0 <= d < NUM_CLASSES
      ensures ListOk(mem', h.heads[d], g.lists[d])
    {
      ListsFrame(h, g, mem', d);
    }
    InvFrom(h.(mem := mem'), g);
  }

  // ----- large blocks -----

  /** A mapping from the kernel: page-aligned and apart from everything mapped. */
  ghost predicate FreshRegion(h: Heap, g: Shadow, a: nat, n: nat) {
    && a > 0 && a % PAGE_SIZE == 0
    && (forall i :: 0 <= i < |h.records| ==> !Clash(a, n, h.records[i].start, ARENA_SIZE))
    && (forall p :: p in g.large ==> p >= 16 && !Clash(a, n, p - 16, g.large[p]))
  }

  predicate Within(x: nat, a: nat, n: nat) {
    a <= x < a + n
  }

  /** Its words are nobody's. */
  lemma RegionApart(h: Heap, g: Shadow, a: nat, n: nat)
    requires Inv(h, g) && FreshRegion(h, g, a, n)
    ensures forall i :: 0 <= i < |h.records| ==> !Within(h.records[i].start + 16, a, n)
    ensures forall p :: p in g.large ==> p >= 16 && !Within(p - 16, a, n) && !Within(p - 8, a, n)
    ensures forall p :: p in g.blocks ==> !Within(p, a, n) && !Within(p + 8, a, n)
  {
    hide ListsOk, CurrentOk;
    forall p | p in g.blocks
      ensures !Within(p, a, n) && !Within(p + 8, a, n)
    {
      var b := g.blocks[p];
      assert BlockIn(h.mem, h.records, p, b);
      SizeFacts(ClassOf(h.records, b));
    }
    forall p | p in g.large
      ensures p >= 16 && !Within(p - 16, a, n) && !Within(p - 8, a, n)
    {
      assert LargeIn(h.mem, p, g.large[p]);
    }
  }

  lemma RegionStore(h: Heap, g: Shadow, a: nat, n: nat, x: nat, v: nat)
    requires Inv(h, g) && FreshRegion(h, g, a, n) && a <= x < a + n
    ensures Inv(h.(mem := h.mem[x := v]), g)
  {
    hide Inv, FreshRegion;
    RegionApart(h, g, a, n);
    LargeAbove(h, g);
    forall p | p in g.blocks
      ensures x != p && x != p + 8
    {
      assert !Within(p, a, n) && !Within(p + 8, a, n);
    }
    OutsideKeeps(h, g, h.mem[x := v]);
  }

  /** The kernel may zero the region. */
  lemma ZeroFillKeeps(h: Heap, g: Shadow, a: nat, n: nat)
    requires Inv(h, g) && FreshRegion(h, g, a, n)
    ensures Inv(h.(mem := ZeroFill(h.mem, a, n)), g) && FreshRegion(h.(mem := ZeroFill(h.mem, a, n)), g, a, n)
  {
    hide Inv, FreshRegion, ZeroFill;
    LargeAbove(h, g);
    var mem' := ZeroFill(h.mem, a, n);
    RegionApart(h, g, a, n);
    forall p | p in g.blocks
      ensures Word(mem', p) == Word(h.mem, p) && Word(mem', p + 8) == Word(h.mem, p + 8)
    {
      assert !Within(p, a, n) && !Within(p + 8, a, n);
    }
    OutsideKeeps(h, g, mem');
    FreshSame(h, h.(mem := mem'), g, a, n);
  }

  lemma LargeAbove(h: Heap, g: Shadow)
    requires Inv(h, g)
    ensures forall p :: p in g.large ==> p >= 16
  {
    hide ListsOk, CurrentOk, ArenasOk, RecordsOk, BlocksOk;
  }

  lemma TotalFits(size: nat)
    ensures size + 16 <= RoundUp(size + 16) < size + 16 + PAGE_SIZE && RoundUp(size + 16) >= PAGE_SIZE
    ensures RoundUp(size + 16) % PAGE_SIZE == 0
  {
  }

  ghost function LargeShadow(g: Shadow, size: nat, a: nat): (r: Shadow) {
    g.(large := g.large[a + 16 := RoundUp(size + 16)])
  }

  lemma LargeAdded(h: Heap, g: Shadow, a: nat, n: nat)
    requires Inv(h, g) && FreshRegion(h, g, a, n) && n >= PAGE_SIZE && Word(h.mem, a) == n
      && Word(h.mem, a + 8) == LARGE_MAGIC
    ensures Inv(h, g.(large := g.large[a + 16 := n]))
  {
    hide ListOk, ListHolds, CurrentOk, ArenasOk, RecordsOk, BlocksOk;
  }

  lemma NewLargeKeeps(h: Heap, g: Shadow, size: nat, a: nat)
    requires Inv(h, g) && FreshRegion(h, g, a, RoundUp(size + 16))
    ensures Inv(NewLarge(h, size, a).0, LargeShadow(g, size, a))
  {
    hide Inv, FreshRegion, RoundUp, ZeroFill;
    var n := RoundUp(size + 16);
    TotalFits(size);
    ZeroFillKeeps(h, g, a, n);
    var h0 := h.(mem := ZeroFill(h.mem, a, n));
    RegionStore(h0, g, a, n, a, n);
    var h1 := h0.(mem := h0.mem[a := n]);
    FreshSame(h, h1, g, a, n);
    RegionStore(h1, g, a, n, a + 8, LARGE_MAGIC);
    var h2 := h1.(mem := h1.mem[a + 8 := LARGE_MAGIC]);
    FreshSame(h, h2, g, a, n);
    LargeAdded(h2, g, a, n);
  }

  lemma FreshSame(h: Heap, h': Heap, g: Shadow, a: nat, n: nat)
    requires FreshRegion(h, g, a, n) && h'.records == h.records
    ensures FreshRegion(h', g, a, n)
  {
  }

  lemma LargeDropped(h: Heap, g: Shadow, p: nat)
    requires Inv(h, g)
    ensures Inv(h, g.(large := g.large - {p}))
  {
    hide ListOk, ListHolds, CurrentOk, ArenasOk, RecordsOk, BlocksOk;
  }

  /** Once a large block is gone its header may change. */
  lemma LargeHeaderStore(h: Heap, g: Shadow, p: nat, v: nat)
    requires Inv(h, g) && p in g.large
    ensures p >= 16 && Inv(h.(mem := h.mem[p - 8 := v]), g.(large := g.large - {p}))
  {
    hide Inv;
    LargeIsFresh(h, g, p);
    LargeDropped(h, g, p);
    RegionStore(h, g.(large := g.large - {p}), p - 16, g.large[p], p - 8, v);
  }

  lemma LargeIsFresh(h: Heap, g: Shadow, p: nat)
    requires Inv(h, g) && p in g.large
    ensures p > 16 && g.large[p] >= PAGE_SIZE && FreshRegion(h, g.(large := g.large - {p}), p - 16, g.large[p])
  {
    hide ListsOk, CurrentOk, ArenasOk, BlocksOk;
    assert LargeIn(h.mem, p, g.large[p]);
    forall i | 0 <= i < |h.records|
      ensures !Clash(p - 16, g.large[p], h.records[i].start, ARENA_SIZE)
    {
    }
    forall q | q in g.large && q != p
      ensures q >= 16 && !Clash(p - 16, g.large[p], q - 16, g.large[q])
    {
      assert LargeIn(h.mem, q, g.large[q]);
    }
  }
}

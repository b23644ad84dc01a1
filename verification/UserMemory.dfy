/** The bytes of an address space: page frames read through the page tables, and the page-chunked
    copy that the kernel writes user memory with. */
module UserMemory {
  import opened Common
  import Pmm
  import opened Paging
  import opened AddressSpace
  import Mmap

  type Byte = b: nat | b < 256

  /** Physical memory, one page of bytes per frame. */
  type Ram = seq<seq<Byte>>

  function ZeroPage(): (p: seq<Byte>)
    ensures |p| == PAGE_SIZE && forall i :: 0 <= i < PAGE_SIZE ==> p[i] == 0
  {
    seq(PAGE_SIZE, _ => 0)
  }

  ghost predicate RamOk(ram: Ram, total: nat) {
    |ram| == total && forall f :: 0 <= f < total ==> |ram[f]| == PAGE_SIZE
  }

  /** Distinct pages are on distinct frames of memory. */
  ghost predicate Placed(flat: map<nat, Pte>, total: nat) {
    && (forall q :: q in flat ==> flat[q].frame < total)
    && (forall q, r :: q in flat && r in flat && q != r ==> flat[q].frame != flat[r].frame)
  }

  /** The byte at user address `a`, if its page is present. */
  ghost function ByteAt(ram: Ram, flat: map<nat, Pte>, a: nat): (r: Option<Byte>) {
    var page := a / PAGE_SIZE;
    if page in flat && flat[page].frame < |ram| && |ram[flat[page].frame]| == PAGE_SIZE
    then Some(ram[flat[page].frame][a % PAGE_SIZE]) else None
  }

  lemma SpacePlaced(m: Mm, root: nat)
    requires SpaceOk(m, root)
    ensures Placed(Flat(m, root), |m.pool.used|)
  {
    hide Unshared, TablesOk, Pmm.PoolOk;
    forall q | q in Flat(m, root)
      ensures Flat(m, root)[q].frame < |m.pool.used|
    {
      PageIndices(q);
      InFlat(m, root, q);
    }
    forall q, r | q in Flat(m, root) && r in Flat(m, root) && q != r
      ensures Flat(m, root)[q].frame != Flat(m, root)[r].frame
    {
      Mmap.FramesDistinct(m, root, q, r);
    }
  }

  /** Frame and offset of a virtual address. */
  function Translate(m: Mm, root: nat, v: nat): (r: Option<(nat, nat)>) {
    var e := PteAt(m.ts, root, PtIndices(v));
    if e.flags.present then Some((e.frame, v % PAGE_SIZE)) else None
  }

  /** Translation is lookup in the flat map. */
  lemma TranslateFlat(m: Mm, root: nat, v: nat)
    requires v < USER_SPACE_END
    ensures Translate(m, root, v)
         == if v / PAGE_SIZE in Flat(m, root) then Some((Flat(m, root)[v / PAGE_SIZE].frame, v % PAGE_SIZE)) else None
  {
    hide PteAt, PtIndices;
    IndicesOfPage(v);
    InFlat(m, root, v / PAGE_SIZE);
  }

  function Poke(page: seq<Byte>, off: nat, bytes: seq<Byte>): (r: seq<Byte>)
    requires off + |bytes| <= |page|
    ensures |r| == |page|
  {
    page[..off] + bytes + page[off + |bytes|..]
  }

  lemma SamePage(page: nat, off: nat, n: nat, a: nat)
    requires off + n <= PAGE_SIZE
    ensures page * PAGE_SIZE + off <= a < page * PAGE_SIZE + off + n <==>
      a / PAGE_SIZE == page && off <= a % PAGE_SIZE < off + n
    ensures a == a / PAGE_SIZE * PAGE_SIZE + a % PAGE_SIZE
  {
  }

  /** A copy inside one page changes exactly its own addresses. */
  lemma PokeWrites(ram: Ram, flat: map<nat, Pte>, page: nat, off: nat, bytes: seq<Byte>, a: nat)
    requires RamOk(ram, |ram|) && Placed(flat, |ram|) && page in flat && off + |bytes| <= PAGE_SIZE
    ensures var f := flat[page].frame; var ram' := ram[f := Poke(ram[f], off, bytes)];
            && RamOk(ram', |ram|)
            && ByteAt(ram', flat, a)
               == if page * PAGE_SIZE + off <= a < page * PAGE_SIZE + off + |bytes| then
                 Some(bytes[a - (page * PAGE_SIZE + off)])
                  else ByteAt(ram, flat, a)
  {
    SamePage(page, off, |bytes|, a);
  }

  /** `ram'` is `ram` with `bytes` stored from `target` up, as user addresses see it. */
  ghost predicate Wrote(ram: Ram, ram': Ram, flat: map<nat, Pte>, target: nat, bytes: seq<Byte>) {
    forall a: nat :: ByteAt(ram', flat, a) == if target <= a < target + |bytes| then Some(bytes[a - target])
      else ByteAt(ram, flat, a)
  }

  /** No frame outside the address space is touched. */
  ghost predicate OnlyThrough(ram: Ram, ram': Ram, flat: map<nat, Pte>) {
    |ram'| == |ram| && forall f :: 0 <= f < |ram| && (forall q :: q in flat ==> flat[q].frame != f) ==>
      ram'[f] == ram[f]
  }

  lemma OnlyThroughNext(ram: Ram, ram1: Ram, flat: map<nat, Pte>, page: nat, bytes: seq<Byte>)
    requires OnlyThrough(ram, ram1, flat) && page in flat && flat[page].frame < |ram1|
    ensures OnlyThrough(ram, ram1[flat[page].frame := bytes], flat)
  {
  }

  lemma WroteNext(ram: Ram, ram1: Ram, flat: map<nat, Pte>, target: nat, data: seq<Byte>, written: nat, n: nat)
    requires RamOk(ram1, |ram1|) && Placed(flat, |ram1|) && written + n <= |data|
    requires var v := target + written; v / PAGE_SIZE in flat && v % PAGE_SIZE + n <= PAGE_SIZE
    requires Wrote(ram, ram1, flat, target, data[..written])
    ensures var v := target + written; var f := flat[v / PAGE_SIZE].frame;
            var ram2 := ram1[f := Poke(ram1[f], v % PAGE_SIZE, data[written..written + n])];
            RamOk(ram2, |ram1|) && Wrote(ram, ram2, flat, target, data[..written + n])
  {
    hide Placed, ByteAt, RamOk, Poke;
    PlacedBelow(flat, |ram1|, (target + written) / PAGE_SIZE, ram1);
    var v := target + written;
    var page, off, bytes := v / PAGE_SIZE, v % PAGE_SIZE, data[written..written + n];
    SamePage(page, off, 0, v);
    PokeWrites(ram1, flat, page, off, bytes, 0);
    var f := flat[page].frame;
    var ram2 := ram1[f := Poke(ram1[f], off, bytes)];
    forall a: nat
      ensures ByteAt(ram2, flat, a) == if target <= a < target + written + n then Some(data[..written + n][a - target])
        else ByteAt(ram, flat, a)
    {
      PokeWrites(ram1, flat, page, off, bytes, a);
    }
  }

  lemma PlacedBelow(flat: map<nat, Pte>, total: nat, page: nat, ram: Ram)
    requires Placed(flat, total) && page in flat && RamOk(ram, total)
    ensures flat[page].frame < total == |ram| && |ram[flat[page].frame]| == PAGE_SIZE
  {
  }

  lemma WroteNothing(ram: Ram, flat: map<nat, Pte>, target: nat)
    ensures Wrote(ram, ram, flat, target, [])
  {
  }

  /** The pages from `lo` up to address `hi` are present. */
  ghost predicate Present(flat: map<nat, Pte>, lo: nat, hi: nat) {
    forall a :: lo <= a < hi ==> a / PAGE_SIZE in flat
  }

  lemma PresentNext(flat: map<nat, Pte>, lo: nat, v: nat, n: nat)
    requires Present(flat, lo, v) && v / PAGE_SIZE in flat && v % PAGE_SIZE + n <= PAGE_SIZE
    ensures Present(flat, lo, v + n)
  {
    forall a | v <= a < v + n
      ensures a / PAGE_SIZE == v / PAGE_SIZE
    {
      SamePage(v / PAGE_SIZE, v % PAGE_SIZE, n, a);
      SamePage(v / PAGE_SIZE, v % PAGE_SIZE, n, v);
    }
  }

  /** Copies `data` to user address `target`, one page at a time. It stops at the first page that is
      not present; up to there, and nowhere else, memory holds the data. */
  method WriteBytes(m: Mm, root: nat, ram: Ram, target: nat, data: seq<Byte>)
      returns (ok: bool, written: nat, ram': Ram)
    requires SpaceOk(m, root) && RamOk(ram, |m.pool.used|) && target + |data| <= USER_SPACE_END
    ensures written <= |data| && (ok <==> written == |data|)
    ensures Present(Flat(m, root), target, target + written)
    ensures !ok ==> (target + written) / PAGE_SIZE !in Flat(m, root)
    ensures RamOk(ram', |m.pool.used|) && Wrote(ram, ram', Flat(m, root), target, data[..written])
    ensures OnlyThrough(ram, ram', Flat(m, root))
  {
    hide SpaceOk, RamOk, Flat, ByteAt, Placed, Translate, Wrote, Present, OnlyThrough;
    ghost var flat := Flat(m, root);
    SpacePlaced(m, root);
    RamSize(ram, |m.pool.used|);
    written := 0;
    ram' := ram;
    WroteNothing(ram, flat, target);
    TouchedNothing(ram, flat);
    NothingPresent(flat, target);
    while written < |data|
      invariant 0 <= written <= |data|
      invariant |ram'| == |m.pool.used| && RamOk(ram', |m.pool.used|)
      invariant Wrote(ram, ram', flat, target, data[..written])
      invariant Present(flat, target, target + written) && OnlyThrough(ram, ram', flat)
    {
      var v := target + written;
      var off := v % PAGE_SIZE;
      var n := if |data| - written < PAGE_SIZE - off then |data| - written else PAGE_SIZE - off;
      var phys := Translate(m, root, v);
      TranslateFlat(m, root, v);
      if phys.None? {
        return false, written, ram';
      }
      PlacedBelow(flat, |m.pool.used|, v / PAGE_SIZE, ram');
      WroteNext(ram, ram', flat, target, data, written, n);
      PresentNext(flat, target, v, n);
      OnlyThroughNext(ram, ram', flat, v / PAGE_SIZE, Poke(ram'[phys.value.0], off, data[written..written + n]));
      ram' := ram'[phys.value.0 := Poke(ram'[phys.value.0], off, data[written..written + n])];
      written := written + n;
    }
    ok := true;
  }

  lemma RamSize(ram: Ram, total: nat)
    requires RamOk(ram, total)
    ensures |ram| == total
  {
  }

  lemma TouchedNothing(ram: Ram, flat: map<nat, Pte>)
    ensures OnlyThrough(ram, ram, flat)
  {
  }

  lemma NothingPresent(flat: map<nat, Pte>, lo: nat)
    ensures Present(flat, lo, lo)
  {
  }
}

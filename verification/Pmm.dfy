/** The physical frame allocator: a bitmap with a free count and a next-fit cursor. */
module Pmm {
  import opened Common

  /** The allocator's value: one flag per frame, the free count and the search cursor. */
  datatype Pool = Pool(used: seq<bool>, free: int, last: nat)

  /** The frames in `[0, total)` that are not in use. */
  ghost function FreeSet(p: Pool): (s: set<nat>) {
    set f: nat | f < |p.used| && !p.used[f]
  }

  /** Frame 0 is never handed out; the count never falls below the number of free frames. */
  ghost predicate PoolOk(p: Pool) {
    && 1 <= p.last <= |p.used|
    && p.used[0]
    && p.free >= |FreeSet(p)|
  }

  /** The lowest free frame in `[from, to)`. */
  function FirstFree(used: seq<bool>, from: nat, to: nat): (r: Option<nat>)
    requires to <= |used|
    ensures r.Some? ==> from <= r.value < to && !used[r.value]
    ensures forall f :: from <= f < (if r.Some? then r.value else to) ==> used[f]
    decreases if from < to then to - from else 0
  {
    if from >= to then None else if !used[from] then Some(from) else FirstFree(used, from + 1, to)
  }

  lemma FirstFreeNext(used: seq<bool>, from: nat, to: nat)
    requires to <= |used|
    ensures FirstFree(used, from, to)
         == if from >= to then None else if !used[from] then Some(from) else FirstFree(used, from + 1, to)
  {
  }

  /** Next fit: from the cursor upwards, then from frame 1 up to the cursor. */
  function NextFit(p: Pool): (r: Option<nat>)
    requires p.last <= |p.used|
  {
    var r := FirstFree(p.used, p.last, |p.used|);
    if r.Some? then r else FirstFree(p.used, 1, p.last)
  }

  function Take(p: Pool, f: nat): (r: Pool)
    requires f < |p.used|
  {
    Pool(p.used[f := true], if p.free > 0 then p.free - 1 else 0, f + 1)
  }

  function Alloc(p: Pool): (r: (Pool, Option<nat>))
    requires p.last <= |p.used|
    ensures r.0.last <= |r.0.used| == |p.used|
  {
    var f := NextFit(p);
    if f.Some? then (Take(p, f.value), f) else (p, None)
  }

  /** Freeing a frame that is not in use, or out of range, does nothing. */
  function Free(p: Pool, f: nat): (r: Pool) {
    if f < |p.used| && p.used[f] then
      Pool(p.used[f := false], p.free + 1, if f < p.last then f else p.last)
    else p
  }

  lemma TakeFreeSet(p: Pool, f: nat)
    requires f < |p.used| && !p.used[f]
    ensures FreeSet(Take(p, f)) == FreeSet(p) - {f}
    ensures |FreeSet(Take(p, f))| == |FreeSet(p)| - 1
  {
    assert FreeSet(Take(p, f)) == FreeSet(p) - {f};
  }

  /** Allocation fails exactly when no frame is free; otherwise it removes one free frame, never
      frame 0, from the free set and counts it. */
  lemma AllocCorrect(p: Pool)
    requires PoolOk(p)
    ensures var (p', r) := Alloc(p);
            && PoolOk(p') && |p'.used| == |p.used|
            && (r.None? <==> FreeSet(p) == {})
            && (r.None? ==> p' == p)
            && (r.Some? ==>
                  && r.value in FreeSet(p) && r.value != 0
                  && FreeSet(p') == FreeSet(p) - {r.value}
                  && p'.free == p.free - 1)
  {
    var r := NextFit(p);
    if r.Some? {
      TakeFreeSet(p, r.value);
      assert r.value in FreeSet(p);
    } else {
      forall f | f in FreeSet(p)
        ensures false
      {
      }
    }
  }

  /** Next fit: the frame handed out is the lowest free one from the cursor up, or if there is none the
      lowest free one above frame 0, and the cursor goes behind it. */
  lemma AllocIsNextFit(p: Pool)
    requires PoolOk(p)
    ensures var (p', r) := Alloc(p);
            r.Some? ==>
              && p'.last == r.value + 1
              && (r.value >= p.last ==> forall f :: f in FreeSet(p) && f >= p.last ==> r.value <= f)
              && (r.value < p.last ==> forall f :: f in FreeSet(p) ==> f < p.last && r.value <= f)
  {
  }

  /** Freeing moves the cursor down to the frame if it is above; freeing a frame that is out of range or
      not in use changes nothing. */
  lemma FreeMovesCursor(p: Pool, f: nat)
    ensures var p' := Free(p, f);
            && (f < |p.used| && p.used[f] ==> p'.last == (if f < p.last then f else p.last))
            && (f >= |p.used| || !p.used[f] ==> p' == p)
  {
  }

  /** Freeing a used frame puts it back and counts it. */
  lemma FreeCorrect(p: Pool, f: nat)
    requires PoolOk(p) && f != 0 && f < |p.used| && p.used[f]
    ensures var p' := Free(p, f);
            && PoolOk(p') && |p'.used| == |p.used|
            && FreeSet(p') == FreeSet(p) + {f} && f !in FreeSet(p)
            && p'.free == p.free + 1
  {
    assert FreeSet(Free(p, f)) == FreeSet(p) + {f};
  }

  /** Freeing twice is freeing once. */
  lemma DoubleFreeHarmless(p: Pool, f: nat)
    ensures Free(Free(p, f), f) == Free(p, f)
  {
  }

  /** Frames `[start, start + count)` are all free. */
  ghost predicate FreeRun(used: seq<bool>, start: nat, count: nat) {
    start + count <= |used| && forall f :: start <= f < start + count ==> !used[f]
  }

  /** The search for a run at frame `f`: the run in hand ends there, and no run of `count` begins
      before it. */
  ghost predicate RunSearch(used: seq<bool>, count: nat, f: nat, runStart: nat, runLen: nat) {
    && runLen < count && runLen < f && (f <= |used| || f == 1)
    && (runLen > 0 ==> runStart >= 1 && runStart + runLen == f && FreeRun(used, runStart, runLen))
    && forall s: nat :: 1 <= s < f - runLen ==> !FreeRun(used, s, count)
  }

  lemma NoRunYet(used: seq<bool>, count: nat)
    requires count >= 2
    ensures RunSearch(used, count, 1, 1, 0)
  {
  }

  lemma RunSearchStep(used: seq<bool>, count: nat, f: nat, runStart: nat, runLen: nat)
    requires RunSearch(used, count, f, runStart, runLen) && count >= 2 && f < |used|
    ensures used[f] ==> RunSearch(used, count, f + 1, runStart, 0)
    ensures !used[f] ==>
            var start := if runLen == 0 then f else runStart;
            && start >= 1 && FreeRun(used, start, runLen + 1)
            && (runLen + 1 < count ==> RunSearch(used, count, f + 1, start, runLen + 1))
            && forall s: nat :: 1 <= s < start ==> !FreeRun(used, s, count)
  {
    if used[f] {
      forall s: nat | 1 <= s < f + 1
        ensures !FreeRun(used, s, count)
      {
        if s >= f - runLen { assert s <= f < s + count; }
      }
    }
  }

  lemma NoRunLeft(used: seq<bool>, count: nat, f: nat, runStart: nat, runLen: nat)
    requires RunSearch(used, count, f, runStart, runLen) && f >= |used| && count >= 2
    ensures forall s: nat :: s >= 1 ==> !FreeRun(used, s, count)
  {
  }

  // ----- the bitmap -----

  function Mask(i: nat): (m: bv8)
    requires i < 8
  {
    (1 as bv8) << i
  }

  lemma MaskTable(i: nat)
    requires i < 8
    ensures Mask(i) == [1, 2, 4, 8, 16, 32, 64, 128][i]
  {
    if i == 0 {} else if i == 1 {} else if i == 2 {} else if i == 3 {}
    else if i == 4 {} else if i == 5 {} else if i == 6 {} else {}
  }

  /** Setting or clearing one bit of a byte changes that bit and no other. */
  lemma BitLaws(b: bv8, i: nat, j: nat)
    requires i < 8 && j < 8
    ensures ((b | Mask(i)) & Mask(j)) != 0 <==> i == j || (b & Mask(j)) != 0
    ensures ((b & !Mask(i)) & Mask(j)) != 0 <==> i != j && (b & Mask(j)) != 0
  {
    MaskTable(i);
    MaskTable(j);
  }

  predicate Bit(b: bv8, i: nat)
    requires i < 8
  {
    (b & Mask(i)) != 0
  }

  /** Frame `f`'s flag in a bitmap of bytes. */
  predicate BitAt(bytes: seq<bv8>, f: nat)
    requires f < 8 * |bytes|
  {
    Bit(bytes[f / 8], f % 8)
  }

  function ByteWith(b: bv8, i: nat, used: bool): (r: bv8)
    requires i < 8
  {
    if used then b | Mask(i) else b & !Mask(i)
  }

  function WithBit(bytes: seq<bv8>, f: nat, used: bool): (r: seq<bv8>)
    requires f < 8 * |bytes|
  {
    bytes[f / 8 := ByteWith(bytes[f / 8], f % 8, used)]
  }

  lemma ByteWithAt(b: bv8, i: nat, used: bool, j: nat)
    requires i < 8 && j < 8
    ensures Bit(ByteWith(b, i, used), j) <==> if i == j then used else Bit(b, j)
  {
    hide Mask;
    BitLaws(b, i, j);
  }

  lemma BitPlace(f: nat, g: nat)
    ensures g == f <==> g / 8 == f / 8 && g % 8 == f % 8
  {
  }

  lemma WithBitAt(bytes: seq<bv8>, f: nat, used: bool, g: nat)
    requires f < 8 * |bytes| && g < 8 * |bytes|
    ensures BitAt(WithBit(bytes, f, used), g) == if g == f then used else BitAt(bytes, g)
  {
    hide Bit, ByteWith;
    BitPlace(f, g);
    ByteWithAt(bytes[f / 8], f % 8, used, g % 8);
  }

  function UsedOf(bytes: seq<bv8>, total: nat): (u: seq<bool>)
    requires total <= 8 * |bytes|
    ensures |u| == total && forall f :: 0 <= f < total ==> u[f] == BitAt(bytes, f)
  {
    seq(total, f requires 0 <= f < total => BitAt(bytes, f))
  }

  lemma UsedOfWithBit(bytes: seq<bv8>, total: nat, f: nat, used: bool)
    requires f < total <= 8 * |bytes|
    ensures UsedOf(WithBit(bytes, f, used), total) == UsedOf(bytes, total)[f := used]
  {
    forall g | 0 <= g < total
      ensures BitAt(WithBit(bytes, f, used), g) == if g == f then used else BitAt(bytes, g)
    {
      WithBitAt(bytes, f, used, g);
    }
  }

  function SatSub(x: int, y: int): (r: int) {
    if x >= y then x - y else 0
  }

  /** Marks `[start, start + count)` used. */
  function TakeRun(used: seq<bool>, start: nat, count: nat): (r: seq<bool>)
    requires start + count <= |used|
  {
    used[..start] + seq(count, _ => true) + used[start + count..]
  }

  lemma TakeRunStep(used: seq<bool>, start: nat, i: nat)
    requires start + i < |used|
    ensures TakeRun(used, start, i)[start + i := true] == TakeRun(used, start, i + 1)
  {
  }

  lemma TakeNone(used: seq<bool>, start: nat)
    requires start <= |used|
    ensures TakeRun(used, start, 0) == used
  {
  }

  lemma {:induction false} RunLeaves(p: Pool, start: nat, count: nat)
    requires start + count <= |p.used| && forall f :: start <= f < start + count ==> !p.used[f]
    ensures var taken := p.(used := TakeRun(p.used, start, count));
            && (forall f: nat :: f in FreeSet(taken) <==> f in FreeSet(p) && !(start <= f < start + count))
            && |FreeSet(taken)| == |FreeSet(p)| - count
  {
    if count == 0 {
      TakeNone(p.used, start);
    } else {
      var n := count - 1;
      var before := p.(used := TakeRun(p.used, start, n));
      RunLeaves(p, start, n);
      TakeRunStep(p.used, start, n);
      TakeFreeSet(before, start + n);
      assert FreeSet(Take(before, start + n)) == FreeSet(p.(used := TakeRun(p.used, start, count)));
    }
  }

  /** Taking a run of free frames above frame 0 takes exactly them out of the free set and the count. */
  lemma RunTaken(p: Pool, start: nat, count: nat)
    requires PoolOk(p) && start >= 1 && FreeRun(p.used, start, count)
    ensures var p' := Pool(TakeRun(p.used, start, count), SatSub(p.free, count), p.last);
            && PoolOk(p') && p'.free == p.free - count
            && forall f: nat :: f in FreeSet(p') <==> f in FreeSet(p) && !(start <= f < start + count)
  {
    RunLeaves(p, start, count);
    var p' := Pool(TakeRun(p.used, start, count), SatSub(p.free, count), p.last);
    assert FreeSet(p') == FreeSet(p.(used := TakeRun(p.used, start, count)));
  }

  class PhysicalMemoryManager {
    const bitmap: array<bv8>
    const totalFrames: nat
    var freeFrames: int
    var lastFrame: nat

    ghost predicate Valid()
      reads this
    {
      totalFrames <= 8 * bitmap.Length && lastFrame <= totalFrames
    }

    /** The bitmap as one flag per frame. */
    ghost function Used(): (u: seq<bool>)
      requires totalFrames <= 8 * bitmap.Length
      reads bitmap
    {
      UsedOf(bitmap[..], totalFrames)
    }

    ghost function Value(): (p: Pool)
      requires Valid()
      reads this, bitmap
    {
      Pool(Used(), freeFrames, lastFrame)
    }

    method TestBit(f: nat) returns (b: bool)
      requires Valid()
      ensures b == (f >= totalFrames || Used()[f])
    {
      if f >= totalFrames {
        return true;
      }
      b := (bitmap[f / 8] & Mask(f % 8)) != 0;
    }

    method SetBit(f: nat, used: bool)
      requires Valid()
      modifies bitmap
      ensures Used() == if f < totalFrames then old(Used())[f := used] else old(Used())
    {
      if f >= totalFrames {
        return;
      }
      UsedOfWithBit(bitmap[..], totalFrames, f, used);
      ghost var bytes := WithBit(bitmap[..], f, used);
      var byte := f / 8;
      bitmap[byte] := ByteWith(bitmap[byte], f % 8, used);
      assert bitmap[..] == bytes;
    }

    /** What both scans do with the free frame they find. */
    method TakeFrame(f: nat)
      requires Valid() && f < totalFrames
      modifies this, bitmap
      ensures Valid() && Value() == Take(old(Value()), f)
    {
      SetBit(f, true);
      freeFrames := if freeFrames > 0 then freeFrames - 1 else 0;
      lastFrame := f + 1;
    }

    /** Tests the frames of `[from, to)` upwards for a clear bit. */
    method Scan(from: nat, to: nat) returns (r: Option<nat>)
      requires Valid() && to <= totalFrames
      ensures r == FirstFree(Used(), from, to)
    {
      hide UsedOf, FirstFree;
      var f := from;
      while f < to
        invariant from <= f
        invariant FirstFree(Used(), from, to) == FirstFree(Used(), f, to)
      {
        FirstFreeNext(Used(), f, to);
        var b := TestBit(f);
        if !b {
          return Some(f);
        }
        f := f + 1;
      }
      FirstFreeNext(Used(), f, to);
      return None;
    }

    /** Scans from the cursor to the end, then from frame 1 to the cursor. */
    method AllocFrame() returns (r: Option<nat>)
      requires Valid()
      modifies this, bitmap
      ensures Valid()
      ensures (Value(), r) == Alloc(old(Value()))
    {
      r := Scan(lastFrame, totalFrames);
      if r.None? {
        r := Scan(1, lastFrame);
      }
      if r.Some? {
        TakeFrame(r.value);
      }
    }

    method FreeFrame(f: nat)
      requires Valid()
      modifies this, bitmap
      ensures Valid()
      ensures Value() == Free(old(Value()), f)
    {
      var b := TestBit(f);
      if f < totalFrames && b {
        SetBit(f, false);
        freeFrames := freeFrames + 1;
        if f < lastFrame {
          lastFrame := f;
        }
      }
    }

    /** Hands out `count` consecutive frames: the lowest such run above frame 0, or nothing exactly
        when there is none. A single frame goes through the next-fit search. */
    method AllocContiguousFrames(count: nat) returns (r: Option<nat>)
      requires Valid()
      modifies this, bitmap
      ensures Valid()
      ensures count == 0 ==> r == None && Value() == old(Value())
      ensures count == 1 ==> (Value(), r) == Alloc(old(Value()))
      ensures count >= 2 && r.None? ==>
        Value() == old(Value()) && forall s: nat :: s >= 1 ==> !FreeRun(old(Value()).used, s, count)
      ensures count >= 2 && r.Some? ==>
        && r.value >= 1 && FreeRun(old(Value()).used, r.value, count)
        && (forall s: nat :: 1 <= s < r.value ==> !FreeRun(old(Value()).used, s, count))
        && Value() == Pool(TakeRun(old(Value()).used, r.value, count), SatSub(old(freeFrames), count), old(lastFrame))
    {
      hide UsedOf, FreeRun, TakeRun, Alloc;
      if count == 0 {
        return None;
      }
      if count == 1 {
        r := AllocFrame();
        return;
      }
      ghost var used := Used();
      var runStart, runLen := 1, 0;
      var f := 1;
      NoRunYet(used, count);
      while f < totalFrames
        invariant 1 <= f && Valid() && Value() == old(Value())
        invariant RunSearch(used, count, f, runStart, runLen)
      {
        var b := TestBit(f);
        RunSearchStep(used, count, f, runStart, runLen);
        if !b {
          if runLen == 0 {
            runStart := f;
          }
          runLen := runLen + 1;
          if runLen == count {
            MarkRun(runStart, count);
            freeFrames := SatSub(freeFrames, count);
            return Some(runStart);
          }
        } else {
          runLen := 0;
        }
        f := f + 1;
      }
      NoRunLeft(used, count, f, runStart, runLen);
      return None;
    }

    /** Sets the bits of one run. */
    method MarkRun(start: nat, count: nat)
      requires Valid() && start + count <= totalFrames
      modifies bitmap
      ensures Used() == TakeRun(old(Used()), start, count)
    {
      hide UsedOf, TakeRun;
      TakeNone(Used(), start);
      ghost var u := Used();
      var i := 0;
      while i < count
        invariant 0 <= i <= count && Valid()
        invariant Used() == TakeRun(u, start, i)
      {
        TakeRunStep(u, start, i);
        SetBit(start + i, true);
        i := i + 1;
      }
    }
  }
}

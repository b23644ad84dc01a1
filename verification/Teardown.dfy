/** Dropping an address space: the nested loops over the lower half of the tables free every page,
    table and root frame exactly once, so a whole life of a space conserves the allocator. */
module Teardown {
  import opened Common
  import opened Pmm
  import opened Paging
  import PageMap
  import opened AddressSpace

  /** Frees everything at and below path `p`: children first, then the frame itself. */
  function FreeTree(pool: Pool, ts: Tables, root: nat, p: Path): (r: Pool)
    requires |p| <= 4
    decreases 4 - |p|, 513
  {
    var inner := if |p| < 4 then FreeBelow(pool, ts, root, p, Limit(p)) else pool;
    var f := Walk(ts, root, p);
    if f.Some? then Free(inner, f.value) else inner
  }

  /** Frees the subtrees of entries `[0, n)` of the table at `p`. */
  function FreeBelow(pool: Pool, ts: Tables, root: nat, p: Path, n: nat): (r: Pool)
    requires |p| < 4 && n <= 512
    decreases 4 - |p|, n
  {
    if n == 0 then pool
    else
      var before := FreeBelow(pool, ts, root, p, n - 1);
      if PteAt(ts, root, p + [n - 1]).flags.present then FreeTree(before, ts, root, p + [n - 1]) else before
  }

  /** The root loop stops at the kernel half. */
  function Limit(p: Path): (n: nat) {
    if p == [] then 256 else 512
  }

  ghost predicate UnderAt(ts: Tables, root: nat, p: Path, f: nat) {
    exists q :: Lower(q) && p <= q && Walk(ts, root, q) == Some(f)
  }

  ghost predicate BelowAt(ts: Tables, root: nat, p: Path, n: nat, f: nat) {
    exists q :: Lower(q) && p <= q && |p| < |q| && q[|p|] < n && Walk(ts, root, q) == Some(f)
  }

  /** Frames at or below `p`. */
  ghost function Under(ts: Tables, root: nat, total: nat, p: Path): (s: set<nat>) {
    set f: nat | f < total && UnderAt(ts, root, p, f)
  }

  /** Frames below entries `[0, n)` of the table at `p`. */
  ghost function Below(ts: Tables, root: nat, total: nat, p: Path, n: nat): (s: set<nat>) {
    set f: nat | f < total && BelowAt(ts, root, p, n, f)
  }

  /** `pool'` is `pool` with exactly the frames of `s`, all in use before, freed once each. */
  ghost predicate FreedExactly(pool: Pool, pool': Pool, s: set<nat>) {
    && PoolOk(pool') && |pool'.used| == |pool.used|
    && FreeSet(pool') == FreeSet(pool) + s && FreeSet(pool) !! s
    && pool'.free == pool.free + |s|
  }

  lemma FreedNothing(pool: Pool)
    requires PoolOk(pool)
    ensures FreedExactly(pool, pool, {})
  {
  }

  lemma FreedTransitive(a: Pool, b: Pool, c: Pool, s: set<nat>, t: set<nat>)
    requires FreedExactly(a, b, s) && FreedExactly(b, c, t)
    ensures FreedExactly(a, c, s + t) && s !! t
  {
  }

  lemma ExtendsAt(p: Path, q: Path, n: nat)
    ensures p + [n] <= q <==> p <= q && |p| < |q| && q[|p|] == n
  {
    if p <= q && |p| < |q| && q[|p|] == n {
      assert q[..|p| + 1] == p + [n];
    }
  }

  lemma BelowNone(ts: Tables, root: nat, total: nat, p: Path)
    ensures Below(ts, root, total, p, 0) == {}
  {
  }

  lemma BelowStep(ts: Tables, root: nat, total: nat, p: Path, n: nat)
    ensures Below(ts, root, total, p, n + 1) == Below(ts, root, total, p, n) + Under(ts, root, total, p + [n])
  {
    forall f | 0 <= f < total
      ensures BelowAt(ts, root, p, n + 1, f) <==> BelowAt(ts, root, p, n, f) || UnderAt(ts, root, p + [n], f)
    {
      if BelowAt(ts, root, p, n + 1, f) {
        var q :| Lower(q) && p <= q && |p| < |q| && q[|p|] < n + 1 && Walk(ts, root, q) == Some(f);
        ExtendsAt(p, q, n);
      }
      if UnderAt(ts, root, p + [n], f) {
        var q :| Lower(q) && p + [n] <= q && Walk(ts, root, q) == Some(f);
        ExtendsAt(p, q, n);
        assert BelowAt(ts, root, p, n + 1, f);
      }
      if BelowAt(ts, root, p, n, f) {
        var q :| Lower(q) && p <= q && |p| < |q| && q[|p|] < n && Walk(ts, root, q) == Some(f);
        assert BelowAt(ts, root, p, n + 1, f);
      }
    }
  }

  /** An absent entry has nothing below it. */
  lemma UnderAbsent(ts: Tables, root: nat, total: nat, p: Path)
    requires p != [] && Walk(ts, root, p).None?
    ensures Under(ts, root, total, p) == {}
  {
    forall f: nat | UnderAt(ts, root, p, f)
      ensures false
    {
      var q :| Lower(q) && p <= q && Walk(ts, root, q) == Some(f);
      assert q[..|p|] == p;
      WalkPrefix(ts, root, q, |p|);
    }
  }

  lemma UnderSplits(ts: Tables, root: nat, total: nat, p: Path)
    requires Lower(p) && Walk(ts, root, p).Some? && Walk(ts, root, p).value < total
    ensures |p| < 4 ==> Under(ts, root, total, p) == Below(ts, root, total, p, Limit(p)) + {Walk(ts, root, p).value}
    ensures |p| == 4 ==> Under(ts, root, total, p) == {Walk(ts, root, p).value}
  {
    var g := Walk(ts, root, p).value;
    assert p <= p;
    assert UnderAt(ts, root, p, g);
    forall f | 0 <= f < total
      ensures UnderAt(ts, root, p, f) <==> f == g || BelowAt(ts, root, p, Limit(p), f)
    {
      if UnderAt(ts, root, p, f) {
        var q :| Lower(q) && p <= q && Walk(ts, root, q) == Some(f);
        if q != p {
          assert BelowAt(ts, root, p, Limit(p), f);
        }
      }
    }
  }

  /** Everything at or below `p` is in use in `pool`. */
  ghost predicate AllInUse(pool: Pool, ts: Tables, root: nat, p: Path) {
    forall q :: Lower(q) && p <= q && Walk(ts, root, q).Some? ==>
      var f := Walk(ts, root, q).value; 0 < f < |pool.used| && pool.used[f]
  }

  /** Freeing disjoint frames leaves a subtree in use. */
  lemma StillInUse(pool: Pool, pool': Pool, ts: Tables, root: nat, p: Path, s: set<nat>)
    requires AllInUse(pool, ts, root, p) && FreedExactly(pool, pool', s)
    requires forall q :: Lower(q) && p <= q && Walk(ts, root, q).Some? ==> Walk(ts, root, q).value !in s
    ensures AllInUse(pool', ts, root, p)
  {
    forall q | Lower(q) && p <= q && Walk(ts, root, q).Some?
      ensures var f := Walk(ts, root, q).value; 0 < f < |pool'.used| && pool'.used[f]
    {
      var f := Walk(ts, root, q).value;
      assert f !in FreeSet(pool);
      assert f !in FreeSet(pool');
    }
  }

  lemma InUseAt(pool: Pool, ts: Tables, root: nat, p: Path)
    requires AllInUse(pool, ts, root, p) && Lower(p) && Walk(ts, root, p).Some?
    ensures var f := Walk(ts, root, p).value; 0 < f < |pool.used| && pool.used[f]
  {
    hide Walk, Lower;
    assert p <= p;
  }

  lemma NotBelow(ts: Tables, root: nat, total: nat, p: Path, n: nat)
    requires Unshared(ts, root) && Lower(p) && Walk(ts, root, p).Some?
    ensures Walk(ts, root, p).value !in Below(ts, root, total, p, n)
  {
    hide Walk, Lower;
  }

  /** Freeing one more frame that is still in use. */
  lemma FreedOneMore(pool: Pool, inner: Pool, s: set<nat>, f: nat)
    requires FreedExactly(pool, inner, s) && 0 < f < |pool.used| && pool.used[f] && f !in s
    ensures FreedExactly(pool, Free(inner, f), s + {f})
  {
    hide PoolOk, FreeSet, Free;
    StillInUseOne(pool, inner, s, f);
    FreeCorrect(inner, f);
    assert |s + {f}| == |s| + 1;
  }

  lemma StillInUseOne(pool: Pool, inner: Pool, s: set<nat>, f: nat)
    requires FreeSet(inner) == FreeSet(pool) + s && |inner.used| == |pool.used|
    requires f < |pool.used| && pool.used[f] && f !in s
    ensures inner.used[f] && f !in FreeSet(pool)
  {
    assert f !in FreeSet(inner);
  }

  lemma {:induction false} FreeTreeExact(pool: Pool, ts: Tables, root: nat, p: Path)
    requires PoolOk(pool) && Unshared(ts, root) && Lower(p) && Walk(ts, root, p).Some? && AllInUse(pool, ts, root, p)
    ensures FreedExactly(pool, FreeTree(pool, ts, root, p), Under(ts, root, |pool.used|, p))
    decreases 4 - |p|, 513
  {
    hide Unshared, AllInUse, Below, Under, FreedExactly, PoolOk, Walk, Free, FreeBelow, Lower;
    var total := |pool.used|;
    var f := Walk(ts, root, p).value;
    AtMostFour(p);
    InUseAt(pool, ts, root, p);
    UnderSplits(ts, root, total, p);
    if |p| < 4 {
      FreeBelowExact(pool, ts, root, p, Limit(p));
      NotBelow(ts, root, total, p, Limit(p));
      FreedOneMore(pool, FreeBelow(pool, ts, root, p, Limit(p)), Below(ts, root, total, p, Limit(p)), f);
    } else {
      FreedNothing(pool);
      FreedOneMore(pool, pool, {}, f);
      assert {} + {f} == {f};
    }
  }

  lemma AtMostFour(p: Path)
    requires Lower(p)
    ensures |p| <= 4
  {
  }

  lemma {:induction false} FreeBelowExact(pool: Pool, ts: Tables, root: nat, p: Path, n: nat)
    requires PoolOk(pool) && Unshared(ts, root) && Lower(p) && |p| < 4 && n <= Limit(p) && AllInUse(pool, ts, root, p)
    ensures FreedExactly(pool, FreeBelow(pool, ts, root, p, n), Below(ts, root, |pool.used|, p, n))
    decreases 4 - |p|, n
  {
    hide Unshared, AllInUse, Below, Under, FreedExactly, PoolOk, FreeTree, FreeBelow, Walk, PteAt, Lower, Limit;
    LimitSmall(p);
    FreeBelowNext(pool, ts, root, p, n);
    if n == 0 {
      BelowNone(ts, root, |pool.used|, p);
      FreedNothing(pool);
    } else {
      FreeBelowExact(pool, ts, root, p, n - 1);
      var before := FreeBelow(pool, ts, root, p, n - 1);
      FreedPool(pool, before, Below(ts, root, |pool.used|, p, n - 1));
      var c := p + [n - 1];
      ChildLower(p, n - 1);
      PageMap.WalkFront(ts, root, c);
      if PteAt(ts, root, c).flags.present {
        ChildInUse(pool, before, ts, root, p, n - 1);
        FreeTreeExact(before, ts, root, c);
        NextFreed(pool, before, FreeTree(before, ts, root, c), ts, root, p, n - 1);
      } else {
        NextAbsent(pool, before, ts, root, p, n - 1);
      }
    }
  }

  lemma FreeBelowNext(pool: Pool, ts: Tables, root: nat, p: Path, n: nat)
    requires |p| < 4 && n <= 512
    ensures n == 0 ==> FreeBelow(pool, ts, root, p, n) == pool
    ensures n > 0 ==>
            var before := FreeBelow(pool, ts, root, p, n - 1); var c := p + [n - 1];
            FreeBelow(pool, ts, root, p, n) == if PteAt(ts, root, c).flags.present then FreeTree(before, ts, root, c)
              else before
  {
    hide FreeTree, PteAt;
  }

  lemma LimitSmall(p: Path)
    ensures Limit(p) <= 512
  {
  }

  lemma FreedPool(pool: Pool, pool': Pool, s: set<nat>)
    requires FreedExactly(pool, pool', s)
    ensures PoolOk(pool') && |pool'.used| == |pool.used|
  {
  }

  lemma ChildLower(p: Path, n: nat)
    requires Lower(p) && |p| < 4 && n < Limit(p)
    ensures Lower(p + [n])
  {
  }

  lemma NextFreed(pool: Pool, before: Pool, after: Pool, ts: Tables, root: nat, p: Path, n: nat)
    requires FreedExactly(pool, before, Below(ts, root, |pool.used|, p, n))
    requires FreedExactly(before, after, Under(ts, root, |pool.used|, p + [n]))
    ensures FreedExactly(pool, after, Below(ts, root, |pool.used|, p, n + 1))
  {
    hide FreedExactly, Below, Under;
    BelowStep(ts, root, |pool.used|, p, n);
    FreedTransitive(pool, before, after, Below(ts, root, |pool.used|, p, n), Under(ts, root, |pool.used|, p + [n]));
  }

  lemma NextAbsent(pool: Pool, before: Pool, ts: Tables, root: nat, p: Path, n: nat)
    requires FreedExactly(pool, before, Below(ts, root, |pool.used|, p, n)) && !PteAt(ts, root, p + [n]).flags.present
    ensures FreedExactly(pool, before, Below(ts, root, |pool.used|, p, n + 1))
  {
    hide FreedExactly, Below, Under;
    BelowStep(ts, root, |pool.used|, p, n);
    PageMap.WalkFront(ts, root, p + [n]);
    UnderAbsent(ts, root, |pool.used|, p + [n]);
    assert Below(ts, root, |pool.used|, p, n) + {} == Below(ts, root, |pool.used|, p, n);
  }

  /** The next child is untouched by the children freed before it. */
  lemma ChildInUse(pool: Pool, before: Pool, ts: Tables, root: nat, p: Path, n: nat)
    requires Unshared(ts, root) && AllInUse(pool, ts, root, p)
    requires FreedExactly(pool, before, Below(ts, root, |pool.used|, p, n))
    ensures AllInUse(before, ts, root, p + [n])
  {
    var c := p + [n];
    forall q | Lower(q) && c <= q
      ensures p <= q
    {
      ExtendsAt(p, q, n);
    }
    forall q | Lower(q) && c <= q && Walk(ts, root, q).Some?
      ensures Walk(ts, root, q).value !in Below(ts, root, |pool.used|, p, n)
    {
      ExtendsAt(p, q, n);
    }
    StillInUse(pool, before, ts, root, c, Below(ts, root, |pool.used|, p, n));
  }

  /** Teardown frees exactly the frames of the space, each once. */
  lemma DropFreesOwned(m: Mm, root: nat)
    requires SpaceOk(m, root)
    ensures FreedExactly(m.pool, FreeTree(m.pool, m.ts, root, []), Owned(m, root))
  {
    hide FreeTree, FreedExactly, Unshared, TablesOk, PoolOk;
    assert Walk(m.ts, root, []) == Some(root);
    assert AllInUse(m.pool, m.ts, root, []);
    FreeTreeExact(m.pool, m.ts, root, []);
    UnderRoot(m, root);
  }

  lemma UnderRoot(m: Mm, root: nat)
    ensures Under(m.ts, root, |m.pool.used|, []) == Owned(m, root)
  {
    hide Walk, Lower;
    forall f: nat
      ensures UnderAt(m.ts, root, [], f) <==> Reached(m, root, f)
    {
      if Reached(m, root, f) {
        var p :| Lower(p) && Walk(m.ts, root, p) == Some(f);
        assert [] <= p;
      }
    }
  }

  // ----- whole lives -----

  datatype SpaceOp = Map(key: Path, flags: PageFlags) | Unmap(key: Path)

  function Apply(m: Mm, root: nat, op: SpaceOp): (r: Mm)
    requires m.pool.last <= |m.pool.used| && op.key != []
  {
    match op
    case Map(key, flags) => MapFresh(m, root, key, flags).0
    case Unmap(key) => UnmapFree(m, root, key)
  }

  ghost predicate OpOk(op: SpaceOp) {
    Lower(op.key) && |op.key| == 4 && (op.Map? ==> op.flags.user)
  }

  /** A map that succeeds on a page that was mapped. */
  predicate Overwrites(m: Mm, root: nat, op: SpaceOp)
    requires m.pool.last <= |m.pool.used| && op.key != []
  {
    op.Map? && MapFresh(m, root, op.key, op.flags).1.Some? && Walk(m.ts, root, op.key).Some?
  }

  /** The frame a step loses. */
  ghost function LostBy(m: Mm, root: nat, op: SpaceOp): (s: set<nat>)
    requires m.pool.last <= |m.pool.used| && op.key != []
  {
    if Overwrites(m, root, op) then HeldAt(m, root, op.key) else {}
  }

  /** `h` lists the states of a run of `ops`. */
  ghost predicate Life(h: seq<Mm>, root: nat, ops: seq<SpaceOp>) {
    && |h| == |ops| + 1
    && forall i :: 0 <= i < |ops| ==>
      && OpOk(ops[i]) && h[i].pool.last <= |h[i].pool.used|
      && h[i + 1] == Apply(h[i], root, ops[i])
  }

  /** The frames lost in the first `n` steps. */
  ghost function LostIn(h: seq<Mm>, root: nat, ops: seq<SpaceOp>, n: nat): (s: set<nat>)
    requires Life(h, root, ops) && n <= |ops|
  {
    if n == 0 then {} else LostIn(h, root, ops, n - 1) + LostBy(h[n - 1], root, ops[n - 1])
  }

  lemma ApplyLoses(m: Mm, root: nat, op: SpaceOp)
    requires SpaceOk(m, root) && OpOk(op)
    ensures m.pool.last <= |m.pool.used|
    ensures SpaceOk(Apply(m, root, op), root) && LostExactly(m, Apply(m, root, op), root, LostBy(m, root, op))
    ensures LostBy(m, root, op) != {} <==> Overwrites(m, root, op)
  {
    hide SpaceOk, LostExactly, Conserved, Lower, MapFresh, UnmapFree, Walk;
    PageMap.CursorOk(m, root);
    match op
    case Map(key, flags) =>
      MapFreshLoses(m, root, key, flags);
      if Walk(m.ts, root, key).None? { PageMap.NothingHeld(m, root, key); }
    case Unmap(key) =>
      UnmapFreeConserves(m, root, key);
      ConservedLoses(m, Apply(m, root, op), root);
  }

  lemma {:induction false} LifeLoses(h: seq<Mm>, root: nat, ops: seq<SpaceOp>, n: nat)
    requires Life(h, root, ops) && SpaceOk(h[0], root) && n <= |ops|
    ensures SpaceOk(h[n], root) && LostExactly(h[0], h[n], root, LostIn(h, root, ops, n))
    ensures LostIn(h, root, ops, n) == {} <==> forall i :: 0 <= i < n ==> !Overwrites(h[i], root, ops[i])
  {
    hide SpaceOk, LostExactly, Apply, Overwrites, LostBy, Lower;
    if n == 0 {
      ConservedSame(h[0], root);
    } else {
      LifeLoses(h, root, ops, n - 1);
      ApplyLoses(h[n - 1], root, ops[n - 1]);
      LossesAdd(h[0], h[n - 1], h[n], root, LostIn(h, root, ops, n - 1), LostBy(h[n - 1], root, ops[n - 1]));
    }
  }

  /** Address-space conservation: create a space, run any sequence of maps, onto mapped pages or not
      and some of them failing, and unmaps, then drop it. The allocator lacks exactly the frames that
      successful maps overwrote, and so is as before the space existed, in frames and in count, if and
      only if no successful map found its page mapped. */
  lemma WholeLifeConserves(m: Mm, active: nat, h: seq<Mm>, ops: seq<SpaceOp>)
    requires PoolOk(m.pool) && NewSpace(m, active).1.Some?
    requires Life(h, NewSpace(m, active).1.value, ops) && h[0] == NewSpace(m, active).0
    ensures var root := NewSpace(m, active).1.value;
            var pool := FreeTree(h[|ops|].pool, h[|ops|].ts, root, []);
            var lost := LostIn(h, root, ops, |ops|);
            && lost <= FreeSet(m.pool) && FreeSet(pool) == FreeSet(m.pool) - lost && pool.free == m.pool.free - |lost|
            && (FreeSet(pool) == FreeSet(m.pool) <==> forall i :: 0 <= i < |ops| ==> !Overwrites(h[i], root, ops[i]))
  {
    hide SpaceOk, LostExactly, Life, FreeTree, FreeSet, Owned, LostIn, NewSpace, FreedExactly, Overwrites, Walk, PteAt;
    CursorOfPool(m.pool);
    var root := NewSpace(m, active).1.value;
    NewSpaceOk(m, active);
    LifeStart(h, root, ops);
    LifeLoses(h, root, ops, |ops|);
    DropFreesOwned(h[|ops|], root);
    var lost := LostIn(h, root, ops, |ops|);
    LifeBalance(m, h[0], h[|ops|], FreeTree(h[|ops|].pool, h[|ops|].ts, root, []), root, lost);
  }

  lemma LifeStart(h: seq<Mm>, root: nat, ops: seq<SpaceOp>)
    requires Life(h, root, ops)
    ensures |h| == |ops| + 1
  {
  }

  lemma LifeBalance(m: Mm, born: Mm, last: Mm, pool: Pool, root: nat, lost: set<nat>)
    requires root in FreeSet(m.pool) && Owned(born, root) == {root}
    requires FreeSet(born.pool) == FreeSet(m.pool) - {root} && born.pool.free == m.pool.free - 1
    requires LostExactly(born, last, root, lost) && FreedExactly(last.pool, pool, Owned(last, root))
    ensures lost <= FreeSet(m.pool) && FreeSet(pool) == FreeSet(m.pool) - lost && pool.free == m.pool.free - |lost|
    ensures FreeSet(pool) == FreeSet(m.pool) <==> lost == {}
  {
    hide FreeSet, Owned, PoolOk;
    assert FreeSet(m.pool) == FreeSet(born.pool) + {root};
    if lost != {} {
      var f :| f in lost;
      assert f in FreeSet(m.pool) && f !in FreeSet(pool);
    }
  }
}

/** The list of virtual memory areas of an address space: a sorted, disjoint, maximally merged list
    of ranges, read as a map from addresses to (protection, flags). */
module Vma {
  import opened Common

  datatype Attr = Attr(prot: bv32, flags: bv32)

  datatype Area = Area(start: nat, end: nat, attr: Attr) {
    predicate Covers(a: nat) {
      start <= a < end
    }

    /** Shares an address with `[lo, hi)`. */
    predicate Overlaps(lo: nat, hi: nat) {
      start < hi && lo < end
    }
  }

  /** The attributes at address `a`, if some area covers it. */
  function At(vs: seq<Area>, a: nat): (r: Option<Attr>) {
    if vs == [] then None
    else if vs[|vs| - 1].Covers(a) then Some(vs[|vs| - 1].attr)
    else At(vs[..|vs| - 1], a)
  }

  ghost predicate Sorted(vs: seq<Area>) {
    && (forall i :: 0 <= i < |vs| ==> vs[i].start < vs[i].end)
    && (forall i, j :: 0 <= i < j < |vs| ==> vs[i].end <= vs[j].start)
  }

  /** Sorted, disjoint, non-empty areas, and no two abutting neighbours with equal attributes. */
  ghost predicate Canonical(vs: seq<Area>) {
    && Sorted(vs)
    && forall i :: 0 < i < |vs| ==> vs[i - 1].end == vs[i].start ==> vs[i - 1].attr != vs[i].attr
  }

  /** Some area that meets `[lo, hi)` has other attributes. */
  ghost predicate DiffersIn(vs: seq<Area>, lo: nat, hi: nat, attr: Attr) {
    exists i :: 0 <= i < |vs| && vs[i].Overlaps(lo, hi) && vs[i].attr != attr
  }

  /** `a` is in an area with these attributes that begins before `hi` and runs past it. */
  ghost predicate Straddles(vs: seq<Area>, hi: nat, attr: Attr, a: nat) {
    exists j :: 0 <= j < |vs| && vs[j].start < hi <= a < vs[j].end && vs[j].attr == attr
  }

  /** The case in which insertion drops addresses above `hi`: the new range meets an area with
      other attributes, and its last area has its own attributes and runs past `hi`. */
  ghost predicate TailLoss(vs: seq<Area>, lo: nat, hi: nat, attr: Attr) {
    && DiffersIn(vs, lo, hi, attr)
    && exists j :: 0 <= j < |vs| && vs[j].start < hi < vs[j].end && vs[j].attr == attr
  }

  /** What the list maps `a` to after inserting `[lo, hi)`. */
  ghost function AfterInsert(vs: seq<Area>, lo: nat, hi: nat, attr: Attr, a: nat): (r: Option<Attr>) {
    if lo <= a < hi then Some(attr)
    else if DiffersIn(vs, lo, hi, attr) && Straddles(vs, hi, attr, a) then None
    else At(vs, a)
  }

  lemma AtPush(vs: seq<Area>, v: Area, a: nat)
    ensures At(vs + [v], a) == if v.Covers(a) then Some(v.attr) else At(vs, a)
  {
    assert (vs + [v])[..|vs|] == vs;
  }

  lemma {:induction false} AtIndex(vs: seq<Area>, i: nat, a: nat)
    requires Sorted(vs) && i < |vs| && vs[i].Covers(a)
    ensures At(vs, a) == Some(vs[i].attr)
  {
    var n := |vs| - 1;
    if i < n {
      AtIndex(vs[..n], i, a);
    }
  }

  lemma {:induction false} AtSome(vs: seq<Area>, a: nat) returns (i: nat)
    requires At(vs, a).Some?
    ensures i < |vs| && vs[i].Covers(a) && At(vs, a) == Some(vs[i].attr)
  {
    var n := |vs| - 1;
    if vs[n].Covers(a) {
      i := n;
    } else {
      i := AtSome(vs[..n], a);
    }
  }

  /** Nothing is mapped at or above the last end. */
  lemma {:induction false} AtBeyond(vs: seq<Area>, a: nat)
    requires forall i :: 0 <= i < |vs| ==> vs[i].end <= a
    ensures At(vs, a) == None
  {
    if vs != [] {
      AtBeyond(vs[..|vs| - 1], a);
    }
  }

  ghost predicate SameMap(u: seq<Area>, v: seq<Area>) {
    forall a :: At(u, a) == At(v, a)
  }

  lemma SortedPush(vs: seq<Area>, v: Area)
    requires Sorted(vs) && v.start < v.end && (vs == [] || vs[|vs| - 1].end <= v.start)
    ensures Sorted(vs + [v])
  {
  }

  lemma CanonicalPush(vs: seq<Area>, v: Area)
    requires Canonical(vs) && v.start < v.end
    requires vs != [] ==> vs[|vs| - 1].end <= v.start
    requires vs != [] && vs[|vs| - 1].end == v.start ==> vs[|vs| - 1].attr != v.attr
    ensures Canonical(vs + [v])
  {
    SortedPush(vs, v);
  }

  function ExtendLast(vs: seq<Area>, end: nat): (r: seq<Area>)
    requires vs != []
  {
    vs[..|vs| - 1] + [vs[|vs| - 1].(end := end)]
  }

  lemma CanonicalExtend(vs: seq<Area>, end: nat)
    requires Canonical(vs) && vs != [] && vs[|vs| - 1].end <= end
    ensures Canonical(ExtendLast(vs, end))
  {
  }

  lemma PushSameMap(u: seq<Area>, w: seq<Area>, v: Area)
    requires SameMap(u, w)
    ensures SameMap(u + [v], w + [v])
  {
    forall a
      ensures At(u + [v], a) == At(w + [v], a)
    {
      AtPush(u, v, a);
      AtPush(w, v, a);
    }
  }

  lemma ExtendSameMap(u: seq<Area>, w: seq<Area>, v: Area)
    requires SameMap(u, w) && u != [] && Sorted(u) && v.start < v.end
    requires u[|u| - 1].end == v.start && u[|u| - 1].attr == v.attr
    ensures SameMap(ExtendLast(u, v.end), w + [v])
  {
    var n := |u| - 1;
    forall a
      ensures At(ExtendLast(u, v.end), a) == At(w + [v], a)
    {
      AtPush(u[..n], u[n].(end := v.end), a);
      AtPush(w, v, a);
      assert At(u, a) == At(w, a);
    }
  }

  /** Grows the last merged area over `v` when they abut with equal attributes, else appends `v`. */
  function MergeIn(merged: seq<Area>, v: Area): (r: seq<Area>) {
    if merged != [] && merged[|merged| - 1].end == v.start && merged[|merged| - 1].attr == v.attr
    then ExtendLast(merged, v.end) else merged + [v]
  }

  ghost predicate CoalesceInv(vs: seq<Area>, k: nat, merged: seq<Area>)
    requires k <= |vs|
  {
    && Canonical(merged) && SameMap(merged, vs[..k])
    && (merged != [] ==> k > 0 && merged[|merged| - 1].end == vs[k - 1].end)
  }

  lemma MergeInOk(vs: seq<Area>, k: nat, merged: seq<Area>)
    requires k < |vs| && CoalesceInv(vs, k, merged) && vs[k].start < vs[k].end
    requires k > 0 ==> vs[k - 1].end <= vs[k].start
    ensures CoalesceInv(vs, k + 1, MergeIn(merged, vs[k]))
  {
    assert vs[..k + 1] == vs[..k] + [vs[k]];
    var v := vs[k];
    if merged != [] && merged[|merged| - 1].end == v.start && merged[|merged| - 1].attr == v.attr {
      CanonicalExtend(merged, v.end);
      ExtendSameMap(merged, vs[..k], v);
    } else {
      CanonicalPush(merged, v);
      PushSameMap(merged, vs[..k], v);
    }
  }

  /** The merging of the first `k` areas. */
  function MergeAll(vs: seq<Area>, k: nat): (r: seq<Area>)
    requires k <= |vs|
  {
    if k == 0 then [] else MergeIn(MergeAll(vs, k - 1), vs[k - 1])
  }

  lemma {:induction false} MergeAllOk(vs: seq<Area>, k: nat)
    requires Sorted(vs) && k <= |vs|
    ensures CoalesceInv(vs, k, MergeAll(vs, k))
  {
    hide MergeIn, At;
    if k == 0 {
      assert vs[..0] == [];
    } else {
      MergeAllOk(vs, k - 1);
      MergeInOk(vs, k - 1, MergeAll(vs, k - 1));
    }
  }

  lemma MergedOk(vs: seq<Area>)
    requires Sorted(vs)
    ensures Canonical(MergeAll(vs, |vs|)) && SameMap(MergeAll(vs, |vs|), vs)
  {
    hide Sorted, MergeAll, At;
    MergeAllOk(vs, |vs|);
    assert vs[..|vs|] == vs;
  }

  /** The second loop of insertion: merges abutting equal areas. */
  method Coalesce(vs: seq<Area>) returns (merged: seq<Area>)
    ensures merged == MergeAll(vs, |vs|)
    ensures Sorted(vs) ==> Canonical(merged) && SameMap(merged, vs)
  {
    hide Sorted, Canonical, SameMap, MergeIn;
    merged := [];
    var k := 0;
    while k < |vs|
      invariant 0 <= k <= |vs| && merged == MergeAll(vs, k)
    {
      merged := MergeIn(merged, vs[k]);
      k := k + 1;
    }
    if Sorted(vs) { MergedOk(vs); }
  }

  function AllButLast(vs: seq<Area>): (r: seq<Area>)
    requires vs != []
  {
    vs[..|vs| - 1]
  }

  lemma CanonicalPrefix(vs: seq<Area>)
    requires Canonical(vs) && vs != []
    ensures Canonical(AllButLast(vs))
    ensures forall a :: a >= vs[|vs| - 1].start ==> At(AllButLast(vs), a) == None
  {
    forall a | a >= vs[|vs| - 1].start
      ensures At(AllButLast(vs), a) == None
    {
      AtBeyond(AllButLast(vs), a);
    }
  }

  lemma DropLastSameMap(u: seq<Area>, v: seq<Area>)
    requires Canonical(u) && Canonical(v) && u != [] && v != [] && SameMap(u, v)
    requires u[|u| - 1] == v[|v| - 1]
    ensures SameMap(AllButLast(u), AllButLast(v))
  {
    CanonicalPrefix(u);
    CanonicalPrefix(v);
    forall a
      ensures At(AllButLast(u), a) == At(AllButLast(v), a)
    {
      assert At(u, a) == At(v, a);
    }
  }

  lemma Maps(v: seq<Area>)
    requires Canonical(v) && v != []
    ensures At(v, v[0].start).Some?
  {
    AtIndex(v, 0, v[0].start);
  }

  /** An exact list has one form: canonical lists that denote the same address map are equal. */
  lemma {:induction false} CanonicalUnique(u: seq<Area>, v: seq<Area>)
    requires Canonical(u) && Canonical(v) && SameMap(u, v)
    ensures u == v
  {
    if v != [] { Maps(v); }
    if u != [] { Maps(u); }
    if u != [] && v != [] {
      hide Canonical, SameMap, At;
      LastAreaAgrees(u, v);
      LastAreaAgrees(v, u);
      DropLastSameMap(u, v);
      CanonicalPrefix(u);
      CanonicalPrefix(v);
      CanonicalUnique(AllButLast(u), AllButLast(v));
      assert u == AllButLast(u) + [u[|u| - 1]] && v == AllButLast(v) + [v[|v| - 1]];
    }
  }

  /** Below the last area's start the map changes, so the other list's last area starts no lower. */
  lemma LastAreaAgrees(u: seq<Area>, v: seq<Area>)
    requires Canonical(u) && Canonical(v) && u != [] && v != [] && SameMap(u, v)
    ensures v[|v| - 1].start <= u[|u| - 1].start
    ensures v[|v| - 1].end >= u[|u| - 1].end
    ensures v[|v| - 1].attr == u[|u| - 1].attr
  {
    var x, y := u[|u| - 1], v[|v| - 1];
    AtIndex(u, |u| - 1, x.end - 1);
    var i := AtSome(v, x.end - 1);
    assert y.end >= x.end;
    AtIndex(v, |v| - 1, y.end - 1);
    var j := AtSome(u, y.end - 1);
    assert y.end == x.end;
    assert At(v, x.end - 1) == Some(y.attr) by { AtIndex(v, |v| - 1, x.end - 1); }
    if x.start < y.start {
      AtIndex(u, |u| - 1, y.start - 1);
      var k := AtSome(v, y.start - 1);
      assert false;
    }
  }

  // ----- insertion -----

  /** The loop variables of the first loop of insertion. */
  datatype Splice = Splice(out: seq<Area>, inserted: bool, lo: nat, hi: nat)

  /** One round: areas left of the range are kept, the range is emitted before the first area to
      its right or with other attributes, and overlapped areas are merged or split around it. */
  function SpliceStep(s: Splice, v: Area, attr: Attr): (r: Splice) {
    var range := Area(s.lo, s.hi, attr);
    if v.end <= s.lo then s.(out := s.out + [v])
    else if v.start >= s.hi then
      s.(out := (if s.inserted then s.out else s.out + [range]) + [v], inserted := true)
    else if v.attr == attr then
      s.(lo := if v.start < s.lo then v.start else s.lo, hi := if v.end > s.hi then v.end else s.hi)
    else
      var left := if v.start < s.lo then s.out + [Area(v.start, s.lo, v.attr)] else s.out;
      var mid := if s.inserted then left else left + [range];
      var right := if v.end > s.hi then mid + [Area(s.hi, v.end, v.attr)] else mid;
      s.(out := right, inserted := true)
  }

  /** End of the part of the list processed so far. */
  function EndOf(vs: seq<Area>, k: nat): (e: nat)
    requires k <= |vs|
  {
    if k == 0 then 0 else vs[k - 1].end
  }

  ghost predicate EndsBy(vs: seq<Area>, bound: nat) {
    forall i :: 0 <= i < |vs| ==> vs[i].end <= bound
  }

  /** While the range is pending it has swallowed only areas with its own attributes. */
  ghost predicate Pending(vs: seq<Area>, start: nat, end: nat, attr: Attr, k: nat, s: Splice)
    requires k <= |vs|
  {
    var done := vs[..k];
    && s.lo <= start && end <= s.hi && EndOf(vs, k) <= s.hi
    && EndsBy(s.out, s.lo) && EndsBy(s.out, EndOf(vs, k))
    && !DiffersIn(done, start, end, attr)
    && (s.hi > end ==> EndOf(vs, k) == s.hi)
    && forall a: nat ::
      && (a < s.lo ==> At(s.out, a) == At(done, a))
      && (s.lo <= a < start || end <= a < s.hi ==> At(done, a) == Some(attr))
  }

  /** Once emitted, the output is the insertion into the processed part. */
  ghost predicate Emitted(vs: seq<Area>, start: nat, end: nat, attr: Attr, k: nat, s: Splice)
    requires k <= |vs|
  {
    var done := vs[..k];
    && s.lo <= start && end <= s.hi && EndsBy(s.out, if s.hi > EndOf(vs, k) then s.hi else EndOf(vs, k))
    && (s.hi > end ==> EndOf(vs, k) >= s.hi)
    && (DiffersIn(done, start, end, attr) || EndOf(vs, k) >= s.hi)
    && forall a :: At(s.out, a) == AfterInsert(done, start, end, attr, a)
  }

  ghost predicate SpliceInv(vs: seq<Area>, start: nat, end: nat, attr: Attr, k: nat, s: Splice)
    requires k <= |vs|
  {
    && Sorted(s.out) && s.lo < s.hi
    && if s.inserted then Emitted(vs, start, end, attr, k, s) else Pending(vs, start, end, attr, k, s)
  }

  lemma SpliceStepOk(vs: seq<Area>, start: nat, end: nat, attr: Attr, k: nat, s: Splice)
    requires Sorted(vs) && start < end && k < |vs| && SpliceInv(vs, start, end, attr, k, s)
    ensures SpliceInv(vs, start, end, attr, k + 1, SpliceStep(s, vs[k], attr))
  {
    var v := vs[k];
    assert vs[..k + 1] == vs[..k] + [v];
    if !s.inserted {
      if v.end <= s.lo {
        PendingLeft(vs, start, end, attr, k, s);
      } else if v.start >= s.hi {
        PendingRight(vs, start, end, attr, k, s);
      } else if v.attr == attr {
        PendingSame(vs, start, end, attr, k, s);
      } else {
        PendingOther(vs, start, end, attr, k, s);
      }
    } else {
      EmittedStep(vs, start, end, attr, k, s);
    }
  }

  lemma DiffersPush(vs: seq<Area>, v: Area, lo: nat, hi: nat, attr: Attr)
    ensures DiffersIn(vs + [v], lo, hi, attr) <==> DiffersIn(vs, lo, hi, attr) || (v.Overlaps(lo, hi) && v.attr != attr)
  {
    var w := vs + [v];
    if i :| 0 <= i < |vs| && vs[i].Overlaps(lo, hi) && vs[i].attr != attr {
      assert w[i] == vs[i];
    }
    assert w[|vs|] == v;
  }

  lemma StraddlesPush(vs: seq<Area>, v: Area, hi: nat, attr: Attr, a: nat)
    ensures Straddles(vs + [v], hi, attr, a) <==>
      Straddles(vs, hi, attr, a) || (v.start < hi <= a < v.end && v.attr == attr)
  {
    var w := vs + [v];
    if j :| 0 <= j < |vs| && vs[j].start < hi <= a < vs[j].end && vs[j].attr == attr {
      assert w[j] == vs[j];
    }
    assert w[|vs|] == v;
  }

  /** The processed part reaches no further than its last end, nor than the next start. */
  lemma DoneBelow(vs: seq<Area>, k: nat)
    requires Sorted(vs) && k < |vs|
    ensures EndOf(vs, k) <= vs[k].start
    ensures forall a :: a >= EndOf(vs, k) ==> At(vs[..k], a) == None
    ensures forall hi, attr, a :: a >= EndOf(vs, k) ==> !Straddles(vs[..k], hi, attr, a)
    ensures vs[..k + 1] == vs[..k] + [vs[k]]
  {
    forall a | a >= EndOf(vs, k)
      ensures At(vs[..k], a) == None
    {
      AtBeyond(vs[..k], a);
    }
  }

  lemma BeyondEnds(out: seq<Area>, bound: nat)
    requires EndsBy(out, bound)
    ensures forall a :: a >= bound ==> At(out, a) == None
  {
    forall a | a >= bound
      ensures At(out, a) == None
    {
      AtBeyond(out, a);
    }
  }

  lemma PushAll(vs: seq<Area>, v: Area)
    ensures forall a :: At(vs + [v], a) == if v.Covers(a) then Some(v.attr) else At(vs, a)
  {
    forall a
      ensures At(vs + [v], a) == if v.Covers(a) then Some(v.attr) else At(vs, a)
    {
      AtPush(vs, v, a);
    }
  }

  lemma PendingLeft(vs: seq<Area>, start: nat, end: nat, attr: Attr, k: nat, s: Splice)
    requires Sorted(vs) && start < end && k < |vs| && SpliceInv(vs, start, end, attr, k, s)
    requires !s.inserted && vs[k].end <= s.lo
    ensures SpliceInv(vs, start, end, attr, k + 1, SpliceStep(s, vs[k], attr))
  {
    var v := vs[k];
    DoneBelow(vs, k);
    DiffersPush(vs[..k], v, start, end, attr);
    SortedPush(s.out, v);
    PushAll(s.out, v);
    PushAll(vs[..k], v);
  }

  lemma PendingRight(vs: seq<Area>, start: nat, end: nat, attr: Attr, k: nat, s: Splice)
    requires Sorted(vs) && start < end && k < |vs| && SpliceInv(vs, start, end, attr, k, s)
    requires !s.inserted && vs[k].end > s.lo && vs[k].start >= s.hi
    ensures SpliceInv(vs, start, end, attr, k + 1, SpliceStep(s, vs[k], attr))
  {
    hide Sorted, DiffersIn, At;
    var v := vs[k];
    var range := Area(s.lo, s.hi, attr);
    NonEmpty(vs, k);
    DoneBelow(vs, k);
    DiffersPush(vs[..k], v, start, end, attr);
    SortedPush(s.out, range);
    SortedPush(s.out + [range], v);
    BeyondEnds(s.out, s.lo);
    PushAll(s.out, range);
    PushAll(s.out + [range], v);
    PushAll(vs[..k], v);
  }

  lemma PendingSame(vs: seq<Area>, start: nat, end: nat, attr: Attr, k: nat, s: Splice)
    requires Sorted(vs) && start < end && k < |vs| && SpliceInv(vs, start, end, attr, k, s)
    requires !s.inserted && vs[k].end > s.lo && vs[k].start < s.hi && vs[k].attr == attr
    ensures SpliceInv(vs, start, end, attr, k + 1, SpliceStep(s, vs[k], attr))
  {
    DoneBelow(vs, k);
    DiffersPush(vs[..k], vs[k], start, end, attr);
    PushAll(vs[..k], vs[k]);
  }

  /** Where the range and an area with other attributes lie when the range is emitted around it. */
  lemma PendingOtherFacts(vs: seq<Area>, start: nat, end: nat, attr: Attr, k: nat, s: Splice)
    requires Sorted(vs) && start < end && k < |vs| && s.lo < s.hi && Pending(vs, start, end, attr, k, s)
    requires vs[k].end > s.lo && vs[k].start < s.hi
    ensures s.hi == end && EndOf(vs, k) <= vs[k].start
    ensures vs[k].start < s.lo ==> s.lo == start
    ensures vs[k].start < start ==> s.lo == start
    ensures vs[k].Overlaps(start, end)
  {
    DoneBelow(vs, k);
    if s.lo < start {
      assert At(vs[..k], start - 1) == Some(attr);
      assert EndOf(vs, k) >= start;
    }
  }

  lemma PendingOtherAt(vs: seq<Area>, start: nat, end: nat, attr: Attr, k: nat, s: Splice, a: nat)
    requires Sorted(vs) && start < end && k < |vs| && s.lo < s.hi && Pending(vs, start, end, attr, k, s)
    requires !s.inserted && vs[k].end > s.lo && vs[k].start < s.hi && vs[k].attr != attr
    ensures At(SpliceStep(s, vs[k], attr).out, a) == AfterInsert(vs[..k + 1], start, end, attr, a)
  {
    hide Sorted, DiffersIn, At;
    var v := vs[k];
    NonEmpty(vs, k);
    PendingOtherFacts(vs, start, end, attr, k, s);
    DoneBelow(vs, k);
    DiffersPush(vs[..k], v, start, end, attr);
    StraddlesPush(vs[..k], v, end, attr, a);
    AtPush(vs[..k], v, a);
    var left := if v.start < s.lo then s.out + [Area(v.start, s.lo, v.attr)] else s.out;
    AtPush(s.out, Area(v.start, s.lo, v.attr), a);
    AtPush(left, Area(s.lo, s.hi, attr), a);
    AtPush(left + [Area(s.lo, s.hi, attr)], Area(s.hi, v.end, v.attr), a);
    if a >= s.lo { AtBeyond(s.out, a); }
  }

  lemma SortedEndsPush(vs: seq<Area>, v: Area)
    requires Sorted(vs) && EndsBy(vs, v.start) && v.start < v.end
    ensures Sorted(vs + [v]) && EndsBy(vs + [v], v.end)
  {
    SortedPush(vs, v);
  }

  lemma PendingOtherSorted(s: Splice, v: Area, attr: Attr)
    requires v.start < v.end && s.lo < s.hi && Sorted(s.out)
    requires EndsBy(s.out, s.lo) && EndsBy(s.out, v.start) && !s.inserted
    requires v.end > s.lo && v.start < s.hi && v.attr != attr
    ensures var out := SpliceStep(s, v, attr).out;
            Sorted(out) && EndsBy(out, if s.hi > v.end then s.hi else v.end)
  {
    var left := if v.start < s.lo then s.out + [Area(v.start, s.lo, v.attr)] else s.out;
    if v.start < s.lo {
      SortedEndsPush(s.out, Area(v.start, s.lo, v.attr));
    }
    SortedEndsPush(left, Area(s.lo, s.hi, attr));
    if v.end > s.hi {
      SortedEndsPush(left + [Area(s.lo, s.hi, attr)], Area(s.hi, v.end, v.attr));
    }
  }

  lemma PendingOther(vs: seq<Area>, start: nat, end: nat, attr: Attr, k: nat, s: Splice)
    requires Sorted(vs) && start < end && k < |vs| && SpliceInv(vs, start, end, attr, k, s)
    requires !s.inserted && vs[k].end > s.lo && vs[k].start < s.hi && vs[k].attr != attr
    ensures SpliceInv(vs, start, end, attr, k + 1, SpliceStep(s, vs[k], attr))
  {
    var v := vs[k];
    PendingOtherFacts(vs, start, end, attr, k, s);
    assert EndsBy(s.out, v.start);
    PendingOtherSorted(s, v, attr);
    DoneBelow(vs, k);
    DiffersPush(vs[..k], v, start, end, attr);
    forall a
      ensures At(SpliceStep(s, v, attr).out, a) == AfterInsert(vs[..k + 1], start, end, attr, a)
    {
      PendingOtherAt(vs, start, end, attr, k, s, a);
    }
  }

  /** After emission the next area starts above the range's start; if it still meets the range,
      the range was not extended and an area with other attributes was met before. */
  lemma EmittedFacts(vs: seq<Area>, start: nat, end: nat, attr: Attr, k: nat, s: Splice)
    requires Sorted(vs) && start < end && k < |vs| && s.lo < s.hi && Emitted(vs, start, end, attr, k, s)
    ensures s.lo < vs[k].start && EndOf(vs, k) <= vs[k].start
    ensures vs[k].start < s.hi ==> s.hi == end && DiffersIn(vs[..k], start, end, attr) && start < vs[k].start
  {
    DoneBelow(vs, k);
    if DiffersIn(vs[..k], start, end, attr) {
      var i :| 0 <= i < |vs[..k]| && vs[..k][i].Overlaps(start, end) && vs[..k][i].attr != attr;
      assert vs[i].end <= vs[k].start;
    }
  }

  lemma EmittedAt(vs: seq<Area>, start: nat, end: nat, attr: Attr, k: nat, s: Splice, a: nat)
    requires Sorted(vs) && start < end && k < |vs| && s.lo < s.hi && s.inserted && Emitted(vs, start, end, attr, k, s)
    ensures At(SpliceStep(s, vs[k], attr).out, a) == AfterInsert(vs[..k + 1], start, end, attr, a)
  {
    var v := vs[k];
    EmittedFacts(vs, start, end, attr, k, s);
    DoneBelow(vs, k);
    DiffersPush(vs[..k], v, start, end, attr);
    StraddlesPush(vs[..k], v, end, attr, a);
    AtPush(vs[..k], v, a);
    AtPush(s.out, v, a);
    AtPush(s.out, Area(s.hi, v.end, v.attr), a);
    assert At(s.out, a) == AfterInsert(vs[..k], start, end, attr, a);
  }

  lemma EmittedSorted(v: Area, attr: Attr, s: Splice, bound: nat)
    requires Sorted(s.out) && s.inserted && s.lo < v.start < v.end && bound <= v.start
    requires EndsBy(s.out, if s.hi > bound then s.hi else bound)
    ensures var r := SpliceStep(s, v, attr);
            Sorted(r.out) && EndsBy(r.out, if r.hi > v.end then r.hi else v.end)
  {
    if v.start >= s.hi {
      SortedPush(s.out, v);
    } else if v.attr != attr && v.end > s.hi {
      SortedPush(s.out, Area(s.hi, v.end, v.attr));
    }
  }

  lemma EmittedStep(vs: seq<Area>, start: nat, end: nat, attr: Attr, k: nat, s: Splice)
    requires Sorted(vs) && start < end && k < |vs| && SpliceInv(vs, start, end, attr, k, s)
    requires s.inserted
    ensures SpliceInv(vs, start, end, attr, k + 1, SpliceStep(s, vs[k], attr))
  {
    hide Sorted, EndsBy, DiffersIn, Straddles, At, AfterInsert;
    var v := vs[k];
    NonEmpty(vs, k);
    EmittedFacts(vs, start, end, attr, k, s);
    assert vs[..k + 1] == vs[..k] + [v];
    DiffersPush(vs[..k], v, start, end, attr);
    EmittedSorted(vs[k], attr, s, EndOf(vs, k));
    forall a
      ensures At(SpliceStep(s, v, attr).out, a) == AfterInsert(vs[..k + 1], start, end, attr, a)
    {
      EmittedAt(vs, start, end, attr, k, s, a);
    }
  }

  lemma NonEmpty(vs: seq<Area>, k: nat)
    requires Sorted(vs) && k < |vs|
    ensures vs[k].start < vs[k].end
  {
  }

  /** The first loop after `k` areas. */
  function SpliceAll(vs: seq<Area>, k: nat, start: nat, end: nat, attr: Attr): (s: Splice)
    requires k <= |vs|
  {
    if k == 0 then Splice([], false, start, end)
      else SpliceStep(SpliceAll(vs, k - 1, start, end, attr), vs[k - 1], attr)
  }

  /** A range still pending after the loop goes last. */
  function Finish(s: Splice, attr: Attr): (out: seq<Area>) {
    if s.inserted then s.out else s.out + [Area(s.lo, s.hi, attr)]
  }

  /** The list after inserting `[start, end)`. */
  function Inserted(vs: seq<Area>, start: nat, end: nat, attr: Attr): (r: seq<Area>) {
    if start >= end then vs
    else
      var out := Finish(SpliceAll(vs, |vs|, start, end, attr), attr);
      MergeAll(out, |out|)
  }

  lemma {:induction false} SpliceAllOk(vs: seq<Area>, k: nat, start: nat, end: nat, attr: Attr)
    requires Sorted(vs) && start < end && k <= |vs|
    ensures SpliceInv(vs, start, end, attr, k, SpliceAll(vs, k, start, end, attr))
  {
    hide Sorted, SpliceStep;
    if k == 0 {
      NothingSpliced(vs, start, end, attr);
    } else {
      SpliceAllOk(vs, k - 1, start, end, attr);
      SpliceStepOk(vs, start, end, attr, k - 1, SpliceAll(vs, k - 1, start, end, attr));
    }
  }

  lemma NothingSpliced(vs: seq<Area>, start: nat, end: nat, attr: Attr)
    requires start < end
    ensures SpliceInv(vs, start, end, attr, 0, Splice([], false, start, end))
  {
    assert vs[..0] == [];
  }

  /** Insertion keeps the list canonical and maps every address as AfterInsert says: the range
      overrides, and only in the tail-losing case are the addresses above it, up to the end of that
      last area, dropped. */
  lemma InsertedOk(vs: seq<Area>, start: nat, end: nat, attr: Attr)
    requires Canonical(vs)
    ensures Canonical(Inserted(vs, start, end, attr))
    ensures start < end ==>
      forall a: nat :: At(Inserted(vs, start, end, attr), a) == AfterInsert(vs, start, end, attr, a)
  {
    hide Canonical, Sorted, SpliceAll, MergeAll, SpliceInv, At, AfterInsert;
    if start < end {
      CanonicalSorted(vs);
      SpliceAllOk(vs, |vs|, start, end, attr);
      var s := SpliceAll(vs, |vs|, start, end, attr);
      FinishOk(vs, start, end, attr, s);
      MergedOk(Finish(s, attr));
    }
  }

  lemma CanonicalSorted(vs: seq<Area>)
    requires Canonical(vs)
    ensures Sorted(vs)
  {
  }

  /** Inserts `[start, end)`: the two loops of `insert_vma`. */
  method InsertArea(vs: seq<Area>, start: nat, end: nat, attr: Attr) returns (r: seq<Area>)
    ensures r == Inserted(vs, start, end, attr)
    ensures Canonical(vs) ==> Canonical(r)
    ensures Canonical(vs) && start < end ==> forall a: nat :: At(r, a) == AfterInsert(vs, start, end, attr, a)
  {
    hide Canonical, At, AfterInsert, SpliceStep, MergeAll, Sorted, SameMap;
    if Canonical(vs) { InsertedOk(vs, start, end, attr); }
    if start >= end {
      return vs;
    }
    var s := Splice([], false, start, end);
    var k := 0;
    while k < |vs|
      invariant 0 <= k <= |vs| && s == SpliceAll(vs, k, start, end, attr)
    {
      s := SpliceStep(s, vs[k], attr);
      k := k + 1;
    }
    if !s.inserted {
      s := s.(out := s.out + [Area(s.lo, s.hi, attr)]);
    }
    r := Coalesce(s.out);
  }

  lemma FinishOk(vs: seq<Area>, start: nat, end: nat, attr: Attr, s: Splice)
    requires start < end && Sorted(vs) && SpliceInv(vs, start, end, attr, |vs|, s)
    ensures Sorted(Finish(s, attr)) && forall a: nat :: At(Finish(s, attr), a) == AfterInsert(vs, start, end, attr, a)
  {
    hide At, AfterInsert, Sorted;
    assert vs[..|vs|] == vs;
    if !s.inserted {
      FinishPending(vs, start, end, attr, s);
    }
  }

  lemma FinishPendingAt(vs: seq<Area>, start: nat, end: nat, attr: Attr, s: Splice, a: nat)
    requires start < end && Pending(vs, start, end, attr, |vs|, s) && Sorted(vs)
    ensures At(s.out + [Area(s.lo, s.hi, attr)], a) == AfterInsert(vs, start, end, attr, a)
  {
    assert vs[..|vs|] == vs;
    AtPush(s.out, Area(s.lo, s.hi, attr), a);
    if a >= s.hi {
      AtBeyond(s.out, a);
      AtBeyond(vs, a);
    }
  }

  lemma FinishPending(vs: seq<Area>, start: nat, end: nat, attr: Attr, s: Splice)
    requires start < end && !s.inserted && SpliceInv(vs, start, end, attr, |vs|, s) && Sorted(vs)
    ensures Sorted(s.out + [Area(s.lo, s.hi, attr)])
    ensures forall a :: At(s.out + [Area(s.lo, s.hi, attr)], a) == AfterInsert(vs, start, end, attr, a)
  {
    SortedPush(s.out, Area(s.lo, s.hi, attr));
    forall a
      ensures At(s.out + [Area(s.lo, s.hi, attr)], a) == AfterInsert(vs, start, end, attr, a)
    {
      FinishPendingAt(vs, start, end, attr, s, a);
    }
  }

  /** Insertion is exact override of the range if and only if the tail-losing case is absent. */
  lemma InsertExactIff(vs: seq<Area>, start: nat, end: nat, attr: Attr)
    requires Canonical(vs) && start < end
    ensures (forall a: nat :: AfterInsert(vs, start, end, attr, a) == if start <= a < end then Some(attr)
      else At(vs, a))
       <==> !TailLoss(vs, start, end, attr)
  {
    if TailLoss(vs, start, end, attr) {
      var j :| 0 <= j < |vs| && vs[j].start < end < vs[j].end && vs[j].attr == attr;
      assert Straddles(vs, end, attr, end);
      AtIndex(vs, j, end);
      assert AfterInsert(vs, start, end, attr, end) != At(vs, end);
    }
  }

  /** The tail-losing case happens: re-protecting a range whose last area already has the new
      attributes drops that area's pages above the range. */
  lemma TailLossExample()
    ensures var was, now := Attr(1, 0), Attr(3, 0);
            var vs := [Area(0x1000, 0x2000, was), Area(0x2000, 0x4000, now)];
            && Canonical(vs) && TailLoss(vs, 0x1000, 0x3000, now)
            && At(vs, 0x3000) == Some(now)
            && AfterInsert(vs, 0x1000, 0x3000, now, 0x3000) == None
  {
    var was, now := Attr(1, 0), Attr(3, 0);
    var vs := [Area(0x1000, 0x2000, was), Area(0x2000, 0x4000, now)];
    assert vs[0].Overlaps(0x1000, 0x3000) && vs[0].attr != now;
    assert vs[1].start < 0x3000 < vs[1].end;
  }

  // ----- removal -----

  /** What one area leaves outside `[start, end)`. */
  function RemoveStep(out: seq<Area>, v: Area, start: nat, end: nat): (r: seq<Area>) {
    if v.end <= start || v.start >= end then out + [v]
    else
      var left := if v.start < start then out + [v.(end := start)] else out;
      if v.end > end then left + [v.(start := end)] else left
  }

  ghost function AfterRemove(vs: seq<Area>, start: nat, end: nat, a: nat): (r: Option<Attr>) {
    if start <= a < end then None else At(vs, a)
  }

  /** The kept list is canonical and ends no later than the areas already looked at. */
  ghost predicate RemoveShape(vs: seq<Area>, k: nat, out: seq<Area>)
    requires k <= |vs|
  {
    && Canonical(out)
    && (out != [] ==>
          && k > 0 && out[|out| - 1].end <= EndOf(vs, k)
          && (out[|out| - 1].end == EndOf(vs, k) ==> out[|out| - 1].attr == vs[k - 1].attr))
  }

  ghost predicate RemoveInv(vs: seq<Area>, start: nat, end: nat, k: nat, out: seq<Area>)
    requires k <= |vs|
  {
    && RemoveShape(vs, k, out)
    && forall a :: At(out, a) == AfterRemove(vs[..k], start, end, a)
  }

  /** A part of the next area may follow what was kept. */
  lemma KeptPush(out: seq<Area>, v: Area, part: Area)
    requires Canonical(out) && part.start == v.start < part.end && part.attr == v.attr
    requires out != [] ==>
      out[|out| - 1].end <= v.start && (out[|out| - 1].end == v.start ==> out[|out| - 1].attr != v.attr)
    ensures Canonical(out + [part])
  {
    CanonicalPush(out, part);
  }

  /** How an area of a canonical list follows the one before it. */
  lemma NextArea(vs: seq<Area>, k: nat)
    requires Canonical(vs) && k < |vs|
    ensures vs[k].start < vs[k].end && EndOf(vs, k) <= vs[k].start
    ensures k > 0 && EndOf(vs, k) == vs[k].start ==> vs[k - 1].attr != vs[k].attr
  {
  }

  lemma RemoveStepShape(vs: seq<Area>, start: nat, end: nat, k: nat, out: seq<Area>)
    requires Canonical(vs) && start < end && k < |vs| && RemoveShape(vs, k, out)
    ensures RemoveShape(vs, k + 1, RemoveStep(out, vs[k], start, end))
  {
    hide Canonical;
    var v := vs[k];
    NextArea(vs, k);
    if v.end <= start || v.start >= end {
      KeptPush(out, v, v);
    } else {
      var left := if v.start < start then out + [v.(end := start)] else out;
      if v.start < start {
        KeptPush(out, v, v.(end := start));
      }
      if v.end > end {
        assert left != [] ==> left[|left| - 1].end < end;
        CanonicalPush(left, v.(start := end));
      }
    }
  }

  lemma RemoveStepAt(vs: seq<Area>, start: nat, end: nat, k: nat, out: seq<Area>, a: nat)
    requires Sorted(vs) && start < end && k < |vs| && At(out, a) == AfterRemove(vs[..k], start, end, a)
    ensures At(RemoveStep(out, vs[k], start, end), a) == AfterRemove(vs[..k + 1], start, end, a)
  {
    var v := vs[k];
    DoneBelow(vs, k);
    AtPush(vs[..k], v, a);
    AtPush(out, v, a);
    AtPush(out, v.(end := start), a);
    var left := if v.start < start then out + [v.(end := start)] else out;
    AtPush(left, v.(start := end), a);
  }

  lemma RemoveStepOk(vs: seq<Area>, start: nat, end: nat, k: nat, out: seq<Area>)
    requires Canonical(vs) && start < end && k < |vs| && RemoveInv(vs, start, end, k, out)
    ensures RemoveInv(vs, start, end, k + 1, RemoveStep(out, vs[k], start, end))
  {
    RemoveStepShape(vs, start, end, k, out);
    hide Sorted, RemoveShape;
    forall a
      ensures At(RemoveStep(out, vs[k], start, end), a) == AfterRemove(vs[..k + 1], start, end, a)
    {
      RemoveStepAt(vs, start, end, k, out, a);
    }
  }

  /** What the first `k` areas leave outside the range. */
  function RemoveAll(vs: seq<Area>, k: nat, start: nat, end: nat): (r: seq<Area>)
    requires k <= |vs|
  {
    if k == 0 then [] else RemoveStep(RemoveAll(vs, k - 1, start, end), vs[k - 1], start, end)
  }

  /** The list after removing `[start, end)`. */
  function Removed(vs: seq<Area>, start: nat, end: nat): (r: seq<Area>) {
    if start >= end then vs else RemoveAll(vs, |vs|, start, end)
  }

  lemma {:induction false} RemoveAllOk(vs: seq<Area>, k: nat, start: nat, end: nat)
    requires Canonical(vs) && start < end && k <= |vs|
    ensures RemoveInv(vs, start, end, k, RemoveAll(vs, k, start, end))
  {
    hide RemoveStep, Sorted;
    if k == 0 {
      assert vs[..0] == [];
      NoAreas();
    } else {
      RemoveAllOk(vs, k - 1, start, end);
      RemoveStepOk(vs, start, end, k - 1, RemoveAll(vs, k - 1, start, end));
    }
  }

  lemma NoAreas()
    ensures Canonical([])
  {
  }

  /** Removal keeps the list canonical and is exact deletion. */
  lemma RemovedOk(vs: seq<Area>, start: nat, end: nat)
    requires Canonical(vs)
    ensures Canonical(Removed(vs, start, end))
    ensures start < end ==> forall a: nat :: At(Removed(vs, start, end), a) == AfterRemove(vs, start, end, a)
  {
    hide Canonical, RemoveAll, At, AfterRemove;
    if start < end {
      RemoveAllOk(vs, |vs|, start, end);
      assert vs[..|vs|] == vs;
    }
  }

  /** Removes `[start, end)` from the list. */
  method RemoveRange(vs: seq<Area>, start: nat, end: nat) returns (r: seq<Area>)
    ensures r == Removed(vs, start, end)
    ensures Canonical(vs) ==> Canonical(r)
    ensures Canonical(vs) && start < end ==> forall a: nat :: At(r, a) == AfterRemove(vs, start, end, a)
  {
    hide Canonical, At, AfterRemove, RemoveStep;
    if Canonical(vs) { RemovedOk(vs, start, end); }
    if start >= end {
      return vs;
    }
    r := [];
    var k := 0;
    while k < |vs|
      invariant 0 <= k <= |vs| && r == RemoveAll(vs, k, start, end)
    {
      r := RemoveStep(r, vs[k], start, end);
      k := k + 1;
    }
  }

  // ----- coverage and reprotection -----

  ghost predicate Covered(vs: seq<Area>, start: nat, end: nat) {
    forall a :: start <= a < end ==> At(vs, a).Some?
  }

  /** Walks the list once; succeeds exactly when every address of a non-empty range is covered. */
  method ContainsRange(vs: seq<Area>, start: nat, end: nat) returns (b: bool)
    requires Sorted(vs)
    ensures b <==> start < end && Covered(vs, start, end)
  {
    if start >= end {
      return false;
    }
    var curr := start;
    var k := 0;
    while k < |vs|
      invariant 0 <= k <= |vs| && start <= curr < end
      invariant forall a :: start <= a < curr ==> At(vs, a).Some?
      invariant forall i :: 0 <= i < k ==> !vs[i].Covers(curr)
    {
      var v := vs[k];
      if v.start <= curr && v.end > curr {
        forall a | curr <= a < v.end
          ensures At(vs, a).Some?
        {
          AtIndex(vs, k, a);
        }
        curr := v.end;
        if curr >= end {
          return true;
        }
      }
      k := k + 1;
    }
    if At(vs, curr).Some? {
      var i := AtSome(vs, curr);
      assert false;
    }
    return false;
  }

  /** In a canonical list a stretch with constant attributes lies inside one area. */
  lemma ConstantSpan(vs: seq<Area>, lo: nat, hi: nat, attr: Attr) returns (i: nat)
    requires Canonical(vs) && lo < hi
    requires forall a :: lo <= a < hi ==> At(vs, a) == Some(attr)
    ensures i < |vs| && vs[i].start <= lo && hi <= vs[i].end && vs[i].attr == attr
  {
    i := AtSome(vs, lo);
    assert i + 1 < |vs| ==> vs[i + 1].start >= vs[i].end;
    if vs[i].end < hi {
      var j := AtSome(vs, vs[i].end);
    }
  }

  /** So re-protecting such a stretch never meets the tail-losing case. */
  lemma ConstantSpanNoTailLoss(vs: seq<Area>, lo: nat, hi: nat, attr: Attr, newAttr: Attr)
    requires Canonical(vs) && lo < hi
    requires forall a :: lo <= a < hi ==> At(vs, a) == Some(attr)
    ensures !TailLoss(vs, lo, hi, newAttr)
  {
    var i := ConstantSpan(vs, lo, hi, attr);
    forall j | 0 <= j < |vs| && vs[j].Overlaps(lo, hi)
      ensures j == i
    {
    }
    if TailLoss(vs, lo, hi, newAttr) {
      var j :| 0 <= j < |vs| && vs[j].start < hi < vs[j].end && vs[j].attr == newAttr;
      assert vs[j].Overlaps(lo, hi);
    }
  }

  datatype Segment = Segment(lo: nat, hi: nat, flags: bv32)

  ghost predicate InSegments(segs: seq<Segment>, a: nat) {
    exists i :: 0 <= i < |segs| && segs[i].lo <= a < segs[i].hi
  }

  ghost function AfterProtect(vs: seq<Area>, start: nat, end: nat, prot: bv32, a: nat): (r: Option<Attr>) {
    if start <= a < end && At(vs, a).Some? then Some(At(vs, a).value.(prot := prot)) else At(vs, a)
  }

  /** The segment lies in one of the first `k` areas and carries its flags. */
  ghost predicate FromArea(vs: seq<Area>, k: nat, seg: Segment)
    requires k <= |vs|
  {
    exists x :: 0 <= x < k && vs[x].start <= seg.lo && seg.hi <= vs[x].end && vs[x].attr.flags == seg.flags
  }

  ghost predicate SegmentsSorted(segs: seq<Segment>, start: nat, end: nat) {
    && (forall i :: 0 <= i < |segs| ==> start <= segs[i].lo < segs[i].hi <= end)
    && (forall i, j :: 0 <= i < j < |segs| ==> segs[i].hi <= segs[j].lo)
  }

  /** The pieces of the first `k` areas inside `[start, end)`, each with its area's flags. */
  ghost predicate SegmentsOf(vs: seq<Area>, k: nat, start: nat, end: nat, segs: seq<Segment>)
    requires k <= |vs|
  {
    && SegmentsSorted(segs, start, end)
    && (segs != [] ==> segs[|segs| - 1].hi <= EndOf(vs, k))
    && (forall i :: 0 <= i < |segs| ==> FromArea(vs, k, segs[i]))
    && (forall a :: start <= a < end && At(vs[..k], a).Some? ==> InSegments(segs, a))
  }

  function Max(x: nat, y: nat): (r: nat) { if x > y then x else y }

  function Min(x: nat, y: nat): (r: nat) { if x < y then x else y }

  lemma SegmentsPushSorted(segs: seq<Segment>, seg: Segment, start: nat, end: nat)
    requires SegmentsSorted(segs, start, end) && start <= seg.lo < seg.hi <= end
    requires segs != [] ==> segs[|segs| - 1].hi <= seg.lo
    ensures SegmentsSorted(segs + [seg], start, end)
  {
  }

  lemma InSegmentsPush(segs: seq<Segment>, seg: Segment, a: nat)
    ensures InSegments(segs + [seg], a) <==> InSegments(segs, a) || seg.lo <= a < seg.hi
  {
    var w := segs + [seg];
    if i :| 0 <= i < |segs| && segs[i].lo <= a < segs[i].hi {
      assert w[i] == segs[i];
    }
    assert w[|segs|] == seg;
  }

  /** The piece of an area inside the range, if any, goes on the list. */
  function SegmentStep(segs: seq<Segment>, v: Area, start: nat, end: nat): (r: seq<Segment>) {
    var seg := Segment(Max(v.start, start), Min(v.end, end), v.attr.flags);
    if seg.lo < seg.hi then segs + [seg] else segs
  }

  lemma SegmentsStep(vs: seq<Area>, k: nat, start: nat, end: nat, segs: seq<Segment>)
    requires Sorted(vs) && k < |vs| && SegmentsOf(vs, k, start, end, segs)
    ensures SegmentsOf(vs, k + 1, start, end, SegmentStep(segs, vs[k], start, end))
  {
    hide FromArea, InSegments, At, SegmentsSorted;
    var v := vs[k];
    var seg := Segment(Max(v.start, start), Min(v.end, end), v.attr.flags);
    assert EndOf(vs, k) <= v.start;
    SegmentsFrom(vs, k, seg, segs, start, end);
    if seg.lo < seg.hi {
      SegmentsPushSorted(segs, seg, start, end);
    }
    forall a: nat | start <= a < end && At(vs[..k + 1], a).Some?
      ensures InSegments(SegmentStep(segs, v, start, end), a)
    {
      assert vs[..k + 1] == vs[..k] + [v];
      AtPush(vs[..k], v, a);
      InSegmentsPush(segs, seg, a);
    }
  }

  lemma SegmentsFrom(vs: seq<Area>, k: nat, seg: Segment, segs: seq<Segment>, start: nat, end: nat)
    requires k < |vs| && seg == Segment(Max(vs[k].start, start), Min(vs[k].end, end), vs[k].attr.flags)
    requires forall i :: 0 <= i < |segs| ==> FromArea(vs, k, segs[i])
    ensures forall i :: 0 <= i < |segs| ==> FromArea(vs, k + 1, segs[i])
    ensures seg.lo < seg.hi ==> FromArea(vs, k + 1, seg)
  {
    assert vs[k].start <= seg.lo && seg.hi <= vs[k].end;
  }

  /** The pieces of the first `k` areas. */
  function SegmentAll(vs: seq<Area>, k: nat, start: nat, end: nat): (segs: seq<Segment>)
    requires k <= |vs|
  {
    if k == 0 then [] else SegmentStep(SegmentAll(vs, k - 1, start, end), vs[k - 1], start, end)
  }

  lemma {:induction false} SegmentAllOk(vs: seq<Area>, k: nat, start: nat, end: nat)
    requires Sorted(vs) && k <= |vs|
    ensures SegmentsOf(vs, k, start, end, SegmentAll(vs, k, start, end))
  {
    hide SegmentStep, Sorted;
    if k == 0 {
      assert vs[..0] == [];
    } else {
      SegmentAllOk(vs, k - 1, start, end);
      SegmentsStep(vs, k - 1, start, end, SegmentAll(vs, k - 1, start, end));
    }
  }

  /** Collects the segments of the range with the flags to keep. */
  method CollectSegments(vs: seq<Area>, start: nat, end: nat) returns (segs: seq<Segment>)
    ensures segs == SegmentAll(vs, |vs|, start, end)
  {
    segs := [];
    var k := 0;
    while k < |vs|
      invariant 0 <= k <= |vs| && segs == SegmentAll(vs, k, start, end)
    {
      var seg := Segment(Max(vs[k].start, start), Min(vs[k].end, end), vs[k].attr.flags);
      if seg.lo < seg.hi {
        segs := segs + [seg];
      }
      k := k + 1;
    }
  }

  /** The list with the first `m` segments re-inserted under the new protection. */
  function Reinsert(vs: seq<Area>, segs: seq<Segment>, m: nat, prot: bv32): (r: seq<Area>)
    requires m <= |segs|
  {
    if m == 0 then vs
    else Inserted(Reinsert(vs, segs, m - 1, prot), segs[m - 1].lo, segs[m - 1].hi, Attr(prot, segs[m - 1].flags))
  }

  /** The list after re-protecting `[start, end)`, which must be covered. */
  ghost function Protected(vs: seq<Area>, start: nat, end: nat, prot: bv32): (r: seq<Area>) {
    if start >= end || !Covered(vs, start, end) then vs
    else
      var segs := SegmentAll(vs, |vs|, start, end);
      Reinsert(vs, segs, |segs|, prot)
  }

  lemma {:induction false} ReinsertOk(vs: seq<Area>, start: nat, end: nat, prot: bv32, segs: seq<Segment>, m: nat)
    requires Canonical(vs) && SegmentsOf(vs, |vs|, start, end, segs) && m <= |segs|
    ensures ProtectInv(vs, prot, segs, m, Reinsert(vs, segs, m, prot))
  {
    hide Canonical, SegmentsOf, ProtectInv, Inserted, At, AfterInsert;
    if m == 0 {
      NothingReinserted(vs, prot, segs);
    } else {
      ReinsertOk(vs, start, end, prot, segs, m - 1);
      var r := Reinsert(vs, segs, m - 1, prot);
      ProtectStep(vs, start, end, prot, segs, m - 1, r);
    }
  }

  lemma NothingReinserted(vs: seq<Area>, prot: bv32, segs: seq<Segment>)
    requires Canonical(vs)
    ensures ProtectInv(vs, prot, segs, 0, vs)
  {
    hide Canonical, At;
    assert segs[..0] == [];
  }

  /** Re-protection keeps the list canonical, changes the protection of exactly the range, if covered,
      and keeps every flag. */
  lemma ProtectedOk(vs: seq<Area>, start: nat, end: nat, prot: bv32)
    requires Canonical(vs)
    ensures Canonical(Protected(vs, start, end, prot))
    ensures start < end && Covered(vs, start, end) ==>
            forall a: nat :: At(Protected(vs, start, end, prot), a) == AfterProtect(vs, start, end, prot, a)
  {
    hide Canonical, Sorted, SegmentsOf, ProtectInv, SegmentAll, Reinsert, At, AfterProtect, Covered;
    if start < end && Covered(vs, start, end) {
      CanonicalSorted(vs);
      var segs := SegmentAll(vs, |vs|, start, end);
      SegmentAllOk(vs, |vs|, start, end);
      ReinsertOk(vs, start, end, prot, segs, |segs|);
      ProtectDone(vs, start, end, prot, segs, Reinsert(vs, segs, |segs|, prot));
    }
  }

  /** Re-protects a fully covered range: collects its segments with their flags, then re-inserts
      each with the new protection. */
  method ProtectRange(vs: seq<Area>, start: nat, end: nat, prot: bv32) returns (ok: bool, r: seq<Area>)
    requires Sorted(vs)
    ensures ok <==> start < end && Covered(vs, start, end)
    ensures r == Protected(vs, start, end, prot)
    ensures Canonical(vs) ==> Canonical(r)
    ensures Canonical(vs) && ok ==> forall a: nat :: At(r, a) == AfterProtect(vs, start, end, prot, a)
  {
    hide Canonical, Sorted, SegmentAll, Inserted, At, AfterProtect, AfterInsert, Covered;
    if Canonical(vs) { ProtectedOk(vs, start, end, prot); }
    ok := ContainsRange(vs, start, end);
    if !ok {
      return false, vs;
    }
    var segs := CollectSegments(vs, start, end);
    r := vs;
    var m := 0;
    while m < |segs|
      invariant 0 <= m <= |segs| && r == Reinsert(vs, segs, m, prot)
    {
      r := InsertArea(r, segs[m].lo, segs[m].hi, Attr(prot, segs[m].flags));
      m := m + 1;
    }
  }

  lemma ProtectDone(vs: seq<Area>, start: nat, end: nat, prot: bv32, segs: seq<Segment>, r: seq<Area>)
    requires SegmentsOf(vs, |vs|, start, end, segs) && ProtectInv(vs, prot, segs, |segs|, r)
    ensures Canonical(r) && forall a: nat :: At(r, a) == AfterProtect(vs, start, end, prot, a)
  {
    assert segs[..|segs|] == segs && vs[..|vs|] == vs;
  }

  /** The first `m` segments have been re-protected. */
  ghost predicate ProtectInv(vs: seq<Area>, prot: bv32, segs: seq<Segment>, m: nat, r: seq<Area>)
    requires m <= |segs|
  {
    && Canonical(r)
    && forall a :: At(r, a) == if InSegments(segs[..m], a) && At(vs, a).Some? then Some(At(vs, a).value.(prot := prot))
       else At(vs, a)
  }

  lemma InSegmentsStep(segs: seq<Segment>, m: nat, a: nat)
    requires m < |segs|
    ensures InSegments(segs[..m + 1], a) <==> InSegments(segs[..m], a) || segs[m].lo <= a < segs[m].hi
  {
    if i :| 0 <= i < m && segs[i].lo <= a < segs[i].hi {
      assert segs[..m][i] == segs[i] && segs[..m + 1][i] == segs[i];
    }
    assert segs[..m + 1][m] == segs[m];
  }

  /** Each segment has constant attributes in the list as it is when its turn comes. */
  lemma SegmentConstant(vs: seq<Area>, start: nat, end: nat, prot: bv32, segs: seq<Segment>, m: nat, r: seq<Area>)
    returns (attr: Attr)
    requires Sorted(vs) && SegmentsOf(vs, |vs|, start, end, segs) && m < |segs| && ProtectInv(vs, prot, segs, m, r)
    ensures segs[m].lo < segs[m].hi && attr.flags == segs[m].flags
    ensures forall a: nat :: segs[m].lo <= a < segs[m].hi ==> At(vs, a) == Some(attr) && At(r, a) == Some(attr)
  {
    hide Sorted, Canonical, At;
    var seg := segs[m];
    assert FromArea(vs, |vs|, seg);
    var x :| 0 <= x < |vs| && vs[x].start <= seg.lo && seg.hi <= vs[x].end && vs[x].attr.flags == seg.flags;
    attr := vs[x].attr;
    forall a: nat | seg.lo <= a < seg.hi
      ensures At(vs, a) == Some(attr) && At(r, a) == Some(attr)
    {
      AtIndex(vs, x, a);
      assert !InSegments(segs[..m], a);
    }
  }

  lemma ProtectStep(vs: seq<Area>, start: nat, end: nat, prot: bv32, segs: seq<Segment>, m: nat, r: seq<Area>)
    requires Canonical(vs) && SegmentsOf(vs, |vs|, start, end, segs) && m < |segs| && ProtectInv(vs, prot, segs, m, r)
    ensures ProtectInv(vs, prot, segs, m + 1, Inserted(r, segs[m].lo, segs[m].hi, Attr(prot, segs[m].flags)))
  {
    hide Canonical, Sorted, SegmentsOf, Inserted, At, AfterInsert, TailLoss, InSegments;
    CanonicalSorted(vs);
    var seg := segs[m];
    var attr := Attr(prot, seg.flags);
    var was := SegmentConstant(vs, start, end, prot, segs, m, r);
    ConstantSpanNoTailLoss(r, seg.lo, seg.hi, was, attr);
    InsertExactIff(r, seg.lo, seg.hi, attr);
    InsertedOk(r, seg.lo, seg.hi, attr);
    forall a: nat
      ensures At(Inserted(r, seg.lo, seg.hi, attr), a) ==
              if InSegments(segs[..m + 1], a) && At(vs, a).Some? then Some(At(vs, a).value.(prot := prot))
                else At(vs, a)
    {
      InSegmentsStep(segs, m, a);
      assert AfterInsert(r, seg.lo, seg.hi, attr, a) == if seg.lo <= a < seg.hi then Some(attr) else At(r, a);
    }
  }

  // ----- runs -----

  datatype AreaOp =
    | Insert(start: nat, end: nat, attr: Attr)
    | Remove(start: nat, end: nat)
    | Protect(start: nat, end: nat, prot: bv32)

  ghost function AreaStep(vs: seq<Area>, op: AreaOp): (r: seq<Area>) {
    match op
    case Insert(start, end, attr) => Inserted(vs, start, end, attr)
    case Remove(start, end) => Removed(vs, start, end)
    case Protect(start, end, prot) => Protected(vs, start, end, prot)
  }

  ghost predicate History(h: seq<seq<Area>>, ops: seq<AreaOp>) {
    |h| == |ops| + 1 && forall i :: 0 <= i < |ops| ==> h[i + 1] == AreaStep(h[i], ops[i])
  }

  /** What the operations are meant to do to a map of addresses: override, delete, re-protect. */
  ghost function MapStep(f: nat -> Option<Attr>, op: AreaOp): (r: nat -> Option<Attr>) {
    match op
    case Insert(start, end, attr) => (a: nat) => if start <= a < end then Some(attr) else f(a)
    case Remove(start, end) => (a: nat) => if start <= a < end then None else f(a)
    case Protect(start, end, prot) =>
      if forall a: nat :: start <= a < end ==> f(a).Some? then
        (a: nat) => if start <= a < end && f(a).Some? then Some(f(a).value.(prot := prot)) else f(a)
      else f
  }

  ghost function MapRun(f: nat -> Option<Attr>, ops: seq<AreaOp>): (r: nat -> Option<Attr>) {
    if ops == [] then f else MapStep(MapRun(f, ops[..|ops| - 1]), ops[|ops| - 1])
  }

  /** The list denotes the map. */
  ghost predicate Denotes(vs: seq<Area>, f: nat -> Option<Attr>) {
    forall a: nat :: At(vs, a) == f(a)
  }

  ghost predicate LosesTail(vs: seq<Area>, op: AreaOp) {
    op.Insert? && op.start < op.end && TailLoss(vs, op.start, op.end, op.attr)
  }

  /** Every operation keeps the list canonical; it does to the map what it is meant to, if and only if
      it is not an insertion that loses a tail. */
  lemma StepExactIff(vs: seq<Area>, op: AreaOp, f: nat -> Option<Attr>)
    requires Canonical(vs) && Denotes(vs, f)
    ensures Canonical(AreaStep(vs, op))
    ensures Denotes(AreaStep(vs, op), MapStep(f, op)) <==> !LosesTail(vs, op)
  {
    hide Canonical, Inserted, Removed, At, AfterInsert, TailLoss;
    match op
    case Insert(start, end, attr) => InsertExact(vs, start, end, attr, f);
    case Remove(start, end) => RemoveExact(vs, start, end, f);
    case Protect(start, end, prot) => ProtectExact(vs, start, end, prot, f);
  }

  lemma InsertExact(vs: seq<Area>, start: nat, end: nat, attr: Attr, f: nat -> Option<Attr>)
    requires Canonical(vs) && Denotes(vs, f)
    ensures Canonical(Inserted(vs, start, end, attr))
    ensures Denotes(Inserted(vs, start, end, attr), MapStep(f, Insert(start, end, attr)))
       <==> !LosesTail(vs, Insert(start, end, attr))
  {
    hide Canonical, Inserted, At, AfterInsert, TailLoss;
    InsertedOk(vs, start, end, attr);
    if start < end {
      InsertExactIff(vs, start, end, attr);
      var r, g := Inserted(vs, start, end, attr), MapStep(f, Insert(start, end, attr));
      if Denotes(r, g) {
        forall a: nat
          ensures AfterInsert(vs, start, end, attr, a) == if start <= a < end then Some(attr) else At(vs, a)
        {
          assert At(r, a) == g(a);
        }
      }
    } else {
      EmptyInsert(vs, start, end, attr);
    }
  }

  lemma EmptyInsert(vs: seq<Area>, start: nat, end: nat, attr: Attr)
    requires start >= end
    ensures Inserted(vs, start, end, attr) == vs
  {
  }

  lemma RemoveExact(vs: seq<Area>, start: nat, end: nat, f: nat -> Option<Attr>)
    requires Canonical(vs) && Denotes(vs, f)
    ensures Canonical(Removed(vs, start, end)) && Denotes(Removed(vs, start, end), MapStep(f, Remove(start, end)))
  {
    hide Canonical, At, RemoveAll;
    RemovedOk(vs, start, end);
  }

  lemma ProtectExact(vs: seq<Area>, start: nat, end: nat, prot: bv32, f: nat -> Option<Attr>)
    requires Canonical(vs) && Denotes(vs, f)
    ensures Canonical(Protected(vs, start, end, prot))
    ensures Denotes(Protected(vs, start, end, prot), MapStep(f, Protect(start, end, prot)))
  {
    hide Canonical, At, SegmentAll, Reinsert;
    ProtectedOk(vs, start, end, prot);
    assert Covered(vs, start, end) <==> forall a: nat :: start <= a < end ==> f(a).Some?;
  }

  /** Every list of every run of insertions, removals and re-protections is canonical, and as long as
      no insertion has lost a tail it denotes the map that the operations are meant to build. */
  lemma {:induction false} RunsCanonical(h: seq<seq<Area>>, ops: seq<AreaOp>, f: nat -> Option<Attr>, n: nat)
    requires History(h, ops) && Canonical(h[0]) && Denotes(h[0], f) && n <= |ops|
    ensures Canonical(h[n])
    ensures (forall i :: 0 <= i < n ==> !LosesTail(h[i], ops[i])) ==> Denotes(h[n], MapRun(f, ops[..n]))
  {
    hide Canonical, AreaStep, LosesTail, Denotes, MapStep;
    if n > 0 {
      RunsCanonical(h, ops, f, n - 1);
      var g := MapRun(f, ops[..n - 1]);
      assert ops[..n][..n - 1] == ops[..n - 1];
      CanonicalStep(h[n - 1], ops[n - 1]);
      if forall i :: 0 <= i < n ==> !LosesTail(h[i], ops[i]) {
        StepExactIff(h[n - 1], ops[n - 1], g);
      }
    } else {
      assert ops[..0] == [];
    }
  }

  lemma CanonicalStep(vs: seq<Area>, op: AreaOp)
    requires Canonical(vs)
    ensures Canonical(AreaStep(vs, op))
  {
    hide At, Canonical, AreaStep, MapStep, LosesTail;
    StepExactIff(vs, op, (a: nat) => At(vs, a));
  }
}

/** Building the initial user stack, top down: environment strings, argument strings, then the words
    of the frame. */
module StackSetup {
  import opened Common
  import opened Paging
  import opened AddressSpace
  import opened UserMemory
  import opened UserStack

  ghost function Sees(m: Mm, root: nat, ram: Ram): (v: View) {
    Through(ram, Flat(m, root))
  }

  /** The whole stack region is mapped. */
  ghost predicate StackPresent(m: Mm, root: nat) {
    Present(Flat(m, root), STACK_BOTTOM, STACK_TOP)
  }

  lemma PresentPart(flat: map<nat, Pte>, lo: nat, hi: nat, a: nat)
    requires Present(flat, lo, hi) && lo <= a < hi
    ensures a / PAGE_SIZE in flat
  {
  }

  lemma WroteIs(ram: Ram, ram': Ram, flat: map<nat, Pte>, a: nat, bytes: seq<Byte>, n: nat)
    requires n <= |bytes| && Wrote(ram, ram', flat, a, bytes[..n])
    ensures Within(Through(ram, flat), Through(ram', flat), a, a + |bytes|)
    ensures n == |bytes| ==> Stored(Through(ram', flat), a, bytes)
  {
    hide ByteAt;
  }

  /** Stores bytes in the stack; fails only if the stack is not fully mapped. */
  method Store(m: Mm, root: nat, ram: Ram, a: nat, bytes: seq<Byte>) returns (ok: bool, ram': Ram)
    requires SpaceOk(m, root) && RamOk(ram, |m.pool.used|) && STACK_BOTTOM <= a && a + |bytes| <= STACK_TOP
    ensures RamOk(ram', |m.pool.used|) && Within(Sees(m, root, ram), Sees(m, root, ram'), a, a + |bytes|)
    ensures ok ==> Stored(Sees(m, root, ram'), a, bytes)
    ensures StackPresent(m, root) ==> ok
  {
    hide SpaceOk, RamOk, Flat, Wrote, Within, Stored, Through, OnlyThrough, Present;
    var written;
    ok, written, ram' := WriteBytes(m, root, ram, a, bytes);
    WroteIs(ram, ram', Flat(m, root), a, bytes, written);
    if StackPresent(m, root) && written < |bytes| {
      PresentPart(Flat(m, root), STACK_BOTTOM, STACK_TOP, a + written);
    }
  }

  // ----- strings -----

  /** Pushes one string and its NUL, in two writes. */
  method PushString(m: Mm, root: nat, ram: Ram, a: nat, s: seq<Byte>) returns (ok: bool, ram': Ram)
    requires SpaceOk(m, root) && RamOk(ram, |m.pool.used|) && STACK_BOTTOM <= a && a + |s| + 1 <= STACK_TOP
    ensures RamOk(ram', |m.pool.used|) && Within(Sees(m, root, ram), Sees(m, root, ram'), a, a + |s| + 1)
    ensures ok ==> StringAt(Sees(m, root, ram'), a, s)
    ensures StackPresent(m, root) ==> ok
  {
    hide SpaceOk, RamOk, Flat, Within, Through, StackPresent, Sees, StringAt, Stored;
    ghost var v0 := Sees(m, root, ram);
    ok, ram' := Store(m, root, ram, a, s);
    ghost var v1 := Sees(m, root, ram');
    WithinWider(v0, v1, a, a + |s|, a, a + |s| + 1);
    if !ok {
      return;
    }
    ok, ram' := Store(m, root, ram', a + |s|, [0]);
    ghost var v2 := Sees(m, root, ram');
    WithinWider(v1, v2, a + |s|, a + |s| + 1, a, a + |s| + 1);
    WithinThen(v0, v1, v2, a, a + |s| + 1);
    if ok {
      StoredOutside(v1, v2, a + |s|, a + |s| + 1, a, s);
      StoredBoth(v2, a, s);
    }
  }

  lemma StoredBoth(v: View, a: nat, s: seq<Byte>)
    requires Stored(v, a, s) && Stored(v, a + |s|, [0])
    ensures StringAt(v, a, s)
  {
    forall i | 0 <= i < |s + [0]|
      ensures v(a + i) == Some((s + [0])[i])
    {
      if i == |s| { assert v(a + |s| + 0) == Some([0][0]); }
    }
  }

  function StringsSize(strs: seq<seq<Byte>>): (n: nat)
    ensures n >= |strs|
  {
    if strs == [] then 0 else StringsSize(strs[..|strs| - 1]) + |strs[|strs| - 1]| + 1
  }

  lemma {:induction false} SizeMonotone(strs: seq<seq<Byte>>, k: nat)
    requires k <= |strs|
    ensures StringsSize(strs[..k]) <= StringsSize(strs)
  {
    if k < |strs| {
      SizeMonotone(strs[..|strs| - 1], k);
      assert strs[..|strs| - 1][..k] == strs[..k];
    } else {
      assert strs[..k] == strs;
    }
  }

  lemma SizeNext(strs: seq<seq<Byte>>, k: nat)
    requires k < |strs|
    ensures StringsSize(strs[..k + 1]) == StringsSize(strs[..k]) + |strs[k]| + 1
  {
    assert strs[..k + 1][..k] == strs[..k];
  }

  /** Strings lie in `[lo, hi)`, one below the other. */
  ghost predicate Laid(v: View, ptrs: seq<nat>, strs: seq<seq<Byte>>, lo: nat, hi: nat) {
    && |ptrs| == |strs|
    && (forall i :: 0 <= i < |ptrs| ==> lo <= ptrs[i] && ptrs[i] + |strs[i]| + 1 <= hi && StringAt(v, ptrs[i], strs[i]))
    && (forall i, j :: 0 <= i < j < |ptrs| ==> ptrs[j] + |strs[j]| + 1 <= ptrs[i])
  }

  lemma LaidKept(v: View, v': View, ptrs: seq<nat>, strs: seq<seq<Byte>>, lo: nat, hi: nat, wlo: nat, whi: nat)
    requires Laid(v, ptrs, strs, lo, hi) && Within(v, v', wlo, whi) && (whi <= lo || hi <= wlo)
    ensures Laid(v', ptrs, strs, lo, hi)
  {
    hide Stored, Within;
    forall i | 0 <= i < |ptrs|
      ensures StringAt(v', ptrs[i], strs[i])
    {
      StoredOutside(v, v', wlo, whi, ptrs[i], strs[i] + [0]);
    }
  }

  lemma LaidNext(v: View, ptrs: seq<nat>, strs: seq<seq<Byte>>, k: nat, lo: nat, hi: nat, a: nat)
    requires k < |strs| && Laid(v, ptrs, strs[..k], lo, hi) && StringAt(v, a, strs[k]) && a + |strs[k]| + 1 == lo <= hi
    ensures Laid(v, ptrs + [a], strs[..k + 1], a, hi)
  {
    hide StringAt;
    var ptrs', strs' := ptrs + [a], strs[..k + 1];
    forall i | 0 <= i < |ptrs'|
      ensures a <= ptrs'[i] && ptrs'[i] + |strs'[i]| + 1 <= hi && StringAt(v, ptrs'[i], strs'[i])
    {
      if i < k { assert strs'[i] == strs[..k][i]; }
    }
    forall i, j | 0 <= i < j < |ptrs'|
      ensures ptrs'[j] + |strs'[j]| + 1 <= ptrs'[i]
    {
      assert strs'[i] == strs[..k][i];
      if j < k { assert strs'[j] == strs[..k][j]; }
    }
  }

  datatype Pushed = Done | TooBig | Fault

  lemma WithinNothing(v: View, a: nat, b: nat)
    ensures Within(v, v, a, b)
  {
  }

  /** One of the two string loops: each string goes right below the one before. */
  method PushStrings(m: Mm, root: nat, ram: Ram, top: nat, strs: seq<seq<Byte>>)
    returns (out: Pushed, sp: nat, ptrs: seq<nat>, ram': Ram)
    requires SpaceOk(m, root) && RamOk(ram, |m.pool.used|) && STACK_BOTTOM <= top <= STACK_TOP
    ensures RamOk(ram', |m.pool.used|) && Within(Sees(m, root, ram), Sees(m, root, ram'), STACK_BOTTOM, top)
    ensures out.Fault? ==> !StackPresent(m, root)
    ensures out.TooBig? ==> top < STACK_BOTTOM + StringsSize(strs)
    ensures out.Done? ==>
      && STACK_BOTTOM <= sp == top - StringsSize(strs) && Within(Sees(m, root, ram), Sees(m, root, ram'), sp, top)
      && Laid(Sees(m, root, ram'), ptrs, strs, sp, top)
  {
    hide SpaceOk, RamOk, Flat, Within, Through, StackPresent, Sees, StringAt, Laid, StringsSize;
    ghost var v0 := Sees(m, root, ram);
    sp, ptrs, ram' := top, [], ram;
    var k := 0;
    WithinNothing(v0, sp, top);
    WithinNothing(v0, STACK_BOTTOM, top);
    LaidNone(v0, strs, top);
    while k < |strs|
      invariant 0 <= k <= |strs| && RamOk(ram', |m.pool.used|)
      invariant STACK_BOTTOM <= sp <= top && sp == top - StringsSize(strs[..k])
      invariant Within(v0, Sees(m, root, ram'), sp, top)
      invariant Laid(Sees(m, root, ram'), ptrs, strs[..k], sp, top)
    {
      ghost var v1 := Sees(m, root, ram');
      SizeNext(strs, k);
      SizeMonotone(strs, k + 1);
      WithinWider(v0, v1, sp, top, STACK_BOTTOM, top);
      if sp < STACK_BOTTOM + |strs[k]| + 1 {
        return TooBig, sp, ptrs, ram';
      }
      var a := sp - (|strs[k]| + 1);
      var ok;
      ok, ram' := PushString(m, root, ram', a, strs[k]);
      ghost var v2 := Sees(m, root, ram');
      WithinWider(v1, v2, a, sp, a, top);
      WithinWider(v0, v1, sp, top, a, top);
      WithinThen(v0, v1, v2, a, top);
      WithinWider(v0, v2, a, top, STACK_BOTTOM, top);
      if !ok {
        return Fault, sp, ptrs, ram';
      }
      LaidKept(v1, v2, ptrs, strs[..k], sp, top, a, sp);
      LaidNext(v2, ptrs, strs, k, sp, top, a);
      sp, ptrs := a, ptrs + [a];
      k := k + 1;
    }
    out := Done;
    assert strs[..k] == strs;
    WithinWider(v0, Sees(m, root, ram'), sp, top, STACK_BOTTOM, top);
  }

  lemma LaidNone(v: View, strs: seq<seq<Byte>>, top: nat)
    ensures Laid(v, [], strs[..0], top, top) && StringsSize(strs[..0]) == 0
  {
  }

  // ----- words -----

  /** The word loops: the words end up in order, ending at `top`. */
  method PushWords(m: Mm, root: nat, ram: Ram, top: nat, ws: seq<nat>) returns (ok: bool, sp: nat, ram': Ram)
    requires SpaceOk(m, root) && RamOk(ram, |m.pool.used|) && STACK_BOTTOM + 8 * |ws| <= top <= STACK_TOP
    requires forall i :: 0 <= i < |ws| ==> ws[i] < WORD_LIMIT
    ensures RamOk(ram', |m.pool.used|) && Within(Sees(m, root, ram), Sees(m, root, ram'), top - 8 * |ws|, top)
    ensures ok ==> sp == top - 8 * |ws| && WordsAt(Sees(m, root, ram'), sp, ws)
    ensures StackPresent(m, root) ==> ok
  {
    hide SpaceOk, RamOk, Flat, Within, Through, StackPresent, Sees, Stored, WordsAt;
    ghost var v0 := Sees(m, root, ram);
    ghost var low := top - 8 * |ws|;
    sp, ram' := top, ram;
    var i := |ws|;
    WithinNothing(v0, low, top);
    WordsNone(v0, top, ws);
    while i > 0
      invariant 0 <= i <= |ws| && sp == low + 8 * i && RamOk(ram', |m.pool.used|)
      invariant Within(v0, Sees(m, root, ram'), low, top)
      invariant WordsAt(Sees(m, root, ram'), sp, ws[i..])
    {
      ghost var v1 := Sees(m, root, ram');
      i := i - 1;
      sp := sp - 8;
      ok, ram' := Store(m, root, ram', sp, WordBytes(ws[i], 8));
      ghost var v2 := Sees(m, root, ram');
      WithinWider(v1, v2, sp, sp + 8, low, top);
      WithinThen(v0, v1, v2, low, top);
      if !ok {
        return;
      }
      WordsOutside(v1, v2, sp, sp + 8, sp + 8, ws[i + 1..]);
      WordsNext(v2, sp, ws, i);
    }
    ok := true;
    assert ws[0..] == ws;
  }

  lemma WordsNone(v: View, a: nat, ws: seq<nat>)
    ensures WordsAt(v, a, ws[|ws|..])
  {
  }

  lemma WordsNext(v: View, a: nat, ws: seq<nat>, i: nat)
    requires i < |ws| && ws[i] < WORD_LIMIT && Stored(v, a, WordBytes(ws[i], 8)) && WordsAt(v, a + 8, ws[i + 1..])
    ensures WordsAt(v, a, ws[i..])
  {
    hide Stored;
    forall k | 0 <= k < |ws[i..]|
      ensures WordAt(v, a + 8 * k, ws[i..][k])
    {
      if k > 0 {
        assert ws[i..][k] == ws[i + 1..][k - 1];
        assert WordAt(v, a + 8 + 8 * (k - 1), ws[i + 1..][k - 1]);
      }
    }
  }

  // ----- the whole frame -----

  datatype StackError = EnvTooBig | ArgTooBig | FrameTooBig | Unmapped | Underflow | Mismatch

  datatype StackResult = Rsp(rsp: nat) | Failed(error: StackError)

  function Auxv(entry: nat, phdr: nat, phent: nat, phnum: nat): (aux: Aux)
    ensures AuxEnds(aux)
  {
    [(AT_PAGESZ, 4096), (AT_ENTRY, entry), (AT_PHDR, phdr), (AT_PHENT, phent), (AT_PHNUM, phnum), (AT_NULL, 0)]
  }

  /** The value of the first entry with a tag, as programs look it up. */
  function AuxValue(aux: Aux, tag: nat): (r: Option<nat>) {
    if aux == [] then None else if aux[0].0 == tag then Some(aux[0].1) else AuxValue(aux[1..], tag)
  }

  /** What a program finds under the tags of the psABI: the program headers (3, 4, 5), the page size (6) and
      the entry point (9), and nothing under any other but the closing one. */
  lemma AuxvFinds(entry: nat, phdr: nat, phent: nat, phnum: nat, tag: nat)
    ensures AuxValue(Auxv(entry, phdr, phent, phnum), tag) ==
            if tag == 3 then Some(phdr) else if tag == 4 then Some(phent) else if tag == 5 then Some(phnum)
            else if tag == 6 then Some(4096) else if tag == 9 then Some(entry) else if tag == 0 then Some(0)
            else None
  {
    var aux := Auxv(entry, phdr, phent, phnum);
    assert aux[1..][1..] == aux[2..] && aux[2..][1..] == aux[3..] && aux[3..][1..] == aux[4..]
      && aux[4..][1..] == aux[5..];
    assert |aux[5..]| == 1 && aux[5..][0] == (AT_NULL, 0);
    assert AuxValue(aux[5..], tag) == if tag == 0 then Some(0) else None;
    assert AuxValue(aux[4..], tag) == if tag == 5 then Some(phnum) else AuxValue(aux[5..], tag);
    assert AuxValue(aux[3..], tag) == if tag == 4 then Some(phent) else AuxValue(aux[4..], tag);
    assert AuxValue(aux[2..], tag) == if tag == 3 then Some(phdr) else AuxValue(aux[3..], tag);
    assert AuxValue(aux[1..], tag) == if tag == 9 then Some(entry) else AuxValue(aux[2..], tag);
  }

  /** The next address down that is a multiple of `n`. */
  function AlignDown(a: int, n: nat): (r: int)
    requires n > 0
  {
    a - a % n
  }

  lemma AlignedDown(a: int)
    ensures a - 8 < AlignDown(a, 8) <= a
    ensures a - 16 < AlignDown(a, 16) <= a && AlignDown(a, 16) % 16 == 0
    ensures a >= 0 ==> AlignDown(a, 8) >= 0 && AlignDown(a, 16) >= 0
  {
  }

  /** Where the stack pointer ends up; below the stack if the arguments do not fit. */
  function FinalSp(argv: seq<seq<Byte>>, envp: seq<seq<Byte>>): (sp: int) {
    var strings := STACK_TOP - StringsSize(envp) - StringsSize(argv);
    var words := |argv| + |envp| + 15;
    AlignDown(AlignDown(strings, 8) - 8 * words, 16)
  }

  ghost predicate AllNulFree(strs: seq<seq<Byte>>) {
    forall i :: 0 <= i < |strs| ==> NulFree(strs[i])
  }

  lemma LaidStrings(v: View, ptrs: seq<nat>, strs: seq<seq<Byte>>, lo: nat, hi: nat)
    requires Laid(v, ptrs, strs, lo, hi) && AllNulFree(strs) && lo > 0
    ensures StringsAt(v, ptrs, strs)
  {
    hide StringAt, NulFree;
  }

  lemma WordBounds(args: seq<nat>, envs: seq<nat>, entry: nat, phdr: nat, phent: nat, phnum: nat)
    requires (forall i :: 0 <= i < |args| ==> args[i] < WORD_LIMIT)
      && (forall i :: 0 <= i < |envs| ==> envs[i] < WORD_LIMIT)
    requires |args| < WORD_LIMIT && entry < WORD_LIMIT && phdr < WORD_LIMIT && phent < WORD_LIMIT && phnum < WORD_LIMIT
    ensures forall i :: 0 <= i < |FrameWords(args, envs, Auxv(entry, phdr, phent, phnum))| ==>
      FrameWords(args, envs, Auxv(entry, phdr, phent, phnum))[i] < WORD_LIMIT
  {
    var aux := Auxv(entry, phdr, phent, phnum);
    var ws := AuxWords(aux);
    forall i | 0 <= i < |ws|
      ensures ws[i] < WORD_LIMIT
    {
      assert ws[2 * (i / 2)] == aux[i / 2].0 && ws[2 * (i / 2) + 1] == aux[i / 2].1;
    }
  }

  lemma LaidBounds(v: View, ptrs: seq<nat>, strs: seq<seq<Byte>>, lo: nat, hi: nat)
    requires Laid(v, ptrs, strs, lo, hi) && hi < WORD_LIMIT
    ensures |ptrs| == |strs| && forall i :: 0 <= i < |ptrs| ==> ptrs[i] < WORD_LIMIT
  {
  }

  /** Builds the stack. With the stack mapped it succeeds exactly when everything fits; the last
      consistency test and the underflow test never fail. On success the stack pointer is 16-byte
      aligned and inside the stack, walking up from it reads back the arguments, the environment and
      the six auxiliary entries, and strings and frame do not overlap. */
  method SetupUserStack(m: Mm, root: nat, ram: Ram, entry: nat, phdr: nat, phent: nat, phnum: nat, argv: seq<seq<Byte>>,
      envp: seq<seq<Byte>>)
    returns (r: StackResult, ram': Ram, ghost args: seq<nat>, ghost envs: seq<nat>)
    requires SpaceOk(m, root) && RamOk(ram, |m.pool.used|) && AllNulFree(argv) && AllNulFree(envp)
    requires entry < WORD_LIMIT && phdr < WORD_LIMIT && phent < WORD_LIMIT && phnum < WORD_LIMIT
    ensures RamOk(ram', |m.pool.used|) && Within(Sees(m, root, ram), Sees(m, root, ram'), STACK_BOTTOM, STACK_TOP)
    ensures r != Failed(Underflow) && r != Failed(Mismatch)
    ensures r == Failed(Unmapped) ==> !StackPresent(m, root)
    ensures r.Failed? && r.error != Unmapped ==> FinalSp(argv, envp) < STACK_BOTTOM
    ensures r.Rsp? ==>
      && STACK_BOTTOM <= r.rsp == FinalSp(argv, envp) && r.rsp % 16 == 0
      && Within(Sees(m, root, ram), Sees(m, root, ram'), r.rsp, STACK_TOP)
      && Frame(Sees(m, root, ram'), r.rsp, args, envs, argv, envp, Auxv(entry, phdr, phent, phnum))
      && FrameClear(Sees(m, root, ram'), r.rsp, args, envs, argv, envp)
  {
    hide SpaceOk, RamOk, Flat, Within, Through, StackPresent, Sees, Laid, WordsAt, StringsSize, FrameWords, AllNulFree,
      StringsAt, Auxv, FrameClear, Frame, AuxEnds, FinalSp, AlignDown;
    ghost var v0 := Sees(m, root, ram);
    args, envs := [], [];
    var out, sp, envPtrs, argPtrs;
    out, sp, envPtrs, ram' := PushStrings(m, root, ram, STACK_TOP, envp);
    ghost var v1 := Sees(m, root, ram');
    if out != Done {
      FinalSpBelow(argv, envp);
      return Failed(if out == TooBig then EnvTooBig else Unmapped), ram', [], [];
    }
    ghost var mid := sp;
    out, sp, argPtrs, ram' := PushStrings(m, root, ram', sp, argv);
    ghost var v2 := Sees(m, root, ram');
    WithinWider(v1, v2, STACK_BOTTOM, mid, STACK_BOTTOM, STACK_TOP);
    WithinThen(v0, v1, v2, STACK_BOTTOM, STACK_TOP);
    if out != Done {
      FinalSpBelow(argv, envp);
      return Failed(if out == TooBig then ArgTooBig else Unmapped), ram', [], [];
    }
    ghost var strings := sp;
    AlignedDown(sp);
    sp := AlignDown(sp, 8);
    var aux := Auxv(entry, phdr, phent, phnum);
    var total := 8 * (1 + (|argPtrs| + 1) + (|envPtrs| + 1) + 2 * |aux|);
    LaidBounds(v1, envPtrs, envp, mid, STACK_TOP);
    LaidBounds(v2, argPtrs, argv, strings, mid);
    AuxSize(entry, phdr, phent, phnum);
    if sp < total {
      return Failed(Underflow), ram', [], [];
    }
    var target := sp - total;
    AlignedDown(target);
    var aligned := AlignDown(target, 16);
    FinalSpIs(argv, envp, strings);
    if aligned < STACK_BOTTOM {
      return Failed(FrameTooBig), ram', [], [];
    }
    sp := sp - (target - aligned);
    args, envs := argPtrs, envPtrs;
    WordBounds(args, envs, entry, phdr, phent, phnum);
    var ok;
    ok, sp, ram' := PushWords(m, root, ram', sp, FrameWords(argPtrs, envPtrs, aux));
    ghost var v3 := Sees(m, root, ram');
    ghost var top := aligned + total;
    WithinWider(v2, v3, aligned, top, STACK_BOTTOM, STACK_TOP);
    WithinThen(v0, v2, v3, STACK_BOTTOM, STACK_TOP);
    if !ok {
      return Failed(Unmapped), ram', args, envs;
    }
    if sp != aligned {
      return Failed(Mismatch), ram', args, envs;
    }
    StackDone(v0, v1, v2, v3, mid, strings, aligned, args, envs, argv, envp, aux);
    r := Rsp(sp);
  }

  /** What the four stages of memory add up to. */
  lemma StackDone(v0: View, v1: View, v2: View, v3: View, mid: nat, strings: nat, rsp: nat,
                  args: seq<nat>, envs: seq<nat>, argv: seq<seq<Byte>>, envp: seq<seq<Byte>>, aux: Aux)
    requires Laid(v1, envs, envp, mid, STACK_TOP) && Laid(v2, args, argv, strings, mid) && AllNulFree(argv)
      && AllNulFree(envp)
    requires AuxEnds(aux) && |aux| == 6 && WordsAt(v3, rsp, FrameWords(args, envs, aux))
    requires var top := rsp + 8 * (|args| + |envs| + 15);
             && Within(v0, v1, mid, STACK_TOP) && Within(v1, v2, strings, mid) && Within(v2, v3, rsp, top)
             && top <= strings <= mid <= STACK_TOP
    ensures Within(v0, v3, rsp, STACK_TOP) && Frame(v3, rsp, args, envs, argv, envp, aux)
      && FrameClear(v3, rsp, args, envs, argv, envp)
  {
    hide Within, Laid, WordsAt, AllNulFree, StringsAt, FrameWords, AuxEnds;
    var top := rsp + 8 * (|args| + |envs| + 15);
    LaidKept(v1, v2, envs, envp, mid, STACK_TOP, strings, mid);
    LaidKept(v2, v3, envs, envp, mid, STACK_TOP, rsp, top);
    LaidKept(v2, v3, args, argv, strings, mid, rsp, top);
    LaidStrings(v3, envs, envp, mid, STACK_TOP);
    LaidStrings(v3, args, argv, strings, mid);
    WithinAll(v0, v1, v2, v3, mid, strings, rsp, top);
    ClearFrom(v3, rsp, args, envs, argv, envp, strings, mid);
  }

  lemma FinalSpIs(argv: seq<seq<Byte>>, envp: seq<seq<Byte>>, strings: nat)
    requires strings == STACK_TOP - StringsSize(envp) - StringsSize(argv)
    ensures FinalSp(argv, envp) == AlignDown(AlignDown(strings, 8) - 8 * (|argv| + |envp| + 15), 16)
  {
    hide StringsSize, AlignDown;
    assert STACK_TOP - StringsSize(envp) - StringsSize(argv) == strings;
  }

  lemma FinalSpBelow(argv: seq<seq<Byte>>, envp: seq<seq<Byte>>)
    ensures FinalSp(argv, envp) <= STACK_TOP - StringsSize(envp) - StringsSize(argv)
  {
  }

  lemma AuxSize(entry: nat, phdr: nat, phent: nat, phnum: nat)
    ensures |Auxv(entry, phdr, phent, phnum)| == 6
  {
  }

  lemma WithinAll(v0: View, v1: View, v2: View, v3: View, mid: nat, strings: nat, aligned: nat, top: nat)
    requires Within(v0, v1, mid, STACK_TOP) && Within(v1, v2, strings, mid) && Within(v2, v3, aligned, top)
    requires aligned <= top <= strings <= mid <= STACK_TOP
    ensures Within(v0, v3, aligned, STACK_TOP)
  {
    hide Within;
    WithinWider(v0, v1, mid, STACK_TOP, aligned, STACK_TOP);
    WithinWider(v1, v2, strings, mid, aligned, STACK_TOP);
    WithinWider(v2, v3, aligned, top, aligned, STACK_TOP);
    WithinThen(v0, v1, v2, aligned, STACK_TOP);
    WithinThen(v0, v2, v3, aligned, STACK_TOP);
  }

  /** Argument strings lie above the frame's words, environment strings above those, none overlap. */
  ghost predicate FrameClear(v: View, rsp: nat, args: seq<nat>, envs: seq<nat>, argv: seq<seq<Byte>>,
      envp: seq<seq<Byte>>) {
    exists lo: nat, mid: nat ::
      rsp + 8 * (|args| + |envs| + 15) <= lo && Laid(v, args, argv, lo, mid) && Laid(v, envs, envp, mid, STACK_TOP)
  }

  lemma ClearFrom(v: View, rsp: nat, args: seq<nat>, envs: seq<nat>, argv: seq<seq<Byte>>, envp: seq<seq<Byte>>,
      lo: nat, mid: nat)
    requires rsp + 8 * (|args| + |envs| + 15) <= lo && Laid(v, args, argv, lo, mid)
      && Laid(v, envs, envp, mid, STACK_TOP)
    ensures FrameClear(v, rsp, args, envs, argv, envp)
  {
    hide Laid;
  }
}

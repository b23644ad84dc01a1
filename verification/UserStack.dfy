/** The initial user stack of a program, as section 3.4 of the System V AMD64 psABI lays it out:
    written top down through the page tables, read back by walking up from the stack pointer. */
module UserStack {
  import opened Common
  import Paging
  import opened UserMemory

  const STACK_TOP := 0x7FFF_FFFF_0000
  const STACK_SIZE := 0x2_0000
  const STACK_BOTTOM := STACK_TOP - STACK_SIZE
  const WORD_LIMIT := USIZE_LIMIT

  const AT_NULL := 0
  const AT_PHDR := 3
  const AT_PHENT := 4
  const AT_PHNUM := 5
  const AT_PAGESZ := 6
  const AT_ENTRY := 9

  // ----- words and strings in memory -----

  /** Memory as the program sees it. */
  type View = nat -> Option<Byte>

  ghost function Through(ram: Ram, flat: map<nat, Paging.Pte>): (v: View) {
    (a: nat) => ByteAt(ram, flat, a)
  }

  ghost predicate Stored(v: View, a: nat, bytes: seq<Byte>) {
    forall i :: 0 <= i < |bytes| ==> v(a + i) == Some(bytes[i])
  }

  /** `v'` differs from `v` at most inside `[lo, hi)`. */
  ghost predicate Within(v: View, v': View, lo: nat, hi: nat) {
    forall a: nat :: a < lo || a >= hi ==> v'(a) == v(a)
  }

  lemma StoredOutside(v: View, v': View, lo: nat, hi: nat, a: nat, bytes: seq<Byte>)
    requires Stored(v, a, bytes) && Within(v, v', lo, hi) && (a + |bytes| <= lo || hi <= a)
    ensures Stored(v', a, bytes)
  {
  }

  lemma WithinWider(v: View, v': View, lo: nat, hi: nat, lo': nat, hi': nat)
    requires Within(v, v', lo, hi) && lo' <= lo && hi <= hi'
    ensures Within(v, v', lo', hi')
  {
  }

  lemma WithinThen(u: View, v: View, w: View, lo: nat, hi: nat)
    requires Within(u, v, lo, hi) && Within(v, w, lo, hi)
    ensures Within(u, w, lo, hi)
  {
  }

  /** Little-endian bytes of a 64-bit word. */
  function WordBytes(w: nat, n: nat): (b: seq<Byte>)
    ensures |b| == n
  {
    if n == 0 then [] else [w % 256] + WordBytes(w / 256, n - 1)
  }

  function WordValue(b: seq<Byte>): (w: nat) {
    if b == [] then 0 else b[0] + 256 * WordValue(b[1..])
  }

  function Power256(n: nat): (p: nat) {
    if n == 0 then 1 else 256 * Power256(n - 1)
  }

  lemma {:induction false} WordRoundTrip(w: nat, n: nat)
    requires w < Power256(n)
    ensures WordValue(WordBytes(w, n)) == w
  {
    if n > 0 {
      WordRoundTrip(w / 256, n - 1);
      assert WordBytes(w, n)[1..] == WordBytes(w / 256, n - 1);
    }
  }

  lemma EightBytes()
    ensures Power256(8) == WORD_LIMIT
  {
    assert Power256(4) == 0x1_0000_0000;
    assert Power256(8) == 256 * (256 * (256 * (256 * Power256(4))));
  }

  ghost predicate WordAt(v: View, a: nat, w: nat) {
    w < WORD_LIMIT && Stored(v, a, WordBytes(w, 8))
  }

  lemma WordUnique(v: View, a: nat, w: nat, w': nat)
    requires WordAt(v, a, w) && WordAt(v, a, w')
    ensures w == w'
  {
    EightBytes();
    WordRoundTrip(w, 8);
    WordRoundTrip(w', 8);
    var b, b' := WordBytes(w, 8), WordBytes(w', 8);
    forall i | 0 <= i < 8
      ensures b[i] == b'[i]
    {
      assert v(a + i) == Some(b[i]) && v(a + i) == Some(b'[i]);
    }
    assert b == b';
  }

  ghost predicate WordsAt(v: View, a: nat, ws: seq<nat>) {
    forall i :: 0 <= i < |ws| ==> WordAt(v, a + 8 * i, ws[i])
  }

  lemma WordsOutside(v: View, v': View, lo: nat, hi: nat, a: nat, ws: seq<nat>)
    requires WordsAt(v, a, ws) && Within(v, v', lo, hi) && hi <= a
    ensures WordsAt(v', a, ws)
  {
    hide Stored, Within;
    forall i | 0 <= i < |ws|
      ensures WordAt(v', a + 8 * i, ws[i])
    {
      assert WordAt(v, a + 8 * i, ws[i]);
      StoredOutside(v, v', lo, hi, a + 8 * i, WordBytes(ws[i], 8));
    }
  }

  ghost predicate NulFree(s: seq<Byte>) {
    forall i :: 0 <= i < |s| ==> s[i] != 0
  }

  ghost predicate StringAt(v: View, a: nat, s: seq<Byte>) {
    Stored(v, a, s + [0])
  }

  /** A string ends at its first NUL, so memory determines it. */
  lemma StringUnique(v: View, a: nat, s: seq<Byte>, t: seq<Byte>)
    requires StringAt(v, a, s) && StringAt(v, a, t) && NulFree(s) && NulFree(t)
    ensures s == t
  {
    assert forall i :: 0 <= i <= |s| ==> v(a + i) == Some((s + [0])[i]);
    assert forall i :: 0 <= i <= |t| ==> v(a + i) == Some((t + [0])[i]);
    var k := if |s| < |t| then |s| else |t|;
    assert (s + [0])[k] == (t + [0])[k];
    if |s| == |t| {
      forall i | 0 <= i < |s|
        ensures s[i] == t[i]
      {
        assert (s + [0])[i] == (t + [0])[i];
      }
    }
  }

  // ----- the walk from the stack pointer -----

  type Aux = seq<(nat, nat)>

  function AuxWords(aux: Aux): (ws: seq<nat>)
    ensures |ws| == 2 * |aux|
    ensures forall i :: 0 <= i < |aux| ==> ws[2 * i] == aux[i].0 && ws[2 * i + 1] == aux[i].1
  {
    if aux == [] then []
    else AuxWords(aux[..|aux| - 1]) + [aux[|aux| - 1].0, aux[|aux| - 1].1]
  }

  /** Only the last entry has key AT_NULL. */
  ghost predicate AuxEnds(aux: Aux) {
    aux != [] && aux[|aux| - 1].0 == AT_NULL && forall i :: 0 <= i < |aux| - 1 ==> aux[i].0 != AT_NULL
  }

  function FrameWords(argv: seq<nat>, envp: seq<nat>, aux: Aux): (ws: seq<nat>)
    ensures |ws| == |argv| + |envp| + 2 * |aux| + 3
  {
    [|argv|] + argv + [0] + envp + [0] + AuxWords(aux)
  }

  ghost predicate StringsAt(v: View, ptrs: seq<nat>, strs: seq<seq<Byte>>) {
    |ptrs| == |strs| && forall i :: 0 <= i < |strs| ==>
      ptrs[i] != 0 && NulFree(strs[i]) && StringAt(v, ptrs[i], strs[i])
  }

  /** Walking up from `rsp`: argc, that many argv pointers, NULL, envp pointers up to NULL, and
      auxiliary entries up to AT_NULL. */
  ghost predicate Frame(v: View, rsp: nat, args: seq<nat>, envs: seq<nat>, argv: seq<seq<Byte>>, envp: seq<seq<Byte>>,
      aux: Aux) {
    && WordsAt(v, rsp, FrameWords(args, envs, aux)) && AuxEnds(aux)
    && StringsAt(v, args, argv) && StringsAt(v, envs, envp)
  }

  lemma WordsAgree(v: View, a: nat, ws: seq<nat>, ws': seq<nat>, i: nat)
    requires WordsAt(v, a, ws) && WordsAt(v, a, ws') && i < |ws| && i < |ws'|
    ensures ws[i] == ws'[i]
  {
    WordUnique(v, a + 8 * i, ws[i], ws'[i]);
  }

  lemma {:induction false} StringsUnique(v: View, ptrs: seq<nat>, strs: seq<seq<Byte>>, strs': seq<seq<Byte>>)
    requires StringsAt(v, ptrs, strs) && StringsAt(v, ptrs, strs')
    ensures strs == strs'
  {
    forall i | 0 <= i < |strs|
      ensures strs[i] == strs'[i]
    {
      StringUnique(v, ptrs[i], strs[i], strs'[i]);
    }
  }

  lemma FrameIndex(args: seq<nat>, envs: seq<nat>, aux: Aux)
    ensures var w := FrameWords(args, envs, aux); var n := |args|; var k := |envs|;
            && w[0] == n && w[n + 1] == 0 && w[n + k + 2] == 0
            && (forall i :: 0 <= i < n ==> w[1 + i] == args[i])
            && (forall i :: 0 <= i < k ==> w[n + 2 + i] == envs[i])
            && (forall i :: 0 <= i < |aux| ==> w[n + k + 3 + 2 * i] == aux[i].0 && w[n + k + 3 + 2 * i + 1] == aux[i].1)
  {
    var w := FrameWords(args, envs, aux);
    forall i | 0 <= i < |aux|
      ensures w[|args| + |envs| + 3 + 2 * i] == aux[i].0 && w[|args| + |envs| + 3 + 2 * i + 1] == aux[i].1
    {
      assert w[|args| + |envs| + 3 + 2 * i] == AuxWords(aux)[2 * i];
      assert w[|args| + |envs| + 3 + 2 * i + 1] == AuxWords(aux)[2 * i + 1];
    }
  }

  /** The pointers and auxiliary entries are determined by the words at `rsp`. */
  lemma FrameWordsUnique(v: View, rsp: nat, args: seq<nat>, envs: seq<nat>, aux: Aux, args': seq<nat>, envs': seq<nat>,
      aux': Aux)
    requires WordsAt(v, rsp, FrameWords(args, envs, aux)) && WordsAt(v, rsp, FrameWords(args', envs', aux'))
    requires AuxEnds(aux) && AuxEnds(aux') && (forall i :: 0 <= i < |envs| ==> envs[i] != 0)
      && (forall i :: 0 <= i < |envs'| ==> envs'[i] != 0)
    ensures args == args' && envs == envs' && aux == aux'
  {
    hide WordsAt, FrameWords, AuxWords;
    var w, w' := FrameWords(args, envs, aux), FrameWords(args', envs', aux');
    FrameIndex(args, envs, aux);
    FrameIndex(args', envs', aux');
    forall i | 0 <= i < |w| && i < |w'|
      ensures w[i] == w'[i]
    {
      WordsAgree(v, rsp, w, w', i);
    }
    var n := |args|;
    assert w[0] == w'[0];
    assert forall i :: 0 <= i < n ==> args[i] == w[1 + i] && args'[i] == w'[1 + i];
    EnvsUnique(w, w', n, envs, envs');
    AuxUnique(w, w', n + |envs| + 3, aux, aux');
  }

  lemma NotTerminator(w: seq<nat>, base: nat, envs: seq<nat>, k: nat)
    requires base + |envs| < |w| && forall i :: 0 <= i < |envs| ==> w[base + i] == envs[i] != 0
    ensures k < |envs| ==> w[base + k] != 0
  {
    assert k < |envs| ==> envs[k] != 0;
  }

  lemma EnvsUnique(w: seq<nat>, w': seq<nat>, n: nat, envs: seq<nat>, envs': seq<nat>)
    requires n + |envs| + 2 < |w| && n + |envs'| + 2 < |w'|
    requires forall i :: 0 <= i < |w| && i < |w'| ==> w[i] == w'[i]
    requires w[n + |envs| + 2] == 0 && w'[n + |envs'| + 2] == 0
    requires forall i :: 0 <= i < |envs| ==> w[n + 2 + i] == envs[i] != 0
    requires forall i :: 0 <= i < |envs'| ==> w'[n + 2 + i] == envs'[i] != 0
    ensures envs == envs'
  {
    var k := if |envs| < |envs'| then |envs| else |envs'|;
    NotTerminator(w, n + 2, envs, k);
    NotTerminator(w', n + 2, envs', k);
    assert w[n + 2 + k] == w'[n + 2 + k];
    if |envs| == |envs'| {
      assert forall i :: 0 <= i < |envs| ==> envs[i] == w[n + 2 + i] && envs'[i] == w'[n + 2 + i];
    }
  }

  lemma AuxUnique(w: seq<nat>, w': seq<nat>, base: nat, aux: Aux, aux': Aux)
    requires |w| == base + 2 * |aux| && |w'| == base + 2 * |aux'| && AuxEnds(aux) && AuxEnds(aux')
    requires forall i :: 0 <= i < |w| && i < |w'| ==> w[i] == w'[i]
    requires forall i :: 0 <= i < |aux| ==> w[base + 2 * i] == aux[i].0 && w[base + 2 * i + 1] == aux[i].1
    requires forall i :: 0 <= i < |aux'| ==> w'[base + 2 * i] == aux'[i].0 && w'[base + 2 * i + 1] == aux'[i].1
    ensures aux == aux'
  {
    var k := (if |aux| < |aux'| then |aux| else |aux'|) - 1;
    assert w[base + 2 * k] == aux[k].0 && w'[base + 2 * k] == aux'[k].0;
    if |aux| == |aux'| {
      forall i | 0 <= i < |aux|
        ensures aux[i] == aux'[i]
      {
        assert w[base + 2 * i] == aux[i].0 && w[base + 2 * i + 1] == aux[i].1;
        assert w'[base + 2 * i] == aux'[i].0 && w'[base + 2 * i + 1] == aux'[i].1;
      }
    }
  }

  /** What a program finds at `rsp` is one argument list, one environment and one auxiliary vector. */
  lemma FrameUnique(v: View, rsp: nat, args: seq<nat>, envs: seq<nat>, argv: seq<seq<Byte>>, envp: seq<seq<Byte>>,
      aux: Aux,
                    args': seq<nat>, envs': seq<nat>, argv': seq<seq<Byte>>, envp': seq<seq<Byte>>, aux': Aux)
    requires Frame(v, rsp, args, envs, argv, envp, aux) && Frame(v, rsp, args', envs', argv', envp', aux')
    ensures argv == argv' && envp == envp' && aux == aux'
  {
    hide WordsAt, FrameWords, AuxEnds, StringAt, NulFree;
    FrameWordsUnique(v, rsp, args, envs, aux, args', envs', aux');
    StringsUnique(v, args, argv, argv');
    StringsUnique(v, envs, envp, envp');
  }
}

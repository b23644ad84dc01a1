/** unpack_tar_archive, and the round trip through the image builder's writer. */
module Unpack {
  import opened Common
  import Paths
  import opened DirTree
  import opened Tar
  import opened Initramfs

  const TRUNCATED := 1
  const BAD_NAME := 2

  // ----- names -----

  function InRange(c: char, lo: int, hi: int): (b: bool) {
    lo <= c as int <= hi
  }

  /** Length of the well-formed UTF-8 sequence at the start of `s`, or 0 (Table 3-7 of the Unicode
      Standard). */
  function SequenceLength(s: string): (n: nat)
    requires s != ""
    ensures n <= |s|
  {
    var c := s[0];
    var cont := (i: nat) => i < |s| && InRange(s[i], 0x80, 0xBF);
    if InRange(c, 0, 0x7F) then 1
    else if InRange(c, 0xC2, 0xDF) && cont(1) then 2
    else if InRange(c, 0xE0, 0xEF) && cont(1) && cont(2)
         && (c as int == 0xE0 ==> InRange(s[1], 0xA0, 0xBF)) && (c as int == 0xED ==> InRange(s[1], 0x80, 0x9F)) then 3
    else if InRange(c, 0xF0, 0xF4) && cont(1) && cont(2) && cont(3)
         && (c as int == 0xF0 ==> InRange(s[1], 0x90, 0xBF)) && (c as int == 0xF4 ==> InRange(s[1], 0x80, 0x8F)) then 4
    else 0
  }

  predicate Utf8(s: string)
    decreases |s|
  {
    s == "" || (SequenceLength(s) > 0 && Utf8(s[SequenceLength(s)..]))
  }

  ghost predicate Scalar(c: nat) {
    c < 0xD800 || 0xE000 <= c < 0x11_0000
  }

  function Byte(b: nat): (c: char)
    requires b < 256
  {
    b as char
  }

  /** The UTF-8 encoding of a Unicode scalar value (section 3 of RFC 3629). */
  function EncodeScalar(c: nat): (s: string)
    requires Scalar(c)
  {
    if c < 0x80 then [Byte(c)]
    else if c < 0x800 then [Byte(0xC0 + c / 64), Byte(0x80 + c % 64)]
    else if c < 0x1_0000 then [Byte(0xE0 + c / 4096), Byte(0x80 + c / 64 % 64), Byte(0x80 + c % 64)]
    else [Byte(0xF0 + c / 262144), Byte(0x80 + c / 4096 % 64), Byte(0x80 + c / 64 % 64), Byte(0x80 + c % 64)]
  }

  ghost predicate AllScalar(cs: seq<nat>) {
    forall i :: 0 <= i < |cs| ==> Scalar(cs[i])
  }

  function EncodeAll(cs: seq<nat>): (s: string)
    requires AllScalar(cs)
  {
    if cs == [] then "" else EncodeScalar(cs[0]) + EncodeAll(cs[1..])
  }

  lemma EncodedLength(c: nat, rest: string)
    requires Scalar(c)
    ensures SequenceLength(EncodeScalar(c) + rest) == |EncodeScalar(c)| > 0
  {
  }

  /** Every sequence that is let through encodes a scalar value. */
  lemma SequenceEncodes(s: string) returns (c: nat)
    requires s != "" && SequenceLength(s) > 0
    ensures Scalar(c) && EncodeScalar(c) == s[..SequenceLength(s)]
  {
    var n := SequenceLength(s);
    if n == 1 {
      c := s[0] as nat;
    } else if n == 2 {
      c := TwoBytes(s[0] as nat, s[1] as nat);
    } else if n == 3 {
      c := ThreeBytes(s[0] as nat, s[1] as nat, s[2] as nat);
    } else {
      c := FourBytes(s[0] as nat, s[1] as nat, s[2] as nat, s[3] as nat);
    }
  }

  lemma TwoBytes(a: nat, b: nat) returns (c: nat)
    requires 0xC2 <= a <= 0xDF && 0x80 <= b <= 0xBF
    ensures Scalar(c) && EncodeScalar(c) == [Byte(a), Byte(b)]
  {
    c := (a - 0xC0) * 64 + (b - 0x80);
    assert c / 64 == a - 0xC0 && c % 64 == b - 0x80;
  }

  lemma ThreeBytes(a: nat, b: nat, d: nat) returns (c: nat)
    requires 0xE0 <= a <= 0xEF && 0x80 <= b <= 0xBF && 0x80 <= d <= 0xBF
    requires (a == 0xE0 ==> b >= 0xA0) && (a == 0xED ==> b <= 0x9F)
    ensures Scalar(c) && EncodeScalar(c) == [Byte(a), Byte(b), Byte(d)]
  {
    var high := (a - 0xE0) * 64 + (b - 0x80);
    c := high * 64 + (d - 0x80);
    assert c / 64 == high && c % 64 == d - 0x80 && high % 64 == b - 0x80 && c / 4096 == a - 0xE0;
  }

  lemma FourBytes(a: nat, b: nat, d: nat, e: nat) returns (c: nat)
    requires 0xF0 <= a <= 0xF4 && 0x80 <= b <= 0xBF && 0x80 <= d <= 0xBF && 0x80 <= e <= 0xBF
    requires (a == 0xF0 ==> b >= 0x90) && (a == 0xF4 ==> b <= 0x8F)
    ensures Scalar(c) && EncodeScalar(c) == [Byte(a), Byte(b), Byte(d), Byte(e)]
  {
    var top := (a - 0xF0) * 64 + (b - 0x80);
    var high := top * 64 + (d - 0x80);
    c := high * 64 + (e - 0x80);
    assert c / 64 == high && c % 64 == e - 0x80 && high % 64 == d - 0x80 && c / 4096 == top && top % 64 == b - 0x80;
    assert c / 262144 == a - 0xF0;
  }

  lemma {:induction false} EncodedIsUtf8(cs: seq<nat>)
    requires AllScalar(cs)
    ensures Utf8(EncodeAll(cs))
    decreases |cs|
  {
    hide SequenceLength, EncodeScalar;
    if cs != [] {
      var first, rest := EncodeScalar(cs[0]), EncodeAll(cs[1..]);
      EncodedLength(cs[0], rest);
      EncodedLength(cs[0], "");
      EncodedIsUtf8(cs[1..]);
      assert (first + rest)[|first|..] == rest;
    }
  }

  lemma {:induction false} Utf8Decodes(s: string) returns (cs: seq<nat>)
    requires Utf8(s)
    ensures AllScalar(cs) && EncodeAll(cs) == s
    decreases |s|
  {
    hide SequenceLength, EncodeScalar;
    if s == "" {
      cs := [];
    } else {
      var n := SequenceLength(s);
      var c := SequenceEncodes(s);
      var rest := Utf8Decodes(s[n..]);
      cs := [c] + rest;
      assert cs[1..] == rest;
      assert s == s[..n] + s[n..];
    }
  }

  /** A name is let through exactly if it is the encoding of some scalar values. */
  lemma Utf8Iff(s: string)
    ensures Utf8(s) <==> exists cs :: AllScalar(cs) && EncodeAll(cs) == s
  {
    hide Utf8, EncodeAll, AllScalar;
    if Utf8(s) {
      var cs := Utf8Decodes(s);
    }
    if cs :| AllScalar(cs) && EncodeAll(cs) == s {
      EncodedIsUtf8(cs);
    }
  }

  function UpToNul(s: string): (r: string) {
    if s == "" || s[0] == '\0' then "" else [s[0]] + UpToNul(s[1..])
  }

  lemma {:induction false} UpToNulStops(s: string, rest: string)
    requires '\0' !in s && (rest == "" || rest[0] == '\0')
    ensures UpToNul(s + rest) == s
  {
    if s == "" {
      assert s + rest == rest;
    } else {
      assert (s + rest)[1..] == s[1..] + rest;
      assert s == [s[0]] + s[1..];
      UpToNulStops(s[1..], rest);
    }
  }

  function TrimLeft(s: string): (r: string) {
    if s != "" && s[0] == '/' then TrimLeft(s[1..]) else s
  }

  function TrimRight(s: string): (r: string) {
    if s != "" && s[|s| - 1] == '/' then TrimRight(s[..|s| - 1]) else s
  }

  function Trim(s: string): (r: string) {
    TrimRight(TrimLeft(s))
  }

  predicate EndsWithSlash(s: string) {
    s != "" && s[|s| - 1] == '/'
  }

  /** The directories to walk for a name; empty if there is nothing but separators. */
  function Components(name: string): (cs: Path) {
    if Trim(name) == "" then [] else Paths.Split(Trim(name))
  }

  // ----- unpacking -----

  function Blocks(size: nat): (n: nat) {
    (size + BLOCK - 1) / BLOCK
  }

  function IsDirEntry(h: string, name: string): (b: bool)
    requires |h| == BLOCK
  {
    h[156] == '5' || EndsWithSlash(name)
  }

  /** The loop from `off` on: stops at a zero block or the end, fails on a bad name or missing data,
      and otherwise installs the member and goes on behind its data blocks. */
  function UnpackFrom(tar: string, off: nat, fs: Fs, root: nat, count: nat): (r: (Fs, Result<nat>))
    decreases if off <= |tar| then |tar| - off else 0
  {
    if off + BLOCK > |tar| || tar[off..off + BLOCK] == Zeros(BLOCK) then (fs, Ok(count))
    else
      var h := tar[off..off + BLOCK];
      var name := UpToNul(h[..100]);
      var size := OctalFrom(0, h[124..136]);
      var start := off + BLOCK;
      if !Utf8(name) then (fs, Err(BAD_NAME))
      else if start + size > |tar| then (fs, Err(TRUNCATED))
      else
        var i := Install(fs, root, Components(name), IsDirEntry(h, name), tar[start..start + size]);
        UnpackFrom(tar, start + Blocks(size) * BLOCK, i.0, root, count + i.1)
  }

  method FindNul(s: string) returns (r: string)
    ensures r == UpToNul(s)
  {
    var i := 0;
    while i < |s| && s[i] != '\0'
      invariant 0 <= i <= |s| && UpToNul(s) == s[..i] + UpToNul(s[i..])
    {
      assert s[i..][1..] == s[i + 1..] && s[..i] + [s[i]] == s[..i + 1];
      i := i + 1;
    }
    assert UpToNul(s[i..]) == "";
    return s[..i];
  }

  method AllZero(s: string) returns (b: bool)
    ensures b <==> s == Zeros(|s|)
  {
    var i := 0;
    while i < |s|
      invariant 0 <= i <= |s| && forall k :: 0 <= k < i ==> s[k] == '\0'
    {
      if s[i] != '\0' {
        return false;
      }
      i := i + 1;
    }
    return true;
  }

  /** The component loop: directories down to the last component, which is the file. */
  method InstallMember(fs: Fs, root: nat, cs: Path, isDir: bool, data: string) returns (fs': Fs, added: nat)
    ensures (fs', added) == Install(fs, root, cs, isDir, data)
  {
    hide GetOrCreateSubdir, AddFile;
    fs', added := fs, 0;
    var current := root;
    var i := 0;
    assert cs[..0] == [];
    while i < |cs|
      invariant 0 <= i <= |cs| && added == 0 && (i == |cs| ==> isDir || cs == [])
      invariant (fs', current) == MakeDirs(fs, root, cs[..i])
    {
      if i == |cs| - 1 && !isDir {
        fs' := AddFile(fs', current, cs[i], data);
        return fs', 1;
      }
      assert cs[..i + 1][..i] == cs[..i];
      var r := GetOrCreateSubdir(fs', current, cs[i]);
      fs', current := r.0, r.1;
      i := i + 1;
    }
    assert cs[..i] == cs;
  }

  method UnpackTarArchive(tar: string, fs: Fs, root: nat) returns (fs': Fs, r: Result<nat>)
    ensures (fs', r) == UnpackFrom(tar, 0, fs, root, 0)
  {
    hide Install, Components, OctalFrom, UpToNul, Utf8;
    var off, count := 0, 0;
    fs' := fs;
    while off + BLOCK <= |tar|
      invariant UnpackFrom(tar, off, fs', root, count) == UnpackFrom(tar, 0, fs, root, 0)
      decreases |tar| - off
    {
      var h := tar[off..off + BLOCK];
      var zero := AllZero(h);
      if zero {
        break;
      }
      var name := FindNul(h[..100]);
      if !Utf8(name) {
        return fs', Err(BAD_NAME);
      }
      var size := ParseOctal(h[124..136]);
      var start := off + BLOCK;
      if start + size > |tar| {
        return fs', Err(TRUNCATED);
      }
      var added;
      fs', added := InstallMember(fs', root, Components(name), IsDirEntry(h, name), tar[start..start + size]);
      count := count + added;
      off := start + Blocks(size) * BLOCK;
    }
    r := Ok(count);
  }

  // ----- the round trip -----

  /** A name the writer keeps whole and the reader takes apart as it is. */
  ghost predicate GoodName(name: string) {
    && 0 < |name| <= 99 && '\0' !in name && Utf8(name)
    && name[0] != '/' && name[|name| - 1] != '/'
  }

  ghost predicate GoodMembers(es: seq<Member>) {
    && PrefixFree(es)
    && forall i :: 0 <= i < |es| ==> GoodName(es[i].name) && |es[i].data| < Power8(11)
  }

  /** The archive from member `k` on, with its two closing zero blocks. */
  function ArchiveFrom(es: seq<Member>, k: nat): (s: string)
    requires k <= |es|
    decreases |es| - k
  {
    if k == |es| then Zeros(BLOCK) + Zeros(BLOCK)
    else EntryBytes(es[k].name, es[k].data, false) + ArchiveFrom(es, k + 1)
  }

  /** Writes the members one after the other, then two zero blocks. */
  method WriteArchive(es: seq<Member>) returns (out: string)
    requires forall i :: 0 <= i < |es| ==> |es[i].data| < Power8(11)
    ensures out == ArchiveFrom(es, 0)
  {
    hide EntryBytes;
    out := "";
    var k := 0;
    assert out + ArchiveFrom(es, 0) == ArchiveFrom(es, 0);
    while k < |es|
      invariant 0 <= k <= |es| && out + ArchiveFrom(es, k) == ArchiveFrom(es, 0)
    {
      var entry := WriteTarEntry(es[k].name, es[k].data, false);
      assert (out + entry) + ArchiveFrom(es, k + 1) == out + ArchiveFrom(es, k);
      out := out + entry;
      k := k + 1;
    }
    out := out + Zeros(BLOCK);
    out := out + Zeros(BLOCK);
  }

  lemma NameReadsBack(name: string, size: nat)
    requires GoodName(name)
    ensures var h := Header(name, size, false);
            && UpToNul(h[..100]) == name && Components(name) == Paths.Split(name) && !IsDirEntry(h, name)
  {
    hide Header, Utf8, Paths.Split;
    HeaderFields(name, size, false);
    UpToNulStops(name, Zeros(100 - |name|));
  }

  lemma SizeReadsBack(name: string, size: nat)
    requires size < Power8(11)
    ensures OctalFrom(0, Header(name, size, false)[124..136]) == size
  {
    hide Header, OctalFrom, Octal;
    HeaderFields(name, size, false);
    OctalRoundTrip(size, 11, "\0");
  }

  lemma HeaderNotZero(name: string, size: nat)
    ensures Header(name, size, false) != Zeros(BLOCK)
  {
    hide Header;
    HeaderFields(name, size, false);
    assert Header(name, size, false)[156] == '0';
  }

  lemma BlocksPadded(n: nat)
    ensures Blocks(n) * BLOCK == n + Padding(n)
  {
  }

  /** Slices of a member at `off` of a longer string. */
  lemma MemberSlices(tar: string, off: nat, name: string, data: string, rest: string)
    requires off <= |tar| && tar[off..] == EntryBytes(name, data, false) + rest
    ensures var start := off + BLOCK;
            && start + |data| + Padding(|data|) <= |tar|
            && tar[off..start] == Header(name, |data|, false)
            && tar[start..start + |data|] == data
            && tar[start + |data| + Padding(|data|)..] == rest
  {
    hide Header, Padding;
    var whole := tar[off..];
    var e := EntryBytes(name, data, false);
    var start := off + BLOCK;
    assert |e| == BLOCK + |data| + Padding(|data|);
    assert tar[off..start] == whole[..BLOCK] == e[..BLOCK];
    assert tar[start..start + |data|] == whole[BLOCK..BLOCK + |data|] == e[BLOCK..BLOCK + |data|];
    assert tar[start + |data| + Padding(|data|)..] == whole[|e|..] == rest;
  }

  /** One member: the loop reads exactly what was written and goes on behind it. */
  lemma UnpackMember(tar: string, off: nat, e: Member, rest: string, fs: Fs, root: nat, count: nat)
    requires off <= |tar| && tar[off..] == EntryBytes(e.name, e.data, false) + rest
    requires GoodName(e.name) && |e.data| < Power8(11)
    ensures var next := off + BLOCK + |e.data| + Padding(|e.data|);
            var i := Install(fs, root, PathOf(e), false, e.data);
            && next <= |tar| && tar[next..] == rest
            && UnpackFrom(tar, off, fs, root, count) == UnpackFrom(tar, next, i.0, root, count + i.1)
  {
    hide Install, Components, OctalFrom, UpToNul, Utf8, Header, EntryBytes, Padding, Blocks, Paths.Split, IsDirEntry,
      GoodName;
    MemberSlices(tar, off, e.name, e.data, rest);
    NameReadsBack(e.name, |e.data|);
    SizeReadsBack(e.name, |e.data|);
    HeaderNotZero(e.name, |e.data|);
    BlocksPadded(|e.data|);
    NameIsUtf8(e.name);
  }

  lemma NameIsUtf8(name: string)
    requires GoodName(name)
    ensures Utf8(name)
  {
  }

  lemma InstallNext(fs: Fs, root: nat, es: seq<Member>, k: nat)
    requires k < |es|
    ensures InstallAll(fs, root, es[..k + 1])
      == Install(InstallAll(fs, root, es[..k]), root, PathOf(es[k]), false, es[k].data).0
  {
    hide Install;
    assert es[..k + 1][..k] == es[..k];
  }

  lemma AddsOne(fs: Fs, root: nat, e: Member)
    ensures Install(fs, root, PathOf(e), false, e.data).1 == 1
  {
  }

  lemma {:induction false} UnpackRest(tar: string, off: nat, es: seq<Member>, k: nat, fs: Fs, root: nat)
    requires off <= |tar| && k <= |es| && tar[off..] == ArchiveFrom(es, k) && GoodMembers(es)
    ensures UnpackFrom(tar, off, InstallAll(fs, root, es[..k]), root, k) == (InstallAll(fs, root, es), Ok(|es|))
    decreases |es| - k
  {
    hide Install, UnpackFrom, EntryBytes, GoodName, PrefixFree, InstallAll, Padding;
    if k == |es| {
      assert es[..k] == es;
      UnpackEnds(tar, off, InstallAll(fs, root, es), root, k);
    } else {
      var e := es[k];
      UnpackMember(tar, off, e, ArchiveFrom(es, k + 1), InstallAll(fs, root, es[..k]), root, k);
      InstallNext(fs, root, es, k);
      AddsOne(InstallAll(fs, root, es[..k]), root, e);
      UnpackRest(tar, off + BLOCK + |e.data| + Padding(|e.data|), es, k + 1, fs, root);
    }
  }

  lemma UnpackEnds(tar: string, off: nat, fs: Fs, root: nat, count: nat)
    requires off <= |tar| && tar[off..] == Zeros(BLOCK) + Zeros(BLOCK)
    ensures UnpackFrom(tar, off, fs, root, count) == (fs, Ok(count))
  {
    assert tar[off..off + BLOCK] == tar[off..][..BLOCK] == Zeros(BLOCK);
  }

  // ----- archives that end otherwise -----

  /** The members alone, from member `k` on. */
  function EntriesFrom(es: seq<Member>, k: nat): (s: string)
    requires k <= |es|
    decreases |es| - k
  {
    if k == |es| then "" else EntryBytes(es[k].name, es[k].data, false) + EntriesFrom(es, k + 1)
  }

  /** Behind the members the loop goes on with their files installed and counted. */
  lemma {:induction false} UnpackBehind(tar: string, off: nat, es: seq<Member>, k: nat, tail: string, fs: Fs, root: nat)
    requires off <= |tar| && k <= |es| && tar[off..] == EntriesFrom(es, k) + tail && GoodMembers(es)
    ensures var end := |tar| - |tail|;
            && off <= end && tar[end..] == tail
            && UnpackFrom(tar, off, InstallAll(fs, root, es[..k]), root, k)
               == UnpackFrom(tar, end, InstallAll(fs, root, es), root, |es|)
    decreases |es| - k
  {
    hide Install, UnpackFrom, EntryBytes, GoodName, PrefixFree, InstallAll, Padding;
    if k == |es| {
      assert es[..k] == es && tar[off..] == tail;
    } else {
      var e := es[k];
      var rest := EntriesFrom(es, k + 1) + tail;
      assert tar[off..] == EntryBytes(e.name, e.data, false) + rest;
      UnpackMember(tar, off, e, rest, InstallAll(fs, root, es[..k]), root, k);
      InstallNext(fs, root, es, k);
      AddsOne(InstallAll(fs, root, es[..k]), root, e);
      UnpackBehind(tar, off + BLOCK + |e.data| + Padding(|e.data|), es, k + 1, tail, fs, root);
    }
  }

  /** A member cut off inside its data: its header says more than there is. */
  ghost predicate CutOff(tail: string, name: string, size: nat, isDir: bool) {
    && '\0' !in name && |name| <= 99 && size < Power8(11)
    && BLOCK <= |tail| < BLOCK + size && tail[..BLOCK] == Header(name, size, isDir)
  }

  lemma HeaderReadsBack(name: string, size: nat, isDir: bool)
    requires '\0' !in name && |name| <= 99 && size < Power8(11)
    ensures var h := Header(name, size, isDir);
            && UpToNul(h[..100]) == name && OctalFrom(0, h[124..136]) == size && h != Zeros(BLOCK)
            && h[156] == (if isDir then '5' else '0')
  {
    hide Header, OctalFrom, Octal;
    HeaderFields(name, size, isDir);
    UpToNulStops(name, Zeros(100 - |name|));
    OctalRoundTrip(size, 11, "\0");
  }

  /** How the loop ends behind the members, whose files are there in every case: at the end of the
      archive, with or without a partial block; at the first zero block, whatever follows it; with an
      error at a member cut off inside its data, or before that at a name that is not UTF-8. */
  lemma UnpackStops(es: seq<Member>, tail: string, name: string, size: nat, isDir: bool, fs: Fs, root: nat)
    requires GoodMembers(es)
    ensures var r := UnpackFrom(EntriesFrom(es, 0) + tail, 0, fs, root, 0);
            && (|tail| < BLOCK || tail[..BLOCK] == Zeros(BLOCK) ==> r == (InstallAll(fs, root, es), Ok(|es|)))
            && (CutOff(tail, name, size, isDir) ==>
                  r == (InstallAll(fs, root, es), Err(if Utf8(name) then TRUNCATED else BAD_NAME)))
  {
    hide UnpackFrom, InstallAll, EntriesFrom, GoodMembers, Header, OctalFrom, UpToNul;
    var tar := EntriesFrom(es, 0) + tail;
    assert tar[0..] == tar && es[..0] == [];
    NothingInstalled(fs, root);
    UnpackBehind(tar, 0, es, 0, tail, fs, root);
    var end := |tar| - |tail|;
    if |tail| < BLOCK || tail[..BLOCK] == Zeros(BLOCK) {
      UnpackEnd(tar, end, tail, InstallAll(fs, root, es), root, |es|);
    }
    if CutOff(tail, name, size, isDir) {
      HeaderReadsBack(name, size, isDir);
      UnpackCut(tar, end, tail, name, size, isDir, InstallAll(fs, root, es), root, |es|);
    }
  }

  lemma UnpackEnd(tar: string, off: nat, tail: string, fs: Fs, root: nat, count: nat)
    requires off <= |tar| && tar[off..] == tail && (|tail| < BLOCK || tail[..BLOCK] == Zeros(BLOCK))
    ensures UnpackFrom(tar, off, fs, root, count) == (fs, Ok(count))
  {
    if |tail| >= BLOCK {
      assert tar[off..off + BLOCK] == tail[..BLOCK];
    }
  }

  lemma UnpackCut(tar: string, off: nat, tail: string, name: string, size: nat, isDir: bool, fs: Fs, root: nat,
      count: nat)
    requires off <= |tar| && tar[off..] == tail && CutOff(tail, name, size, isDir)
    ensures UnpackFrom(tar, off, fs, root, count) == (fs, Err(if Utf8(name) then TRUNCATED else BAD_NAME))
  {
    hide Header, OctalFrom, UpToNul, Utf8, Install, Components;
    HeaderReadsBack(name, size, isDir);
    assert tar[off..off + BLOCK] == tail[..BLOCK] == Header(name, size, isDir);
  }

  /** A directory member, by type flag or by a closing separator, makes its directories and counts as no
      file. */
  lemma UnpackDirectory(tar: string, off: nat, name: string, flagged: bool, rest: string, fs: Fs, root: nat, count: nat)
    requires off <= |tar| && tar[off..] == Header(name, 0, flagged) + rest
    requires '\0' !in name && |name| <= 99 && Utf8(name) && (flagged || EndsWithSlash(name))
    ensures off + BLOCK <= |tar|
    ensures UnpackFrom(tar, off, fs, root, count)
         == UnpackFrom(tar, off + BLOCK, MakeDirs(fs, root, Components(name)).0, root, count)
  {
    hide Header, OctalFrom, UpToNul, Utf8, Components, MakeDirs, Install;
    HeaderReadsBack(name, 0, flagged);
    assert tar[off..off + BLOCK] == tar[off..][..BLOCK] == Header(name, 0, flagged);
    assert Blocks(0) == 0;
    InstallDirIs(fs, root, Components(name), tar[off + BLOCK..off + BLOCK]);
  }

  lemma InstallDirIs(fs: Fs, root: nat, cs: Path, data: string)
    ensures Install(fs, root, cs, true, data) == (MakeDirs(fs, root, cs).0, 0)
  {
  }

  /** Separators around a name do not matter; between them the name is split at its separators, and a
      name of nothing else has no components. */
  lemma {:induction false} ComponentsOf(name: string)
    ensures Components("/" + name) == Components(name) == Components(name + "/")
    ensures name != "" && name[0] != '/' && name[|name| - 1] != '/' ==> Components(name) == Paths.Split(name)
    ensures Components("") == []
  {
    assert ("/" + name)[1..] == name;
    assert TrimLeft("/" + name) == TrimLeft(name);
    TrimBoth(name);
  }

  lemma {:induction false} TrimBoth(name: string)
    ensures Trim(name + "/") == Trim(name)
  {
    if name == "" {
      assert (name + "/")[1..] == "";
      assert TrimLeft("/") == TrimLeft("");
    } else if name[0] == '/' {
      assert (name + "/")[1..] == name[1..] + "/";
      TrimBoth(name[1..]);
    } else {
      assert (name + "/")[..|name|] == name;
    }
  }

  /** A file with this data is at `p`. */
  ghost predicate FileAt(fs: Fs, root: nat, p: Path, data: string) {
    var x := Resolve(fs.st, Dir(root), p);
    x.Ok? && x.value.Leaf? && x.value.ino in fs.files && fs.files[x.value.ino] == data
  }

  ghost predicate SomeFileAt(fs: Fs, root: nat, p: Path) {
    Resolve(fs.st, Dir(root), p).Ok? && Resolve(fs.st, Dir(root), p).value.Leaf?
  }

  ghost predicate SomeDirAt(fs: Fs, root: nat, p: Path) {
    Resolve(fs.st, Dir(root), p).Ok? && Resolve(fs.st, Dir(root), p).value.Dir?
  }

  lemma FileFound(fs: Fs, root: nat, es: seq<Member>, i: nat)
    requires Contents(fs, root, TreeOf(es), DirsOf(es)) && PrefixFree(es) && i < |es|
    ensures FileAt(fs, root, PathOf(es[i]), es[i].data)
  {
    hide FsOk, Resolve, PathOf, TreeOf, DirsOf, PrefixFree, Contents;
    TreeData(es, i);
    ContentsGives(fs, root, TreeOf(es), DirsOf(es), PathOf(es[i]));
  }

  lemma OnlyThese(fs: Fs, root: nat, es: seq<Member>, p: Path)
    requires Contents(fs, root, TreeOf(es), DirsOf(es)) && PrefixFree(es)
    ensures SomeFileAt(fs, root, p) ==> exists i :: 0 <= i < |es| && PathOf(es[i]) == p
    ensures SomeDirAt(fs, root, p) <==> p == [] || exists i :: 0 <= i < |es| && p < PathOf(es[i])
  {
    hide FsOk, Resolve, PathOf, PrefixFree, Contents;
    ContentsGives(fs, root, TreeOf(es), DirsOf(es), p);
    FileNotDir(es, p);
  }

  /** The round trip: unpacking what the writer wrote for a prefix-free list of well-formed names
      into an empty root succeeds with the number of files, and then a path leads to a file exactly
      if it is one of the names, with that file's data, and to a directory exactly if it is a proper
      prefix of one. */
  lemma TarRoundTrip(es: seq<Member>, root: nat)
    requires GoodMembers(es)
    ensures var r := UnpackFrom(ArchiveFrom(es, 0), 0, Fs(map[root := EmptyNode()], map[], root + 1), root, 0);
            && r.1 == Ok(|es|)
            && (forall i :: 0 <= i < |es| ==> FileAt(r.0, root, PathOf(es[i]), es[i].data))
            && (forall p :: SomeFileAt(r.0, root, p) ==> exists i :: 0 <= i < |es| && PathOf(es[i]) == p)
            && (forall p :: SomeDirAt(r.0, root, p) <==> p == [] || exists i :: 0 <= i < |es| && p < PathOf(es[i]))
  {
    hide UnpackFrom, InstallAll, Contents, ArchiveFrom, GoodName, PathOf, FileAt, SomeFileAt, SomeDirAt, PrefixFree;
    var fs := Fs(map[root := EmptyNode()], map[], root + 1);
    var tar := ArchiveFrom(es, 0);
    assert tar[0..] == tar && es[..0] == [];
    NothingInstalled(fs, root);
    UnpackRest(tar, 0, es, 0, fs, root);
    EmptyFs(root);
    InstallAllOk(fs, root, es);
    var fs' := InstallAll(fs, root, es);
    forall i | 0 <= i < |es|
      ensures FileAt(fs', root, PathOf(es[i]), es[i].data)
    {
      FileFound(fs', root, es, i);
    }
    forall p
      ensures SomeFileAt(fs', root, p) ==> exists i :: 0 <= i < |es| && PathOf(es[i]) == p
      ensures SomeDirAt(fs', root, p) <==> p == [] || exists i :: 0 <= i < |es| && p < PathOf(es[i])
    {
      OnlyThese(fs', root, es, p);
    }
  }

  lemma NothingInstalled(fs: Fs, root: nat)
    ensures InstallAll(fs, root, []) == fs
  {
  }

  lemma FileNotDir(es: seq<Member>, p: Path)
    requires PrefixFree(es)
    ensures !(p in TreeOf(es) && p in DirsOf(es))
  {
    hide PathOf;
    if i :| 0 <= i < |es| && PathOf(es[i]) == p {
      SplitSome(es[i]);
      forall j | 0 <= j < |es|
        ensures !(p < PathOf(es[j]))
      {
        assert i != j ==> !(PathOf(es[i]) <= PathOf(es[j]));
      }
    }
  }
}

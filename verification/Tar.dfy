/** The ustar entries that the image builder writes (ustar Interchange Format of the pax utility in
    POSIX.1-2024) and the fields the kernel reads back. Bytes are characters below 256. */
module Tar {

  const BLOCK := 512

  ghost predicate IsBytes(s: string) {
    forall i :: 0 <= i < |s| ==> s[i] as int < 256
  }

  function Zeros(n: nat): (s: string)
    ensures |s| == n && forall i :: 0 <= i < n ==> s[i] == '\0'
  {
    seq(n, _ => '\0')
  }

  // ----- octal numbers -----

  predicate IsOctal(c: char) {
    '0' <= c <= '7'
  }

  function Digit(d: nat): (c: char)
    requires d < 8
    ensures IsOctal(c) && c as int - '0' as int == d
  {
    ('0' as int + d) as char
  }

  /** `n` in at least `width` octal digits; wider numbers keep their low digits only. */
  function Octal(n: nat, width: nat): (s: string)
    ensures |s| == width && forall i :: 0 <= i < width ==> IsOctal(s[i])
  {
    if width == 0 then "" else Octal(n / 8, width - 1) + [Digit(n % 8)]
  }

  function Power8(n: nat): (p: nat) {
    if n == 0 then 1 else 8 * Power8(n - 1)
  }

  /** The scan of parse_octal from `val`: digits accumulate, NUL or space ends the number, anything
      else is skipped. */
  function OctalFrom(val: nat, s: string): (r: nat)
    decreases |s|
  {
    if s == "" then val
    else if IsOctal(s[0]) then OctalFrom(val * 8 + (s[0] as int - '0' as int), s[1..])
    else if s[0] == '\0' || s[0] == ' ' then val
    else OctalFrom(val, s[1..])
  }

  method ParseOctal(s: string) returns (val: nat)
    ensures val == OctalFrom(0, s)
  {
    val := 0;
    var i := 0;
    while i < |s|
      invariant 0 <= i <= |s| && OctalFrom(val, s[i..]) == OctalFrom(0, s)
    {
      assert s[i..][1..] == s[i + 1..];
      if IsOctal(s[i]) {
        val := val * 8 + (s[i] as int - '0' as int);
      } else if s[i] == '\0' || s[i] == ' ' {
        return;
      }
      i := i + 1;
    }
  }

  /** NUL and space end a number, and any other character that is no octal digit is skipped. */
  lemma {:induction false} OctalEndsAndSkips(val: nat, s: string, c: char, rest: string)
    requires !IsOctal(c) && '\0' !in s && ' ' !in s
    ensures c == '\0' || c == ' ' ==> OctalFrom(val, s + [c] + rest) == OctalFrom(val, s)
    ensures c != '\0' && c != ' ' ==> OctalFrom(val, s + [c] + rest) == OctalFrom(val, s + rest)
    decreases |s|
  {
    if s == "" {
      assert s + [c] + rest == [c] + rest && ([c] + rest)[1..] == rest && s + rest == rest;
    } else {
      assert (s + [c] + rest)[1..] == s[1..] + [c] + rest && (s + rest)[1..] == s[1..] + rest;
      var next := if IsOctal(s[0]) then val * 8 + (s[0] as int - '0' as int) else val;
      OctalEndsAndSkips(next, s[1..], c, rest);
    }
  }

  lemma {:induction false} OctalScan(val: nat, n: nat, width: nat, rest: string)
    requires n < Power8(width)
    ensures OctalFrom(val, Octal(n, width) + rest) == OctalFrom(val * Power8(width) + n, rest)
  {
    if width == 0 {
      assert Octal(n, 0) + rest == rest;
    } else {
      var d := Digit(n % 8);
      assert Octal(n, width) + rest == Octal(n / 8, width - 1) + ([d] + rest);
      OctalScan(val, n / 8, width - 1, [d] + rest);
      assert ([d] + rest)[1..] == rest;
      ScanStep(val, Power8(width - 1), n);
    }
  }

  lemma ScanStep(val: nat, p: nat, n: nat)
    ensures (val * p + n / 8) * 8 + n % 8 == val * (8 * p) + n
  {
  }

  /** A number written with enough digits and a terminator reads back. */
  lemma OctalRoundTrip(n: nat, width: nat, rest: string)
    requires n < Power8(width) && rest != "" && (rest[0] == '\0' || rest[0] == ' ')
    ensures OctalFrom(0, Octal(n, width) + rest) == n
  {
    OctalScan(0, n, width, rest);
  }

  lemma Powers()
    ensures Power8(6) == 262144 && Power8(11) == 0x2_0000_0000
  {
    assert Power8(6) == 8 * 8 * 8 * 8 * Power8(2);
    assert Power8(11) == 8 * 8 * 8 * 8 * 8 * Power8(6);
  }

  // ----- header -----

  /** `h` with `s` copied in at `off`. */
  function Splice(h: string, off: nat, s: string): (r: string)
    requires off + |s| <= |h|
    ensures |r| == |h|
    ensures forall i :: 0 <= i < |h| ==> r[i] == if off <= i < off + |s| then s[i - off] else h[i]
  {
    h[..off] + s + h[off + |s|..]
  }

  function Sum(s: string): (n: nat) {
    if s == "" then 0 else Sum(s[..|s| - 1]) + s[|s| - 1] as int
  }

  lemma {:induction false} SumBound(s: string)
    requires IsBytes(s)
    ensures Sum(s) <= 255 * |s|
  {
    if s != "" {
      SumBound(s[..|s| - 1]);
    }
  }

  function Cut(name: string): (r: string)
    ensures |r| <= 99
  {
    if |name| <= 99 then name else name[..99]
  }

  /** The header before its checksum: the checksum field holds spaces. */
  function BlankHeader(name: string, size: nat, isDir: bool): (h: string)
    ensures |h| == BLOCK
  {
    var h0 := Splice(Zeros(BLOCK), 0, Cut(name));
    var h1 := Splice(h0, 100, "0000755\0");
    var h2 := Splice(h1, 108, "0000000\0");
    var h3 := Splice(h2, 116, "0000000\0");
    var h4 := Splice(h3, 124, Octal(size, 11) + "\0");
    var h5 := Splice(h4, 136, "00000000000\0");
    var h6 := Splice(h5, 156, [if isDir then '5' else '0']);
    var h7 := Splice(h6, 257, "ustar\0");
    var h8 := Splice(h7, 263, "00");
    Splice(h8, 148, "        ")
  }

  function ChecksumField(blank: string): (s: string)
    ensures |s| == 8
  {
    Octal(Sum(blank), 6) + "\0 "
  }

  function Header(name: string, size: nat, isDir: bool): (h: string)
    ensures |h| == BLOCK
  {
    var blank := BlankHeader(name, size, isDir);
    Splice(blank, 148, ChecksumField(blank))
  }

  /** The fields the kernel looks at. */
  lemma HeaderFields(name: string, size: nat, isDir: bool)
    ensures var h := Header(name, size, isDir);
            && h[..100] == Cut(name) + Zeros(100 - |Cut(name)|)
            && h[100..108] == "0000755\0" && h[108..116] == "0000000\0" && h[116..124] == "0000000\0"
            && h[124..136] == Octal(size, 11) + "\0" && h[136..148] == "00000000000\0"
            && h[156] == (if isDir then '5' else '0')
            && h[257..265] == "ustar\000"
  {
    hide Cut, Octal, Sum, Splice;
    var h := Header(name, size, isDir);
    var size11 := Octal(size, 11) + "\0";
    forall i | 0 <= i < 100
      ensures h[i] == (Cut(name) + Zeros(100 - |Cut(name)|))[i]
    {
    }
    forall i | 124 <= i < 136
      ensures h[i] == size11[i - 124]
    {
    }
    assert h[..100] == Cut(name) + Zeros(100 - |Cut(name)|);
    assert h[124..136] == size11;
    assert h[257..265] == "ustar\000";
    assert h[100..108] == "0000755\0" && h[108..116] == "0000000\0" && h[116..124] == "0000000\0";
    assert h[136..148] == "00000000000\0";
  }

  lemma BlankIsBytes(name: string, size: nat, isDir: bool)
    requires IsBytes(name)
    ensures IsBytes(BlankHeader(name, size, isDir))
  {
    hide Splice, IsBytes, Octal, Cut;
    ConstantBytes();
    FieldBytes(name, size);
    var h0 := Splice(Zeros(BLOCK), 0, Cut(name));
    SpliceBytes(Zeros(BLOCK), 0, Cut(name));
    var h1 := Splice(h0, 100, "0000755\0");
    SpliceBytes(h0, 100, "0000755\0");
    var h2 := Splice(h1, 108, "0000000\0");
    SpliceBytes(h1, 108, "0000000\0");
    var h3 := Splice(h2, 116, "0000000\0");
    SpliceBytes(h2, 116, "0000000\0");
    var h4 := Splice(h3, 124, Octal(size, 11) + "\0");
    SpliceBytes(h3, 124, Octal(size, 11) + "\0");
    var h5 := Splice(h4, 136, "00000000000\0");
    SpliceBytes(h4, 136, "00000000000\0");
    var h6 := Splice(h5, 156, [if isDir then '5' else '0']);
    SpliceBytes(h5, 156, [if isDir then '5' else '0']);
    var h7 := Splice(h6, 257, "ustar\0");
    SpliceBytes(h6, 257, "ustar\0");
    var h8 := Splice(h7, 263, "00");
    SpliceBytes(h7, 263, "00");
    SpliceBytes(h8, 148, "        ");
  }

  lemma SpliceBytes(h: string, off: nat, s: string)
    requires off + |s| <= |h| && IsBytes(h) && IsBytes(s)
    ensures IsBytes(Splice(h, off, s))
  {
  }

  lemma ConstantBytes()
    ensures IsBytes(Zeros(BLOCK)) && IsBytes("0000755\0") && IsBytes("0000000\0") && IsBytes("00000000000\0")
    ensures IsBytes("ustar\0") && IsBytes("00") && IsBytes("        ") && IsBytes("5") && IsBytes("0")
  {
  }

  lemma FieldBytes(name: string, size: nat)
    requires IsBytes(name)
    ensures IsBytes(Cut(name)) && IsBytes(Octal(size, 11) + "\0") && |Octal(size, 11)| == 11
  {
  }

  /** The checksum field holds the sum of the header's bytes taken with that field blank. */
  lemma ChecksumReadsBack(name: string, size: nat, isDir: bool)
    requires IsBytes(name)
    ensures var h := Header(name, size, isDir);
            OctalFrom(0, h[148..156]) == Sum(Splice(h, 148, "        "))
  {
    hide Octal, Sum, OctalFrom;
    var blank := BlankHeader(name, size, isDir);
    var h := Header(name, size, isDir);
    BlankIsBytes(name, size, isDir);
    SumBound(blank);
    Powers();
    assert h[148..156] == ChecksumField(blank) == Octal(Sum(blank), 6) + "\0 ";
    OctalRoundTrip(Sum(blank), 6, "\0 ");
    BlankAgain(blank, ChecksumField(blank));
    BlankSpaces(name, size, isDir);
  }

  lemma BlankAgain(blank: string, field: string)
    requires |blank| == BLOCK && |field| == 8 && blank[148..156] == "        "
    ensures Splice(Splice(blank, 148, field), 148, "        ") == blank
  {
    assert forall i :: 148 <= i < 156 ==> blank[i] == blank[148..156][i - 148];
  }

  lemma BlankSpaces(name: string, size: nat, isDir: bool)
    ensures BlankHeader(name, size, isDir)[148..156] == "        "
  {
    hide Splice, Octal, Cut;
  }

  // ----- entries -----

  function Padding(n: nat): (p: nat)
    ensures (n + p) % BLOCK == 0 && p < BLOCK
  {
    if n % BLOCK == 0 then 0 else BLOCK - n % BLOCK
  }

  function EntryBytes(name: string, data: string, isDir: bool): (s: string) {
    Header(name, |data|, isDir) + data + Zeros(Padding(|data|))
  }

  method CopyInto(a: array<char>, off: nat, s: string)
    requires off + |s| <= a.Length
    modifies a
    ensures a[..] == Splice(old(a[..]), off, s)
  {
    var i := 0;
    while i < |s|
      invariant 0 <= i <= |s|
      invariant forall k :: 0 <= k < a.Length ==> a[k] == if off <= k < off + i then s[k - off] else old(a[k])
    {
      a[off + i] := s[i];
      i := i + 1;
    }
  }

  /** Fills the header in place, sums it with a blank checksum field, and appends the padded data. */
  method WriteTarEntry(name: string, data: string, isDir: bool) returns (out: string)
    requires |data| < Power8(11)
    ensures out == EntryBytes(name, data, isDir)
  {
    hide Octal, Sum, Splice, Cut;
    var header := new char[BLOCK](_ => '\0');
    assert header[..] == Zeros(BLOCK);
    CopyInto(header, 0, Cut(name));
    CopyInto(header, 100, "0000755\0");
    CopyInto(header, 108, "0000000\0");
    CopyInto(header, 116, "0000000\0");
    CopyInto(header, 124, Octal(|data|, 11) + "\0");
    CopyInto(header, 136, "00000000000\0");
    CopyInto(header, 156, [if isDir then '5' else '0']);
    CopyInto(header, 257, "ustar\0");
    CopyInto(header, 263, "00");
    CopyInto(header, 148, "        ");
    var chksum := SumOf(header[..]);
    CopyInto(header, 148, Octal(chksum, 6) + "\0 ");
    out := header[..] + data;
    if |data| % BLOCK != 0 {
      out := out + Zeros(BLOCK - |data| % BLOCK);
    } else {
      assert out == out + Zeros(0);
    }
  }

  method SumOf(s: string) returns (n: nat)
    ensures n == Sum(s)
  {
    n := 0;
    var i := 0;
    while i < |s|
      invariant 0 <= i <= |s| && n == Sum(s[..i])
    {
      assert s[..i + 1][..i] == s[..i];
      n := n + s[i] as int;
      i := i + 1;
    }
    assert s[..i] == s;
  }
}

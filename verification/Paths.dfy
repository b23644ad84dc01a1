/** Lexical path handling of the VFS layer: splitting on '/', folding "." and ".." away, and
    rendering a component list back to an absolute path string. */
module Paths {

  /** The pieces between separators; a string with k separators has k + 1 pieces. */
  function Split(s: string): (parts: seq<string>)
    ensures |parts| > 0
  {
    if s == "" then [""]
    else
      var rest := Split(s[1..]);
      if s[0] == '/' then [""] + rest else [[s[0]] + rest[0]] + rest[1..]
  }

  /** A piece that names a directory entry. */
  predicate IsName(c: string) {
    c != "" && c != "." && c != ".." && '/' !in c
  }

  predicate AllNames(cs: seq<string>) {
    forall i :: 0 <= i < |cs| ==> IsName(cs[i])
  }

  /** One round of the normalization loop. */
  function Fold(stack: seq<string>, part: string): (r: seq<string>) {
    if part == "" || part == "." then stack
    else if part == ".." then (if stack == [] then [] else stack[..|stack| - 1])
    else stack + [part]
  }

  function FoldAll(parts: seq<string>): (r: seq<string>) {
    if parts == [] then [] else Fold(FoldAll(parts[..|parts| - 1]), parts[|parts| - 1])
  }

  function FullPath(cwd: string, path: string): (r: string) {
    if path != "" && path[0] == '/' then path
    else if cwd == "/" then "/" + path
    else cwd + "/" + path
  }

  /** The components of the normalized path, root being the empty list. */
  function NormComponents(cwd: string, path: string): (cs: seq<string>) {
    FoldAll(Split(FullPath(cwd, path)))
  }

  /** Every component preceded by a separator. */
  function Render(cs: seq<string>): (s: string) {
    if cs == [] then "" else "/" + cs[0] + Render(cs[1..])
  }

  function PathString(cs: seq<string>): (s: string) {
    if cs == [] then "/" else Render(cs)
  }

  function NonEmptyParts(parts: seq<string>): (r: seq<string>) {
    if parts == [] then []
    else if parts[0] == "" then NonEmptyParts(parts[1..])
    else [parts[0]] + NonEmptyParts(parts[1..])
  }

  /** Whether `s` begins with `prefix`. */
  predicate StartsWith(s: string, prefix: string) {
    prefix <= s
  }

  lemma FoldAllStep(parts: seq<string>, i: nat)
    requires i < |parts|
    ensures FoldAll(parts[..i + 1]) == Fold(FoldAll(parts[..i]), parts[i])
  {
    assert parts[..i + 1][..i] == parts[..i];
  }

  lemma RenderStep(cs: seq<string>, k: nat)
    requires k < |cs|
    ensures Render(cs[k..]) == "/" + cs[k] + Render(cs[k + 1..])
  {
    assert cs[k..][1..] == cs[k + 1..];
  }

  /** The loop that pushes and pops components, then the loop that renders them. */
  method NormalizePath(cwd: string, path: string) returns (norm: string)
    ensures norm == PathString(NormComponents(cwd, path))
  {
    var parts := Split(FullPath(cwd, path));
    var components := [];
    var i := 0;
    while i < |parts|
      invariant 0 <= i <= |parts|
      invariant components == FoldAll(parts[..i])
    {
      FoldAllStep(parts, i);
      var part := parts[i];
      if part == "" || part == "." {
      } else if part == ".." {
        if components != [] {
          components := components[..|components| - 1];
        }
      } else {
        components := components + [part];
      }
      i := i + 1;
    }
    assert parts[..i] == parts;
    if components == [] {
      return "/";
    }
    norm := "";
    var k := 0;
    while k < |components|
      invariant 0 <= k <= |components|
      invariant norm + Render(components[k..]) == Render(components)
    {
      RenderStep(components, k);
      norm := norm + ("/" + components[k]);
      k := k + 1;
    }
  }

  lemma {:induction false} SplitHasNoSeparator(s: string)
    ensures forall i :: 0 <= i < |Split(s)| ==> '/' !in Split(s)[i]
  {
    if s != "" {
      SplitHasNoSeparator(s[1..]);
    }
  }

  lemma {:induction false} FoldAllNames(parts: seq<string>)
    requires forall i :: 0 <= i < |parts| ==> '/' !in parts[i]
    ensures AllNames(FoldAll(parts))
  {
    if parts != [] {
      FoldAllNames(parts[..|parts| - 1]);
    }
  }

  /** Normalization leaves only real entry names. */
  lemma NormalizedNames(cwd: string, path: string)
    ensures AllNames(NormComponents(cwd, path))
  {
    var full := FullPath(cwd, path);
    SplitHasNoSeparator(full);
    FoldAllNames(Split(full));
  }

  lemma {:induction false} SplitAtSeparator(c: string, t: string)
    requires '/' !in c
    ensures Split(c + "/" + t) == [c] + Split(t)
  {
    if c == "" {
      assert (c + "/" + t)[1..] == t;
    } else {
      assert (c + "/" + t)[1..] == c[1..] + "/" + t;
      SplitAtSeparator(c[1..], t);
      assert c == [c[0]] + c[1..];
    }
  }

  lemma {:induction false} SplitNoSeparator(c: string)
    requires '/' !in c
    ensures Split(c) == [c]
  {
    if c != "" {
      SplitNoSeparator(c[1..]);
      assert c == [c[0]] + c[1..];
    }
  }

  lemma {:induction false} SplitBody(cs: seq<string>)
    requires cs != [] && AllNames(cs)
    ensures Split(cs[0] + Render(cs[1..])) == cs
  {
    if |cs| == 1 {
      assert cs[0] + Render(cs[1..]) == cs[0];
      SplitNoSeparator(cs[0]);
    } else {
      var t := cs[1] + Render(cs[1..][1..]);
      assert cs[0] + Render(cs[1..]) == cs[0] + "/" + t;
      SplitBody(cs[1..]);
      SplitAtSeparator(cs[0], t);
    }
  }

  lemma {:induction false} NonEmptyPartsOfNames(cs: seq<string>)
    requires AllNames(cs)
    ensures NonEmptyParts(cs) == cs
  {
    if cs != [] {
      NonEmptyPartsOfNames(cs[1..]);
    }
  }

  /** Rendering then splitting gives the components back: the resolvers walk exactly the
      normalized components. */
  lemma PathRoundTrip(cs: seq<string>)
    requires AllNames(cs)
    ensures NonEmptyParts(Split(PathString(cs))) == cs
    ensures PathString(cs) == "/" <==> cs == []
  {
    if cs == [] {
      assert Split("/") == ["", ""];
      assert NonEmptyParts(["", ""]) == NonEmptyParts([""]) == [];
    } else {
      var body := cs[0] + Render(cs[1..]);
      assert PathString(cs) == "/" + body;
      assert ("/" + body)[1..] == body;
      SplitBody(cs);
      assert Split(PathString(cs)) == [""] + cs;
      assert ([""] + cs)[1..] == cs;
      NonEmptyPartsOfNames(cs);
    }
  }

  lemma {:induction false} FoldAllOfNames(cs: seq<string>)
    requires AllNames(cs)
    ensures FoldAll([""] + cs) == cs
  {
    if cs == [] {
      assert [""] + cs == [""];
      assert FoldAll([""]) == Fold(FoldAll([]), "");
    } else {
      var n := |cs| - 1;
      assert ([""] + cs)[..n + 1] == [""] + cs[..n];
      FoldAllOfNames(cs[..n]);
      assert cs == cs[..n] + [cs[n]];
    }
  }

  lemma RootComponents(cwd: string)
    ensures NormComponents(cwd, "/") == []
  {
    SplitNoSeparator("");
    SplitAtSeparator("", "");
    assert "" + "/" + "" == "/";
    FoldAllOfNames([]);
    FoldAllStep(["", ""], 1);
    assert ["", ""][..2] == ["", ""] && ["", ""][..1] == [""] == [""] + [];
  }

  lemma RenderIs(cs: seq<string>)
    requires cs != []
    ensures Render(cs) == "" + "/" + (cs[0] + Render(cs[1..])) && Render(cs) != "" && Render(cs)[0] == '/'
  {
  }

  /** A rendered list of names is absolute and gives its components back. */
  lemma RenderedComponents(cwd: string, cs: seq<string>)
    requires cs != [] && AllNames(cs)
    ensures NormComponents(cwd, Render(cs)) == cs
  {
    hide Split, FoldAll, IsName, Render;
    RenderIs(cs);
    SplitBody(cs);
    SplitAtSeparator("", cs[0] + Render(cs[1..]));
    FoldAllOfNames(cs);
  }

  /** Normalizing a normalized path changes nothing, whatever the working directory. */
  lemma NormalizeIdempotent(cwd: string, path: string, cwd': string)
    ensures NormComponents(cwd', PathString(NormComponents(cwd, path))) == NormComponents(cwd, path)
  {
    hide NormComponents, AllNames;
    NormalizedNames(cwd, path);
    RootComponents(cwd');
    var cs := NormComponents(cwd, path);
    if cs != [] {
      RenderedComponents(cwd', cs);
    }
  }

  predicate Absolute(path: string) {
    path != "" && path[0] == '/'
  }

  /** A separator and a last piece are split off. */
  lemma {:induction false} SplitSnoc(p: string, c: string)
    requires '/' !in c
    ensures Split(p + "/" + c) == Split(p) + [c]
  {
    if p == "" {
      SplitNoSeparator(c);
      SplitAtSeparator("", c);
    } else {
      assert (p + "/" + c)[1..] == p[1..] + "/" + c;
      SplitSnoc(p[1..], c);
      SplitNonEmpty(p);
    }
  }

  lemma SplitNonEmpty(s: string)
    requires s != ""
    ensures var rest := Split(s[1..]);
            Split(s) == if s[0] == '/' then [""] + rest else [[s[0]] + rest[0]] + rest[1..]
  {
  }

  /** The law of normalization. On an absolute path, whatever the working directory, one more piece that
      is empty or "." changes nothing, ".." takes the last component away if there is one, and any other
      piece is appended. */
  lemma NormalizeSnoc(cwd: string, cwd': string, p: string, c: string)
    requires Absolute(p) && '/' !in c
    ensures var was, now := NormComponents(cwd, p), NormComponents(cwd', p + "/" + c);
            && (c == "" || c == "." ==> now == was)
            && (c == ".." ==> if was == [] then now == [] else |now| == |was| - 1 && now < was)
            && (c != "" && c != "." && c != ".." ==> now == was + [c])
  {
    hide Split;
    SplitSnoc(p, c);
    assert (p + "/" + c)[0] == '/';
    FoldAllStep(Split(p) + [c], |Split(p)|);
    assert (Split(p) + [c])[..|Split(p)| + 1] == Split(p) + [c] && (Split(p) + [c])[..|Split(p)|] == Split(p);
  }

  /** The same for the first piece of an absolute path. */
  lemma NormalizeFirst(cwd: string, c: string)
    requires '/' !in c
    ensures NormComponents(cwd, "/" + c) == if c == "" || c == "." || c == ".." then [] else [c]
  {
    hide Split;
    SplitNoSeparator(c);
    SplitAtSeparator("", c);
    assert "" + "/" + c == "/" + c && [""] + [c] == ["", c];
    FoldTwo("", c);
  }

  lemma FoldTwo(a: string, b: string)
    ensures FoldAll([a, b]) == Fold(Fold([], a), b)
  {
    assert [a, b][..1] == [a] && [a][..0] == [];
    assert FoldAll([a]) == Fold(FoldAll([]), a);
  }

  lemma {:induction false} FoldAllLeading(parts: seq<string>)
    ensures FoldAll([""] + parts) == FoldAll(parts)
  {
    if parts == [] {
      assert [""] + parts == [""] && [""][..0] == [];
    } else {
      var n := |parts| - 1;
      assert ([""] + parts)[..n + 1] == [""] + parts[..n];
      FoldAllLeading(parts[..n]);
    }
  }

  lemma LeadingSlash(s: string)
    ensures FoldAll(Split("/" + s)) == FoldAll(Split(s))
  {
    hide FoldAll;
    assert ("/" + s)[1..] == s;
    FoldAllLeading(Split(s));
  }

  /** A path that is not absolute is normalized as the absolute path below the working directory. */
  lemma NormalizeRelative(cwd: string, cwd': string, path: string)
    requires !Absolute(path)
    ensures NormComponents(cwd, path) == NormComponents(cwd', "/" + cwd + "/" + path)
    ensures Absolute(cwd) ==> NormComponents(cwd, path) == NormComponents(cwd', cwd + "/" + path)
  {
    hide FoldAll, Split;
    var full := cwd + "/" + path;
    assert "/" + cwd + "/" + path == "/" + full && ("/" + full)[0] == '/';
    LeadingSlash(full);
    if cwd == "/" {
      assert full == "/" + ("/" + path);
      LeadingSlash("/" + path);
    }
    if Absolute(cwd) {
      assert full[0] == '/';
    }
  }

  lemma {:induction false} RenderAppend(a: seq<string>, b: seq<string>)
    ensures Render(a + b) == Render(a) + Render(b)
  {
    if a == [] {
      assert a + b == b;
    } else {
      assert (a + b)[1..] == a[1..] + b;
      RenderAppend(a[1..], b);
    }
  }

  lemma FirstNameAgrees(o: string, n: string, s: string, t: string)
    requires IsName(o) && IsName(n)
    requires s != "" && s[0] == '/'
    requires t == "" || t[0] == '/'
    requires o + s <= n + t
    ensures o == n && s <= t
  {
    assert (n + t)[|o|] == (o + s)[|o|] == '/';
    assert |n| <= |o|;
    assert forall k :: 0 <= k < |o| ==> (n + t)[k] == (o + s)[k] == o[k];
    assert o == (o + s)[..|o|] == (n + t)[..|n|] == n;
    assert s == (o + s)[|o|..] && t == (n + t)[|n|..];
  }

  lemma {:induction false} PrefixStringOnlyIf(from: seq<string>, to: seq<string>)
    requires AllNames(from) && AllNames(to)
    requires Render(from) + "/" <= Render(to)
    ensures from < to
  {
    if from != [] {
      if to == [] {
        assert false;
      }
      var s := Render(from[1..]) + "/";
      var t := Render(to[1..]);
      assert Render(from) + "/" == "/" + (from[0] + s);
      assert Render(to) == "/" + (to[0] + t);
      assert (Render(from) + "/")[1..] == from[0] + s && Render(to)[1..] == to[0] + t;
      FirstNameAgrees(from[0], to[0], s, t);
      PrefixStringOnlyIf(from[1..], to[1..]);
      assert from == [from[0]] + from[1..] && to == [to[0]] + to[1..];
    }
  }

  /** The textual cycle test of rename, `norm_new.starts_with(norm_old + "/")`, holds exactly
      when the new component list properly extends the old one. */
  lemma PrefixStringIffProperPrefix(from: seq<string>, to: seq<string>)
    requires AllNames(from) && AllNames(to) && from != []
    ensures StartsWith(PathString(to), PathString(from) + "/") <==> from < to
  {
    if StartsWith(PathString(to), PathString(from) + "/") {
      assert PathString(from) == Render(from);
      assert |PathString(from) + "/"| > 1;
      PrefixStringOnlyIf(from, to);
    }
    if from < to {
      var r := to[|from|..];
      assert to == from + r;
      RenderAppend(from, r);
    }
  }
}

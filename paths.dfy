/**
 * Paths and file names as `std::path::Path` treats them.
 *
 * A path is the sequence of its components, read from the filesystem root;
 * a relative path such as the configured destination is taken relative to
 * the root (the process's working directory plays no part in the model).
 */
module Paths {
  import opened Wrappers

  type Path = seq<string>

  /** `str::starts_with`. */
  predicate StartsWith(s: string, prefix: string) {
    |prefix| <= |s| && s[..|prefix|] == prefix
  }

  /** `a` is a (component-wise) prefix of `b`, as `Path::starts_with` decides. */
  predicate IsPrefix(a: Path, b: Path) {
    |a| <= |b| && b[..|a|] == a
  }

  /** A component as `Path::components` yields it: never empty, never ".", never holding '/'. */
  predicate IsComponent(c: string) {
    c != "" && c != "." && '/' !in c
  }

  function Component(c: string): (p: Path)
    requires '/' !in c
    ensures p == [] || (p == [c] && IsComponent(c))
  {
    if c == "" || c == "." then [] else [c]
  }

  /** The components of `s`, the current one being `cur`, when the text left to read is `s`. */
  function ParseFrom(s: string, cur: string): (p: Path)
    requires '/' !in cur
    ensures forall i :: 0 <= i < |p| ==> IsComponent(p[i])
    decreases |s|
  {
    if s == [] then Component(cur)
    else if s[0] == '/' then Component(cur) + ParseFrom(s[1..], "")
    else ParseFrom(s[1..], cur + [s[0]])
  }

  /** `Path::new(s).components()`: the '/'-separated segments of `s` without empty and "." segments. */
  function ParsePath(s: string): (p: Path)
    ensures forall i :: 0 <= i < |p| ==> IsComponent(p[i])
  {
    ParseFrom(s, "")
  }

  lemma {:induction false} ParseFromPlain(s: string, cur: string)
    requires '/' !in cur && '/' !in s
    ensures ParseFrom(s, cur) == Component(cur + s)
    decreases |s|
  {
    if s != [] {
      assert s[0] in s;
      assert forall c :: c in s[1..] ==> c in s;
      ParseFromPlain(s[1..], cur + [s[0]]);
      assert cur + [s[0]] + s[1..] == cur + s;
    } else {
      assert cur + s == cur;
    }
  }

  /** A key without '/' names a single component. */
  lemma ParseSingleComponent(name: string)
    requires IsComponent(name)
    ensures ParsePath(name) == [name]
  {
    ParseFromPlain(name, "");
    assert "" + name == name;
  }

  /** Reading `x + "/" + b` gives the components of `x` followed by those of `b`. */
  lemma {:induction false} ParseFromConcat(x: string, b: string, cur: string)
    requires '/' !in cur
    ensures ParseFrom(x + "/" + b, cur) == ParseFrom(x, cur) + ParseFrom(b, "")
    decreases |x|
  {
    if x == [] {
      assert x + "/" + b == "/" + b;
      assert ("/" + b)[1..] == b;
    } else if x[0] == '/' {
      assert (x + "/" + b)[1..] == x[1..] + "/" + b;
      ParseFromConcat(x[1..], b, "");
    } else {
      assert (x + "/" + b)[1..] == x[1..] + "/" + b;
      ParseFromConcat(x[1..], b, cur + [x[0]]);
    }
  }

  /** A '/' separates components: the path `x/b` is the path `x` followed by the path `b`. */
  lemma ParseConcat(x: string, b: string)
    ensures ParsePath(x + "/" + b) == ParsePath(x) + ParsePath(b)
  {
    ParseFromConcat(x, b, "");
  }

  /** A slash-free first segment `a` of `a/b` becomes the first component (none when it is "" or "."). */
  lemma ParseFirstSegment(a: string, b: string)
    requires '/' !in a
    ensures ParsePath(a + "/" + b) == Component(a) + ParsePath(b)
  {
    ParseConcat(a, b);
    ParseFromPlain(a, "");
    assert "" + a == a;
  }

  /** The text after the last '/' of `s`, or all of `s` when it has no '/'. */
  function LastSegment(s: string): (r: string)
    ensures '/' !in r
    ensures |r| <= |s| && s[|s| - |r|..] == r
    ensures |r| < |s| ==> s[|s| - |r| - 1] == '/'
  {
    match LastIndex(s, '/')
    case None => s
    case Some(k) => s[k + 1..]
  }

  /** The last segment is everything after the last '/' (after position `k`, or all of `s` for `k == -1`). */
  lemma LastSegmentAfter(s: string, k: int)
    requires -1 <= k < |s| && (k >= 0 ==> s[k] == '/')
    requires forall j :: k < j < |s| ==> s[j] != '/'
    ensures LastSegment(s) == s[k + 1..]
  {
    var r, c := LastSegment(s), |s| - |LastSegment(s)|;
    assert c == k + 1;
  }

  /** The last segment is empty exactly when `s` is empty or ends in '/'. */
  lemma LastSegmentEmpty(s: string)
    ensures LastSegment(s) == "" <==> s == "" || s[|s| - 1] == '/'
  {
    if s == "" || s[|s| - 1] == '/' {
      LastSegmentAfter(s, |s| - 1);
    }
  }

  lemma DotNamesAreLastSegments()
    ensures LastSegment(".") == "." && LastSegment("..") == ".."
  {
    assert "."[..0] == [] && ".."[..1] == ".";
  }

  /** The last segment is "." exactly when `s` is "." or ends in "/.". */
  lemma LastSegmentDot(s: string)
    ensures LastSegment(s) == "." <==> s == "." || (|s| >= 2 && s[|s| - 2] == '/' && s[|s| - 1] == '.')
  {
    if LastSegment(s) == "." {
      DotEnds(s);
    }
    if s == "." || (|s| >= 2 && s[|s| - 2] == '/' && s[|s| - 1] == '.') {
      EndsInDot(s);
    }
  }

  lemma DotEnds(s: string)
    requires LastSegment(s) == "."
    ensures s == "." || (|s| >= 2 && s[|s| - 2] == '/' && s[|s| - 1] == '.')
  {
    var r := LastSegment(s);
    assert s[|s| - 1..] == r;
    assert s[|s| - 1] == r[0];
    if |s| == 1 {
      assert s == s[|s| - 1..];
    }
  }

  lemma EndsInDot(s: string)
    requires s == "." || (|s| >= 2 && s[|s| - 2] == '/' && s[|s| - 1] == '.')
    ensures LastSegment(s) == "."
  {
    if s == "." {
      DotNamesAreLastSegments();
      return;
    }
    LastSegmentAfter(s, |s| - 2);
    assert s[|s| - 1..] == ".";
  }

  /** The last segment is ".." exactly when `s` is ".." or ends in "/..". */
  lemma LastSegmentDotDot(s: string)
    ensures LastSegment(s) == ".." <==> s == ".." || (|s| >= 3 && s[|s| - 3] == '/' && s[|s| - 2] == '.' && s[|s| - 1] == '.')
  {
    if LastSegment(s) == ".." {
      DotDotEnds(s);
    }
    if s == ".." || (|s| >= 3 && s[|s| - 3] == '/' && s[|s| - 2] == '.' && s[|s| - 1] == '.') {
      EndsInDotDot(s);
    }
  }

  lemma DotDotEnds(s: string)
    requires LastSegment(s) == ".."
    ensures s == ".." || (|s| >= 3 && s[|s| - 3] == '/' && s[|s| - 2] == '.' && s[|s| - 1] == '.')
  {
    var r := LastSegment(s);
    assert s[|s| - 2..] == r;
    assert s[|s| - 2] == r[0] && s[|s| - 1] == r[1];
    if |s| == 2 {
      assert s == s[|s| - 2..];
    }
  }

  lemma EndsInDotDot(s: string)
    requires s == ".." || (|s| >= 3 && s[|s| - 3] == '/' && s[|s| - 2] == '.' && s[|s| - 1] == '.')
    ensures LastSegment(s) == ".."
  {
    if s == ".." {
      DotNamesAreLastSegments();
      return;
    }
    LastSegmentAfter(s, |s| - 3);
    assert s[|s| - 2..] == "..";
  }

  /** The last segment is a name other than ".." unless `s` is empty, ends in '/', or is or ends in a dot name. */
  lemma LastSegmentName(s: string)
    ensures IsComponent(LastSegment(s)) && LastSegment(s) != ".." <==>
      && s != "" && s[|s| - 1] != '/'
      && s != "." && !(|s| >= 2 && s[|s| - 2] == '/' && s[|s| - 1] == '.')
      && s != ".." && !(|s| >= 3 && s[|s| - 3] == '/' && s[|s| - 2] == '.' && s[|s| - 1] == '.')
  {
    LastSegmentEmpty(s);
    LastSegmentDot(s);
    LastSegmentDotDot(s);
  }

  /** A name has extension `ext` exactly when it ends in "." and `ext` after a non-empty stem. */
  lemma ExtensionSuffix(name: string, ext: string)
    requires ext != "" && '.' !in ext
    ensures Extension(name) == Some(ext) <==> |name| > |ext| + 1 && name[|name| - |ext| - 1..] == "." + ext
  {
    if Extension(name) == Some(ext) {
      ExtensionEnds(name, ext);
    }
    if |name| > |ext| + 1 && name[|name| - |ext| - 1..] == "." + ext {
      EndsInExtension(name, ext);
    }
  }

  lemma ExtensionEnds(name: string, ext: string)
    requires Extension(name) == Some(ext)
    ensures |name| > |ext| + 1 && name[|name| - |ext| - 1..] == "." + ext
  {
    var stem := Stem(name);
    assert name == stem + "." + ext;
    assert name[|stem|..] == "." + ext;
  }

  lemma EndsInExtension(name: string, ext: string)
    requires ext != "" && '.' !in ext
    requires |name| > |ext| + 1 && name[|name| - |ext| - 1..] == "." + ext
    ensures Extension(name) == Some(ext)
  {
    var n := |name| - |ext| - 1;
    assert name[n] == '.' && name[n + 1..] == ext;
    assert forall j :: n < j < |name| ==> name[j] == ext[j - n - 1];
    LastIndexAt(name, '.', n);
  }

  /** A `c` with no `c` after it is the last one. */
  lemma LastIndexAt(s: string, c: char, k: nat)
    requires k < |s| && s[k] == c
    requires forall j :: k < j < |s| ==> s[j] != c
    ensures LastIndex(s, c) == Some(k)
  {
    var r := LastIndex(s, c);
    assert r.Some?;
    assert r.value == k;
  }

  /** When the last segment of `s` is a component, it is the last component of the path `s`. */
  lemma ParseLastSegment(s: string)
    requires IsComponent(LastSegment(s))
    ensures |ParsePath(s)| > 0 && ParsePath(s)[|ParsePath(s)| - 1] == LastSegment(s)
  {
    var seg := LastSegment(s);
    var k := |s| - |seg|;
    if k == 0 {
      assert s == seg;
      ParseSingleComponent(seg);
    } else {
      var x := s[..k - 1];
      assert s == x + "/" + seg by {
        assert s == s[..k - 1] + [s[k - 1]] + s[k..];
      }
      ParseNamedLast(x, seg);
    }
  }

  lemma ParseNamedLast(x: string, name: string)
    requires IsComponent(name)
    ensures ParsePath(x + "/" + name) == ParsePath(x) + [name]
  {
    ParseConcat(x, name);
    ParseSingleComponent(name);
  }

  /** `base.join(key)`: a key beginning with '/' is absolute and replaces `base`. */
  function Join(base: Path, key: string): (p: Path)
    ensures |key| > 0 && key[0] == '/' ==> p == ParsePath(key)
    ensures !(|key| > 0 && key[0] == '/') ==> |p| >= |base| && p[..|base|] == base && p[|base|..] == ParsePath(key)
  {
    if |key| > 0 && key[0] == '/' then ParsePath(key) else base + ParsePath(key)
  }

  /** Joining `a/k` to a base, for a relative slash-free name `a`, is joining `a` and then `k`. */
  lemma JoinNested(base: Path, a: string, k: string)
    requires a != "" && '/' !in a
    ensures Join(base, a + "/" + k) == Join(base, a) + ParsePath(k)
  {
    var s := a + "/" + k;
    assert s[0] == a[0] && a[0] in a;
    ParseFirstSegment(a, k);
    ParseFromPlain(a, "");
    assert "" + a == a;
    assert Join(base, a) == base + Component(a);
    assert Join(base, s) == base + (Component(a) + ParsePath(k));
  }

  /** `Path::file_name`: the last component, none for the root or a path ending in "..". */
  function FileName(p: Path): (r: Option<string>)
    ensures r.Some? <==> |p| > 0 && p[|p| - 1] != "" && p[|p| - 1] != ".."
    ensures r.Some? ==> r.value == p[|p| - 1]
  {
    if |p| == 0 || p[|p| - 1] == "" || p[|p| - 1] == ".." then None else Some(p[|p| - 1])
  }

  /** The index of the last occurrence of `c` in `s`. */
  function LastIndex(s: string, c: char): (r: Option<nat>)
    ensures r.None? <==> c !in s
    ensures r.Some? ==> r.value < |s| && s[r.value] == c && c !in s[r.value + 1..]
    decreases |s|
  {
    if s == [] then None
    else if s[|s| - 1] == c then Some(|s| - 1)
    else
      var r := LastIndex(s[..|s| - 1], c);
      assert s == s[..|s| - 1] + [s[|s| - 1]];
      if r.Some? then
        assert s[r.value + 1..] == s[..|s| - 1][r.value + 1..] + [s[|s| - 1]];
        r
      else r
  }

  /**
   * A file name split at its last dot into `file_stem` and `extension`.
   * A name whose only dot is its first character, and "..", have no extension.
   */
  function SplitExtension(name: string): (r: (string, Option<string>))
    ensures r.1.None? ==> r.0 == name
    ensures r.1.None? <==> name == ".." || name == "" || '.' !in name[1..]
    ensures r.1.Some? ==> name == r.0 + "." + r.1.value && r.0 != "" && '.' !in r.1.value
    ensures name != "" ==> r.0 != ""
    ensures |r.0| <= |name| && name[..|r.0|] == r.0
  {
    if name == ".." then (name, None)
    else match LastIndex(name, '.')
      case None => (name, None)
      case Some(i) =>
        if i == 0 then
          assert name[1..] == name[i + 1..];
          (name, None)
        else
          assert name[i] in name[1..];
          (name[..i], Some(name[i + 1..]))
  }

  function Stem(name: string): string {
    SplitExtension(name).0
  }

  function Extension(name: string): Option<string> {
    SplitExtension(name).1
  }

  /**
   * `Path::with_extension(ext)`: the last component's stem followed by "." and `ext`
   * (by the stem alone when `ext` is empty); a path without a file name is returned as it is.
   */
  function WithExtension(p: Path, ext: string): (q: Path)
    ensures FileName(p).None? ==> q == p
    ensures FileName(p).Some? ==> |q| == |p| && q[..|p| - 1] == p[..|p| - 1]
  {
    if FileName(p).None? then p
    else
      var stem := Stem(p[|p| - 1]);
      p[..|p| - 1] + [if ext == "" then stem else stem + "." + ext]
  }

  /** The stem of `s + "." + t` ends at that dot when `t` has no dot of its own. */
  lemma DotBeforeExtension(s: string, t: string)
    requires s != "" && t != "" && '.' !in t
    ensures SplitExtension(s + "." + t) == (s, Some(t))
  {
    var n := s + "." + t;
    assert n[|s|] == '.';
    assert n[|s| + 1..] == t;
    var d := LastIndex(n, '.');
    assert d.Some? && d.value == |s|;
    assert |n| > 2;
    assert n[..|s|] == s;
  }
}

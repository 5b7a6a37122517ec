/**
 * The POSIX flavour of Node's `path.basename`, `path.extname` and
 * `path.resolve` as the conversion tool uses them.
 */
module NodePath {
  import opened JsString

  /** The index of the last `c` in `s`, or -1. */
  function LastIndex(s: string, c: char): (r: int)
    ensures -1 <= r < |s|
    ensures r >= 0 ==> s[r] == c
  {
    if |s| == 0 then -1 else if s[|s| - 1] == c then |s| - 1 else LastIndex(s[..|s| - 1], c)
  }

  /** No `c` follows the one `LastIndex` finds. */
  lemma {:induction false} LastIndexIsLast(s: string, c: char)
    ensures forall k :: LastIndex(s, c) < k < |s| ==> s[k] != c
  {
    if |s| > 0 && s[|s| - 1] != c {
      var t := s[..|s| - 1];
      LastIndexIsLast(t, c);
      forall k | LastIndex(s, c) < k < |s| ensures s[k] != c {
        if k < |s| - 1 {
          assert s[k] == t[k];
        }
      }
    }
  }

  function StripTrailingSlashes(p: string): (r: string)
    ensures |r| <= |p| && r == p[..|r|]
    ensures r == [] || r[|r| - 1] != '/'
  {
    if |p| > 0 && p[|p| - 1] == '/' then StripTrailingSlashes(p[..|p| - 1]) else p
  }

  /** `path.basename(p)`: the last segment, trailing separators ignored. */
  function BaseName(p: string): (r: string)
    ensures '/' !in r
  {
    var t := StripTrailingSlashes(p);
    LastIndexIsLast(t, '/');
    t[LastIndex(t, '/') + 1..]
  }

  /**
   * `path.extname(p)`: from the last `.` of the base name to its end; empty
   * when the base name has no `.`, starts with its only `.`, or is `..`.
   */
  function ExtName(p: string): string {
    var b := BaseName(p);
    var d := LastIndex(b, '.');
    if d <= 0 || b == ".." then "" else b[d..]
  }

  /**
   * The extension is empty or a `.` followed by no other `.`, and it ends
   * the base name, which is longer; it holds no `/`.
   */
  lemma ExtNameShape(p: string)
    ensures var r := ExtName(p);
      && (r == "" || (r[0] == '.' && |r| < |BaseName(p)| && BaseName(p)[|BaseName(p)| - |r|..] == r))
      && (forall i :: 0 < i < |r| ==> r[i] != '.')
      && '/' !in r
  {
    var b := BaseName(p);
    LastIndexIsLast(b, '.');
  }

  /** `path.basename(p, path.extname(p))`: the base name without its extension. */
  function Stem(p: string): string {
    var b := BaseName(p);
    b[..|b| - |ExtName(p)|]
  }

  /** The stem holds no `/`, and the stem followed by the extension is the base name. */
  lemma StemShape(p: string)
    ensures '/' !in Stem(p)
    ensures Stem(p) + ExtName(p) == BaseName(p)
  {
  }

  /** `path.resolve(dir, name)` for an absolute `dir` and a plain file name. */
  function Resolve(dir: string, name: string): string {
    dir + "/" + name
  }

  lemma {:induction false} LastIndexAfter(a: string, c: char, b: string)
    requires c !in b
    ensures LastIndex(a + [c] + b, c) == |a|
  {
    var s := a + [c] + b;
    if |b| > 0 {
      assert s[..|s| - 1] == a + [c] + b[..|b| - 1];
      LastIndexAfter(a, c, b[..|b| - 1]);
    }
  }

  /** The base name of a resolved file name is that name. */
  lemma BaseNameOfResolve(dir: string, name: string)
    requires name != "" && '/' !in name
    ensures BaseName(Resolve(dir, name)) == name
  {
    var p := Resolve(dir, name);
    assert p == dir + ['/'] + name;
    assert StripTrailingSlashes(p) == p;
    LastIndexAfter(dir, '/', name);
  }

  /** A base name of the form `stem.e`, with no `.` in `e`, has the extension `.e`. */
  lemma ExtNameOf(p: string, stem: string, e: string)
    requires BaseName(p) == stem + "." + e
    requires stem != "" && '.' !in e && stem + "." + e != ".."
    ensures ExtName(p) == "." + e
  {
    LastIndexAfter(stem, '.', e);
    assert stem + "." + e == stem + ['.'] + e;
  }

  /** A base name of the form `stem.e`, with no `.` in `e`, has the stem `stem`. */
  lemma StemOf(p: string, stem: string, e: string)
    requires BaseName(p) == stem + "." + e
    requires stem != "" && '.' !in e && stem + "." + e != ".."
    ensures ExtName(p) == "." + e && Stem(p) == stem
  {
    ExtNameOf(p, stem, e);
    StemShape(p);
    assert Stem(p) + ("." + e) == stem + ("." + e);
    assert Stem(p) == (Stem(p) + ("." + e))[..|Stem(p)|];
  }

  /** The file `stem.e` in any directory has base name `stem.e`, extension `.e` and stem `stem`. */
  lemma ResolvedParts(dir: string, stem: string, e: string)
    requires stem != "" && '/' !in stem && e != "" && '.' !in e && '/' !in e
    ensures var p := Resolve(dir, stem + "." + e);
      BaseName(p) == stem + "." + e && ExtName(p) == "." + e && Stem(p) == stem
  {
    var name := stem + "." + e;
    assert '/' !in name by {
      assert name == stem + ['.'] + e;
    }
    BaseNameOfResolve(dir, name);
    assert |name| > 2;
    StemOf(Resolve(dir, name), stem, e);
  }

  /** A base name without a `.` has no extension. */
  lemma ExtNameNone(p: string)
    requires '.' !in BaseName(p)
    ensures ExtName(p) == ""
  {
  }
}

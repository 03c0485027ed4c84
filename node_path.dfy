/** The part of Node's `path.extname` (POSIX flavour) that the manifest lookup relies on. */
module NodePath {
  import opened Wrappers

  /** Drops the trailing `/` characters, which `path.extname` skips over. */
  function StripTrailingSlashes(p: string): (r: string)
    ensures |r| <= |p| && r == p[..|r|]
    ensures r == [] || r[|r| - 1] != '/'
    ensures forall i :: |r| <= i < |p| ==> p[i] == '/'
  {
    if p != [] && p[|p| - 1] == '/' then StripTrailingSlashes(p[..|p| - 1]) else p
  }

  /** The characters after the last `/`. */
  function AfterLastSlash(p: string): (r: string)
    ensures |r| <= |p| && r == p[|p| - |r|..]
    ensures '/' !in r
    ensures |r| < |p| ==> p[|p| - |r| - 1] == '/'
  {
    if p == [] || p[|p| - 1] == '/' then []
    else AfterLastSlash(p[..|p| - 1]) + [p[|p| - 1]]
  }

  /** The last path component, trailing separators ignored. */
  function Basename(p: string): string {
    AfterLastSlash(StripTrailingSlashes(p))
  }

  /** The position of the last `.` in `b`, if any. */
  function LastDot(b: string): (r: Option<nat>)
    ensures r.Some? ==> r.value < |b| && b[r.value] == '.' && forall i :: r.value < i < |b| ==> b[i] != '.'
    ensures r.None? ==> forall i :: 0 <= i < |b| ==> b[i] != '.'
  {
    if b == [] then None
    else if b[|b| - 1] == '.' then Some(|b| - 1)
    else LastDot(b[..|b| - 1])
  }

  /**
   * `path.extname(p)`: from the last `.` of the base name to its end, or `""`
   * when the base name has no `.`, when its only leading `.` is the last one
   * (a dotfile such as `.appcache`), or when it is `..`.
   */
  function Extname(p: string): string {
    var b := Basename(p);
    match LastDot(b)
    case None => ""
    case Some(d) => if d == 0 || b == ".." then "" else b[d..]
  }

  predicate IsAppcache(assetName: string) {
    Extname(assetName) == ".appcache"
  }

  lemma {:induction false} LastDotAt(b: string, d: nat)
    requires d < |b| && b[d] == '.'
    requires forall i :: d < i < |b| ==> b[i] != '.'
    ensures LastDot(b) == Some(d)
  {
    if d < |b| - 1 {
      LastDotAt(b[..|b| - 1], d);
    }
  }

  lemma EndsWithAppcache(b: string)
    requires |b| > 9 && b[|b| - 9..] == ".appcache"
    ensures LastDot(b) == Some(|b| - 9)
  {
    var d := |b| - 9;
    assert b[d] == '.';
    forall i | d < i < |b|
      ensures b[i] != '.'
    {
      assert b[i] == b[d..][i - d];
    }
    LastDotAt(b, d);
  }

  /**
   * An asset name has the extension `.appcache` exactly when its base name ends
   * in `.appcache` after at least one other character: `.appcache` alone is a
   * dotfile with no extension.
   */
  lemma AppcacheIff(assetName: string)
    ensures IsAppcache(assetName) <==>
      var b := Basename(assetName); |b| > 9 && b[|b| - 9..] == ".appcache"
  {
    var b := Basename(assetName);
    if |b| > 9 && b[|b| - 9..] == ".appcache" {
      EndsWithAppcache(b);
      assert b != "..";
    }
    if IsAppcache(assetName) {
      var d := LastDot(b).value;
      assert b[d..] == ".appcache";
      assert d == |b| - 9;
    }
  }
}

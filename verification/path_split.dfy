/**
 * `os.path.splitext` as the POSIX flavour of Python's path library defines
 * it: the extension is the text from the last '.' of the last path component,
 * unless every character of that component before the dot is itself a dot
 * (so ".bashrc" and "dir/..x" have no extension).
 */
module PathSplit {

  /** `str.rfind(ch)`: index of the last occurrence of `ch`, or -1. */
  function RFind(p: string, ch: char): (i: int)
    ensures -1 <= i < |p|
    ensures i >= 0 ==> p[i] == ch
    ensures forall j :: i < j < |p| ==> p[j] != ch
  {
    if p == [] then -1
    else if p[|p| - 1] == ch then |p| - 1
    else RFind(p[..|p| - 1], ch)
  }

  /** `os.path.splitext(p)`: (root, extension), the extension keeping its dot. */
  function SplitExt(p: string): (r: (string, string))
    ensures r.0 + r.1 == p
    ensures r.1 == [] || r.1[0] == '.'
  {
    var sepIndex := RFind(p, '/');
    var dotIndex := RFind(p, '.');
    if dotIndex > sepIndex && exists i | sepIndex + 1 <= i < dotIndex :: p[i] != '.' then
      (p[..dotIndex], p[dotIndex..])
    else
      (p, "")
  }

  /** An extension as splitext returns it: empty, or a dot then no dot and no separator. */
  predicate IsExtension(ext: string) {
    ext == [] || (ext[0] == '.' && forall j :: 1 <= j < |ext| ==> ext[j] != '.' && ext[j] != '/')
  }

  /** Splitting loses nothing: root and extension put back together give the path. */
  lemma SplitExtJoins(p: string)
    ensures SplitExt(p).0 + SplitExt(p).1 == p
    ensures IsExtension(SplitExt(p).1)
  {
    var sepIndex := RFind(p, '/');
    var dotIndex := RFind(p, '.');
    if SplitExt(p).1 != [] {
      assert p[..dotIndex] + p[dotIndex..] == p;
      forall j | 1 <= j < |p[dotIndex..]|
        ensures p[dotIndex..][j] != '.' && p[dotIndex..][j] != '/'
      {
        assert p[dotIndex..][j] == p[dotIndex + j];
      }
    }
  }

  /**
   * A path has no extension exactly when every character of its last
   * component before the last dot is a dot: the component has no dot at all
   * (".../img"), or its only dots lead it (".bashrc", "d/..x").
   */
  lemma NoExtensionIff(p: string)
    ensures SplitExt(p).1 == [] <==> forall j :: RFind(p, '/') < j < RFind(p, '.') ==> p[j] == '.'
    ensures SplitExt(p).1 == [] ==> SplitExt(p).0 == p
  {
  }

  /**
   * `base + "." + x` splits at that dot when `x` holds neither a dot nor a
   * separator and the last component of `base` has a character other than a dot.
   */
  lemma SplitExtOfJoined(base: string, x: string)
    requires forall j :: 0 <= j < |x| ==> x[j] != '.' && x[j] != '/'
    requires exists i :: RFind(base, '/') < i < |base| && base[i] != '.'
    ensures SplitExt(base + "." + x) == (base, "." + x)
  {
    var p := base + "." + x;
    RFindAfterJoin(base, x, '.');
    RFindAfterJoin(base, x, '/');
    var i :| RFind(base, '/') < i < |base| && base[i] != '.';
    assert p[i] == base[i];
    SplitExtAtLastDot(p, i);
    JoinSlices(base, x);
  }

  /** A non-dot character between the last separator and the last dot makes that dot split. */
  lemma SplitExtAtLastDot(p: string, i: int)
    requires RFind(p, '/') < i < RFind(p, '.') && p[i] != '.'
    ensures SplitExt(p) == (p[..RFind(p, '.')], p[RFind(p, '.')..])
  {
  }

  lemma JoinSlices(base: string, x: string)
    ensures (base + "." + x)[..|base|] == base && (base + "." + x)[|base|..] == "." + x
  {
    assert base + "." + x == base + ("." + x);
  }

  lemma {:induction false} RFindAfterJoin(base: string, x: string, ch: char)
    requires ch == '.' || ch == '/'
    requires forall j :: 0 <= j < |x| ==> x[j] != '.' && x[j] != '/'
    ensures RFind(base + "." + x, ch) == if ch == '.' then |base| else RFind(base, ch)
  {
    var p := base + "." + x;
    if x != [] {
      assert p[..|p| - 1] == base + "." + x[..|x| - 1];
      RFindAfterJoin(base, x[..|x| - 1], ch);
    } else {
      assert p[..|p| - 1] == base;
    }
  }
}

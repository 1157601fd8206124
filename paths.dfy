/**
 * Path naming as the file manager relies on it: the final component, its
 * suffix (pathlib's `suffix`, built on `str.rfind('.')`), `with_suffix`,
 * the name of the compressed artifact, and which paths a glob over a
 * root directory yields.
 */
module Paths {

  /** One component of a path; pathlib never produces an empty one. */
  type Name = s: string | |s| > 0 witness "_"

  /** A path as its components, outermost first; the empty path is the filesystem root. */
  type Path = seq<Name>

  /** Index of the last '.' in `s`, or -1 when `s` has none (`str.rfind('.')`). */
  function LastDot(s: string): (i: int)
    ensures -1 <= i < |s|
    ensures 0 <= i ==> s[i] == '.'
    ensures forall k :: i < k < |s| ==> s[k] != '.'
  {
    if |s| == 0 then -1
    else if s[|s| - 1] == '.' then |s| - 1
    else LastDot(s[..|s| - 1])
  }

  /**
   * pathlib's `suffix`: from the last dot to the end, unless that dot is the
   * first character (a hidden name) or the last one, in which case "".
   */
  function Suffix(name: string): (r: string)
    ensures r != "" ==> 2 <= |r| < |name| && r == name[|name| - |r|..] && r[0] == '.'
    ensures r != "" ==> forall k :: 1 <= k < |r| ==> r[k] != '.'
    // the suffix is non-empty exactly when the last dot is neither the first nor the last character
    ensures r != "" <==> 0 < LastDot(name) < |name| - 1
  {
    var i := LastDot(name);
    if 0 < i < |name| - 1 then name[i..] else ""
  }

  /** pathlib's `with_suffix`: replace the suffix, or append when there is none. */
  function WithSuffix(name: string, suffix: string): string
  {
    var current := Suffix(name);
    if current == "" then name + suffix else name[..|name| - |current|] + suffix
  }

  /**
   * The artifact's name, written as file_manager.py writes it:
   * `with_suffix(suffix + ".gz")`. The existing extension is kept and ".gz"
   * is appended after it.
   */
  function CompressedName(name: Name): (r: Name)
    ensures r == name + ".gz"
  {
    WithSuffix(name, Suffix(name) + ".gz")
  }

  /** The last component of a non-root path. */
  function FinalName(p: Path): Name
    requires |p| > 0
  {
    p[|p| - 1]
  }

  /** The path of the compressed artifact: same directory, name with ".gz" appended. */
  function CompressedPath(p: Path): (r: Path)
    requires |p| > 0
    ensures |r| == |p| && r[..|p| - 1] == p[..|p| - 1]
    ensures FinalName(r) == FinalName(p) + ".gz"
  {
    p[..|p| - 1] + [CompressedName(FinalName(p))]
  }

  /** True when the final component has suffix ".gz" (the already-compressed test). */
  predicate IsGzName(p: Path)
  {
    |p| > 0 && Suffix(FinalName(p)) == ".gz"
  }

  /** The last dot is the dot with no dot after it. */
  lemma LastDotUnique(s: string, j: int)
    requires 0 <= j < |s| && s[j] == '.'
    requires forall k :: j < k < |s| ==> s[k] != '.'
    ensures LastDot(s) == j
  {
    var i := LastDot(s);
    assert i >= j ==> i == j;
  }

  /**
   * A name has suffix ".gz" exactly when it ends in ".gz" with at least one
   * character before the dot (".gz" alone is a hidden name, without suffix).
   */
  lemma GzSuffixIff(name: string)
    ensures Suffix(name) == ".gz" <==> |name| > 3 && name[|name| - 3..] == ".gz"
  {
    if |name| > 3 && name[|name| - 3..] == ".gz" {
      var j := |name| - 3;
      assert name[j] == '.' && name[j + 1] == 'g' && name[j + 2] == 'z';
      LastDotUnique(name, j);
    }
    if Suffix(name) == ".gz" {
      assert 0 < LastDot(name);
    }
  }

  /** Appending ".gz" to any name gives a name whose suffix is ".gz". */
  lemma GzAppendedSuffix(name: Name)
    ensures Suffix(name + ".gz") == ".gz"
  {
    var s := name + ".gz";
    assert s[|s| - 3..] == ".gz";
    GzSuffixIff(s);
  }

  /** Every artifact path is itself recognised as already compressed. */
  lemma CompressedPathIsGz(p: Path)
    requires |p| > 0
    ensures IsGzName(CompressedPath(p))
  {
    GzAppendedSuffix(FinalName(p));
  }

  /** Appending the same text to two names keeps them apart. */
  lemma CancelSuffix(a: string, b: string, s: string)
    requires a + s == b + s
    ensures a == b
  {
    assert |a| == |b|;
    assert a == (a + s)[..|a|];
    assert b == (b + s)[..|b|];
  }

  /** A non-root path is its directory followed by its final name. */
  lemma SplitLast(p: Path)
    requires |p| > 0
    ensures p == p[..|p| - 1] + [FinalName(p)]
  {
  }

  /** Two different paths never share an artifact path. */
  lemma CompressedPathInjective(p: Path, q: Path)
    requires |p| > 0 && |q| > 0
    requires CompressedPath(p) == CompressedPath(q)
    ensures p == q
  {
    var c := CompressedPath(p);
    assert |p| == |c| == |q|;
    assert FinalName(p) + ".gz" == FinalName(c) == FinalName(q) + ".gz";
    CancelSuffix(FinalName(p), FinalName(q), ".gz");
    SplitLast(p);
    SplitLast(q);
  }

  /**
   * The paths a glob over `root` yields: the non-recursive pattern gives
   * the direct children, the recursive one every path strictly below `root`.
   */
  predicate Matches(root: Path, q: Path, recursive: bool)
  {
    |root| < |q| && q[..|root|] == root && (recursive || |q| == |root| + 1)
  }

  /** No path occurs twice. */
  predicate Distinct(listing: seq<Path>)
  {
    forall i, j :: 0 <= i < j < |listing| ==> listing[i] != listing[j]
  }

  /** The path as text, components joined by "/", for error messages. */
  function Text(p: Path): (t: string)
    ensures |t| > 0 && t[0] == '/'
    // the rendering ends with the final name, so a message names the file it is about
    ensures |p| > 0 ==> |FinalName(p)| < |t| && t[|t| - |FinalName(p)|..] == FinalName(p)
  {
    if |p| == 0 then "/"
    else if |p| == 1 then "/" + p[0]
    else Text(p[..|p| - 1]) + "/" + p[|p| - 1]
  }
}

/** Paths as the handles see them: character sequences with the empty path as the
    "owns nothing" sentinel, `folder / name` joining, the generated `.tmp` file
    names, and the lexicographic order behind every comparison operator. */
module Paths {

  type Path = seq<char>

  /** The default-constructed path; a handle holding it is disarmed. */
  const Empty: Path := []

  const Separator: char := '/'

  /** The extension `replace_extension(".tmp")` gives every generated name. */
  const TmpExtension: Path := ".tmp"

  /** `p` ends in `suffix`. */
  predicate EndsWith(p: Path, suffix: Path) {
    |suffix| <= |p| && p[|p| - |suffix|..] == suffix
  }

  /** `folder / name`: appending an empty name changes nothing, an empty folder
      yields the name itself, and otherwise exactly one separator ends up between
      the two. The result always starts with `folder` and ends with `name`. */
  function Join(folder: Path, name: Path): (r: Path)
    ensures name != Empty ==> |r| > |folder|
    ensures |folder| <= |r| && r[..|folder|] == folder
    ensures |name| <= |r| && r[|r| - |name|..] == name
  {
    if name == Empty then folder
    else if folder == Empty then name
    else if folder[|folder| - 1] == Separator then folder + name
    else folder + [Separator] + name
  }

  /** The file name `unique_path().replace_extension(".tmp")` yields for the random
      stem `stem` that `unique_path` drew. */
  function TmpFileName(stem: Path): (name: Path)
    ensures name != Empty
    ensures EndsWith(name, TmpExtension)
  {
    stem + TmpExtension
  }

  /** A suffix of a suffix is a suffix: a path ending in `b`, where `b` ends in `c`,
      ends in `c`. */
  lemma SuffixOfSuffix(a: Path, b: Path, c: Path)
    requires EndsWith(a, b) && EndsWith(b, c)
    ensures EndsWith(a, c)
  {
    assert a[|a| - |c|..] == a[|a| - |b|..][|b| - |c|..];
  }

  /** Lexicographic `a < b`: the empty path is below every other path. */
  predicate Less(a: Path, b: Path)
    decreases |a|
  {
    && |b| > 0
    && (|a| == 0 || a[0] < b[0] || (a[0] == b[0] && Less(a[1..], b[1..])))
  }

  lemma {:induction false} LessIrreflexive(a: Path)
    ensures !Less(a, a)
    decreases |a|
  {
    if |a| > 0 {
      LessIrreflexive(a[1..]);
    }
  }

  lemma {:induction false} LessTransitive(a: Path, b: Path, c: Path)
    requires Less(a, b) && Less(b, c)
    ensures Less(a, c)
    decreases |a|
  {
    if |a| > 0 && a[0] == b[0] && b[0] == c[0] {
      LessTransitive(a[1..], b[1..], c[1..]);
    }
  }

  /** Any two paths are equal or ordered one way or the other. */
  lemma {:induction false} LessTotal(a: Path, b: Path)
    ensures a == b || Less(a, b) || Less(b, a)
    decreases |a|
  {
    if |a| > 0 && |b| > 0 && a[0] == b[0] {
      LessTotal(a[1..], b[1..]);
      if a[1..] == b[1..] {
        assert a == [a[0]] + a[1..];
        assert b == [b[0]] + b[1..];
      }
    }
  }

  lemma {:induction false} LessAsymmetric(a: Path, b: Path)
    requires Less(a, b)
    ensures !Less(b, a)
  {
    if Less(b, a) {
      LessTransitive(a, b, a);
      LessIrreflexive(a);
    }
  }

  /** `Less` is a strict total order, and `Empty` is its least element. */
  lemma LessIsStrictTotalOrder(a: Path, b: Path, c: Path)
    ensures !Less(a, a)
    ensures Less(a, b) && Less(b, c) ==> Less(a, c)
    ensures a == b || Less(a, b) || Less(b, a)
    ensures Less(a, b) ==> !Less(b, a)
    ensures Less(Empty, a) <==> a != Empty
    ensures !Less(a, Empty)
  {
    LessIrreflexive(a);
    if Less(a, b) && Less(b, c) {
      LessTransitive(a, b, c);
    }
    LessTotal(a, b);
    if Less(a, b) {
      LessAsymmetric(a, b);
    }
  }

  /** `a <= b`, defined as `std::filesystem::path` defines it: not `b < a`. */
  lemma NotGreaterIsLessOrEqual(a: Path, b: Path)
    ensures !Less(b, a) <==> Less(a, b) || a == b
  {
    LessIsStrictTotalOrder(a, b, a);
  }
}

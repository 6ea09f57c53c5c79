/**
 * The path strings `convertToPNG` builds (PES/File/PDF/Splitter.php): the
 * destination directory normalised to one trailing separator, and the name of
 * the PNG file for each page.
 */
module Paths {
  import opened Wrappers
  import opened Decimal

  /** PHP's DIRECTORY_SEPARATOR, taken as on POSIX systems. */
  const Separator: char := '/'

  /**
   * `rtrim(s, c)`: the longest prefix of `s` that does not end in `c`, such
   * that everything after it is `c`.
   */
  function RTrim(s: string, c: char): (r: string)
    ensures r <= s
    ensures r == [] || r[|r| - 1] != c
    ensures forall k :: |r| <= k < |s| ==> s[k] == c
  {
    if s != [] && s[|s| - 1] == c then RTrim(s[..|s| - 1], c) else s
  }

  /** `rtrim($destination, DIRECTORY_SEPARATOR) . DIRECTORY_SEPARATOR`. */
  function NormalizeDirectory(dest: string): (d: string)
    ensures |d| >= 1 && d[|d| - 1] == Separator
    ensures |d| == 1 || d[|d| - 2] != Separator
    ensures d[..|d| - 1] <= dest
    ensures forall k :: |d| - 1 <= k < |dest| ==> dest[k] == Separator
  {
    RTrim(dest, Separator) + [Separator]
  }

  /** Normalising a normalised directory changes nothing. */
  lemma NormalizeDirectoryIdempotent(dest: string)
    ensures NormalizeDirectory(NormalizeDirectory(dest)) == NormalizeDirectory(dest)
  {
    var d := NormalizeDirectory(dest);
    assert d[..|d| - 1] == RTrim(dest, Separator);
  }

  /** Extra trailing separators on the destination do not change the directory used. */
  lemma NormalizeDirectoryIgnoresTrailingSeparator(dest: string)
    ensures NormalizeDirectory(dest + [Separator]) == NormalizeDirectory(dest)
  {
    assert (dest + [Separator])[..|dest|] == dest;
  }

  /**
   * The file name for the page at 0-based `index`: `<dir><base>-<index + 1>.png`.
   * It lies in `dir` and ends in `.png`; PageNumberOfPagePath reads its page
   * number back.
   */
  function PagePath(dir: string, base: string, index: nat): (p: string)
    ensures dir <= p && |p| >= |dir| + 4 && p[|p| - 4..] == ".png"
  {
    var p := dir + base + "-" + Render(index + 1) + ".png";
    assert p[..|dir|] == dir;
    p
  }

  /** Reads back the page number from a name built by PagePath with the same directory and base. */
  function PageNumber(dir: string, base: string, p: string): Option<nat> {
    var head := dir + base + "-";
    if |p| >= |head| + 5 && p[..|head|] == head && p[|p| - 4..] == ".png"
       && AllDigits(p[|head|..|p| - 4])
    then Some(ParseDecimal(p[|head|..|p| - 4]))
    else None
  }

  /** Page numbers in file names are 1-based: page `index` is named with `index + 1`. */
  lemma PageNumberOfPagePath(dir: string, base: string, index: nat)
    ensures PageNumber(dir, base, PagePath(dir, base, index)) == Some(index + 1)
  {
    var head := dir + base + "-";
    var digits := Render(index + 1);
    var p := PagePath(dir, base, index);
    assert p == head + digits + ".png";
    assert p[..|head|] == head;
    assert p[|p| - 4..] == ".png";
    assert p[|head|..|p| - 4] == digits;
    ParseRender(index + 1);
  }

  /** Distinct pages get distinct file names. */
  lemma PagePathInjective(dir: string, base: string, i: nat, j: nat)
    requires PagePath(dir, base, i) == PagePath(dir, base, j)
    ensures i == j
  {
    PageNumberOfPagePath(dir, base, i);
    PageNumberOfPagePath(dir, base, j);
  }
}

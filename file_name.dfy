/**
 * `parseFileName` (PES/File/PDF/Splitter.php): split a file name at its last
 * `.` into a base and an extension, or answer FALSE for input PHP considers
 * empty or that is not a string.
 */
module FileName {
  import opened Wrappers

  /** The PHP value handed to parseFileName: a string, or any other type. */
  datatype Arg = Str(s: string) | NotString

  /** PHP's `empty()` on a string: true for "" and for "0". */
  predicate IsPhpEmptyString(s: string) {
    s == "" || s == "0"
  }

  datatype FileNameParts = FileNameParts(base: string, extension: string)

  /**
   * The position of the last occurrence of `c`, if any. This is `strripos(s, c)`
   * for a needle that has no upper or lower case, such as the `'.'` it is used with.
   */
  function LastIndexOf(s: string, c: char): (r: Option<nat>)
    ensures r.None? <==> c !in s
    ensures r.Some? ==> r.value < |s| && s[r.value] == c && c !in s[r.value + 1..]
  {
    if s == [] then None
    else if s[|s| - 1] == c then Some(|s| - 1)
    else
      assert s == s[..|s| - 1] + [s[|s| - 1]];
      LastIndexOf(s[..|s| - 1], c)
  }

  /**
   * FALSE (None) for non-strings and PHP-empty strings; otherwise the text
   * before and after the last dot, or the whole name and "" if there is none.
   */
  function ParseFileName(name: Arg): (r: Option<FileNameParts>)
    ensures r.None? <==> name.NotString? || IsPhpEmptyString(name.s)
    ensures r.Some? && '.' !in name.s ==> r.value == FileNameParts(name.s, "")
    ensures r.Some? && '.' in name.s ==>
              r.value.base + "." + r.value.extension == name.s && '.' !in r.value.extension
  {
    if name.NotString? || IsPhpEmptyString(name.s) then None
    else match LastIndexOf(name.s, '.')
      case None => Some(FileNameParts(name.s, ""))
      case Some(i) =>
        assert name.s == name.s[..i] + "." + name.s[i + 1..];
        Some(FileNameParts(name.s[..i], name.s[i + 1..]))
  }

  /** Last dot wins: any base joined by a dot to a dot-free extension splits back into exactly those parts. */
  lemma ParseJoined(base: string, extension: string)
    requires '.' !in extension
    ensures ParseFileName(Str(base + "." + extension)) == Some(FileNameParts(base, extension))
  {
    var s := base + "." + extension;
    assert s[|base|] == '.';
    var i := LastIndexOf(s, '.').value;
    if i < |base| {
      assert false;
    } else if i > |base| {
      assert false;
    }
    assert s[..i] == base;
    assert s[i + 1..] == extension;
  }

  /** The doc comment's example with an extension. */
  lemma Examples()
    ensures ParseFileName(Str("example.txt")) == Some(FileNameParts("example", "txt"))
  {
    ParseJoined("example", "txt");
    assert "example" + "." + "txt" == "example.txt";
  }

  /** A name that is all extension has an empty base. */
  lemma HiddenExample()
    ensures ParseFileName(Str(".hidden")) == Some(FileNameParts("", "hidden"))
  {
    ParseJoined("", "hidden");
    assert "" + "." + "hidden" == ".hidden";
  }

  /** The doc comment's example of a name without a dot. */
  lemma NoDotExample()
    ensures ParseFileName(Str("another-example")) == Some(FileNameParts("another-example", ""))
  {
    var s := "another-example";
    assert forall k :: 0 <= k < |s| ==> s[k] != '.';
  }

  /** Last dot wins; PHP-empty strings and non-strings give FALSE. */
  lemma EdgeExamples()
    ensures ParseFileName(Str("a.b.c")) == Some(FileNameParts("a.b", "c"))
    ensures ParseFileName(Str("")) == None
    ensures ParseFileName(Str("0")) == None
    ensures ParseFileName(NotString) == None
  {
    ParseJoined("a.b", "c");
    assert "a.b" + "." + "c" == "a.b.c";
  }
}

/**
 * PES_File_PDF_Splitter (PES/File/PDF/Splitter.php): holds the path of a PDF
 * and converts it, page by page, into PNG files in a destination directory,
 * never overwriting a file that is already there.
 *
 * The filesystem is a value: the regular files that exist, the directories,
 * and which paths are readable or writable. The rasterizer is reduced to
 * whether it opens the PDF and how many pages it yields; whether writing a
 * page's file succeeds is an oracle, the set of page indexes whose write fails.
 */
module PdfSplitter {
  import opened Wrappers
  import opened FileName
  import opened Paths

  type Path = string

  datatype FileSystem = FileSystem(files: set<Path>, dirs: set<Path>, writable: set<Path>, readable: set<Path>)

  /** `is_file($p) AND is_readable($p)`. */
  predicate IsReadableFile(fs: FileSystem, p: Path) {
    p in fs.files && p in fs.readable
  }

  /** `is_dir($p) AND is_writeable($p)`. */
  predicate IsWritableDirectory(fs: FileSystem, p: Path) {
    p in fs.dirs && p in fs.writable
  }

  /** What `new imagick($path)` does: open the PDF with some number of pages, or throw. */
  datatype Rasterizer = Opened(pageCount: nat) | Unreadable

  datatype Error =
    | NotReadableFile(path: Path)         // thrown by setPDFPath
    | NotWritableDirectory(path: Path)    // thrown by convertToPNG before anything else
    | RasterizerError                     // thrown by imagick while opening the PDF
    | UndefinedImage                      // `$im->setImageFormat` on an undefined `$im`

  /** The outcome of one conversion: the returned list or the exception, the filesystem afterwards, and the files it tried to write, in order. */
  datatype Conversion = Conversion(result: Result<seq<Path>, Error>, fs: FileSystem, writes: seq<Path>)

  /**
   * The parameters of one run of the page loop: the normalised directory, the
   * base name, the files that existed when it started, and the pages whose
   * write fails.
   */
  datatype Job = Job(dir: Path, base: string, files: set<Path>, failures: set<nat>) {

    function Target(index: nat): Path {
      PagePath(dir, base, index)
    }

    /** Page `index` ends up in the returned list: its file existed, or writing it succeeded. */
    predicate Keeps(index: nat) {
      Target(index) in files || index !in failures
    }

    /** Page `index` is written to a new file. */
    predicate Writes(index: nat) {
      Target(index) !in files && index !in failures
    }
  }

  /** The indexes of the first `n` pages that are kept, in page order. */
  function KeptPages(job: Job, n: nat): seq<nat> {
    if n == 0 then [] else KeptPages(job, n - 1) + (if job.Keeps(n - 1) then [n - 1] else [])
  }

  /** The files the first `n` pages try to write (those that did not exist), in page order. */
  function Attempted(job: Job, n: nat): seq<Path> {
    if n == 0 then [] else Attempted(job, n - 1) + (if job.Target(n - 1) !in job.files then [job.Target(n - 1)] else [])
  }

  /** The files the first `n` pages create. */
  function Written(job: Job, n: nat): set<Path> {
    if n == 0 then {} else Written(job, n - 1) + (if job.Writes(n - 1) then {job.Target(n - 1)} else {})
  }

  function PathsOf(job: Job, pages: seq<nat>): seq<Path> {
    seq(|pages|, k requires 0 <= k < |pages| => job.Target(pages[k]))
  }

  predicate StrictlyIncreasing(s: seq<nat>) {
    forall a, b :: 0 <= a < b < |s| ==> s[a] < s[b]
  }

  /**
   * `$pdf->getFilename()`: the path the PDF was opened with, verbatim, with no
   * reduction to its last segment; a non-string when no path was ever set.
   */
  function OpenedName(pdfPath: Option<string>): (name: Arg)
    ensures name.Str? <==> pdfPath.Some?
    ensures name.Str? ==> name.s == pdfPath.value
  {
    match pdfPath
    case Some(p) => Str(p)
    case None => NotString
  }

  /**
   * `$filename_parts['base']` for the opened name: the text before its last
   * dot, the whole name when it has none, and null, so "", when parseFileName
   * returned FALSE.
   */
  function BaseOf(name: Arg): (base: string)
    ensures name.NotString? || IsPhpEmptyString(name.s) ==> base == ""
    ensures name.Str? && !IsPhpEmptyString(name.s) ==> base <= name.s
    ensures name.Str? && !IsPhpEmptyString(name.s) && '.' !in name.s ==> base == name.s
    ensures name.Str? && !IsPhpEmptyString(name.s) && '.' in name.s ==>
              |base| < |name.s| && name.s[|base|] == '.' && '.' !in name.s[|base| + 1..]
  {
    match ParseFileName(name)
    case Some(parts) =>
      assert name.s == parts.base + "." + parts.extension || name.s == parts.base;
      parts.base
    case None => ""
  }

  function JobFor(pdfPath: Option<string>, dest: Path, fs: FileSystem, failures: set<nat>): Job {
    Job(NormalizeDirectory(dest), BaseOf(OpenedName(pdfPath)), fs.files, failures)
  }

  /** What `convertToPNG($dest)` does, with the image-format call on line 83 applied to the page being written. */
  function Convert(pdfPath: Option<string>, dest: Path, fs: FileSystem, raster: Rasterizer, failures: set<nat>): Conversion {
    if !IsWritableDirectory(fs, dest) then Conversion(Failure(NotWritableDirectory(dest)), fs, [])
    else if raster.Unreadable? then Conversion(Failure(RasterizerError), fs, [])
    else
      var job := JobFor(pdfPath, dest, fs, failures);
      var n := raster.pageCount;
      Conversion(Success(PathsOf(job, KeptPages(job, n))), fs.(files := fs.files + Written(job, n)), Attempted(job, n))
  }

  /** `convertToPNG` as written: the first page dereferences the undefined `$im` and the call dies before any write. */
  function ConvertAsWritten(pdfPath: Option<string>, dest: Path, fs: FileSystem, raster: Rasterizer, failures: set<nat>): Conversion {
    if !IsWritableDirectory(fs, dest) then Conversion(Failure(NotWritableDirectory(dest)), fs, [])
    else if raster.Unreadable? then Conversion(Failure(RasterizerError), fs, [])
    else if raster.pageCount == 0 then Conversion(Success([]), fs, [])
    else Conversion(Failure(UndefinedImage), fs, [])
  }

  // ---------------------------------------------------------------------
  // The page loop
  // ---------------------------------------------------------------------

  /** The kept pages are exactly the kept indexes below `n`, ascending. */
  lemma {:induction false} KeptPagesInOrder(job: Job, n: nat)
    ensures |KeptPages(job, n)| <= n
    ensures StrictlyIncreasing(KeptPages(job, n))
    ensures forall k :: 0 <= k < |KeptPages(job, n)| ==> KeptPages(job, n)[k] < n
    ensures forall i: nat :: i in KeptPages(job, n) <==> i < n && job.Keeps(i)
  {
    if n > 0 {
      KeptPagesInOrder(job, n - 1);
    }
  }

  /** When every page is kept, the list is every page, in order. */
  lemma {:induction false} EveryPageKept(job: Job, n: nat)
    requires forall i :: 0 <= i < n ==> job.Keeps(i)
    ensures |KeptPages(job, n)| == n
    ensures forall k :: 0 <= k < n ==> KeptPages(job, n)[k] == k
  {
    if n > 0 {
      EveryPageKept(job, n - 1);
    }
  }

  /** A page's file is created exactly when it is one of the first `n` pages, did not exist, and its write succeeds. */
  lemma {:induction false} WrittenPages(job: Job, n: nat)
    ensures forall i: nat :: job.Target(i) in Written(job, n) <==> i < n && job.Writes(i)
    ensures forall p :: p in Written(job, n) ==> p !in job.files
  {
    if n > 0 {
      WrittenPages(job, n - 1);
      forall i: nat
        ensures job.Target(i) in Written(job, n) <==> i < n && job.Writes(i)
      {
        if job.Target(i) == job.Target(n - 1) {
          PagePathInjective(job.dir, job.base, i, n - 1);
        }
      }
    }
  }

  /**
   * Exactly the pages among the first `n` whose file did not exist get a
   * write, one each, so no write is ever aimed at a file that existed.
   */
  lemma {:induction false} AttemptedAvoidsExisting(job: Job, n: nat)
    ensures |Attempted(job, n)| <= n
    ensures forall k :: 0 <= k < |Attempted(job, n)| ==> Attempted(job, n)[k] !in job.files
    ensures forall i: nat :: job.Target(i) in Attempted(job, n) <==> i < n && job.Target(i) !in job.files
    ensures forall a, b :: 0 <= a < b < |Attempted(job, n)| ==> Attempted(job, n)[a] != Attempted(job, n)[b]
    ensures forall p :: p in Written(job, n) ==> p in Attempted(job, n)
  {
    if n > 0 {
      AttemptedAvoidsExisting(job, n - 1);
      var prev := Attempted(job, n - 1);
      forall i: nat
        ensures job.Target(i) in Attempted(job, n) <==> i < n && job.Target(i) !in job.files
      {
        if job.Target(i) == job.Target(n - 1) {
          PagePathInjective(job.dir, job.base, i, n - 1);
        }
      }
      forall a, b | 0 <= a < b < |Attempted(job, n)|
        ensures Attempted(job, n)[a] != Attempted(job, n)[b]
      {
        if b == |prev| {
          assert Attempted(job, n)[b] == job.Target(n - 1);
          assert Attempted(job, n)[a] == prev[a];
        }
      }
    }
  }

  /** When every page's file exists, the loop writes nothing and creates nothing. */
  lemma {:induction false} AllPresentWritesNothing(job: Job, n: nat)
    requires forall i :: 0 <= i < n ==> job.Target(i) in job.files
    ensures Attempted(job, n) == [] && Written(job, n) == {}
  {
    if n > 0 {
      AllPresentWritesNothing(job, n - 1);
    }
  }

  // ---------------------------------------------------------------------
  // The class
  // ---------------------------------------------------------------------

  class Splitter {
    /** `$this->pdf_path`; None while unset. */
    var pdfPath: Option<string>

    /** A fresh object, before `__construct` runs. */
    constructor Init()
      ensures pdfPath == None
    {
      pdfPath := None;
    }

    /** `new PES_File_PDF_Splitter($pdf_path)`: sets the path only when the argument is not PHP-empty. */
    static method New(path: Option<string>, fs: FileSystem) returns (r: Result<Splitter, Error>)
      ensures r.Success? ==> fresh(r.value)
      ensures path.None? ==> r.Success? && r.value.pdfPath == None
      ensures path.Some? && IsPhpEmptyString(path.value) ==> r.Success? && r.value.pdfPath == None
      ensures path.Some? && !IsPhpEmptyString(path.value) ==>
                (if IsReadableFile(fs, path.value)
                 then r.Success? && r.value.pdfPath == path
                 else r == Failure(NotReadableFile(path.value)))
    {
      var splitter := new Splitter.Init();
      if path.Some? && !IsPhpEmptyString(path.value) {
        var outcome := splitter.SetPDFPath(path.value, fs);
        if outcome.Failure? {
          return Failure(outcome.error);
        }
      }
      return Success(splitter);
    }

    /** `PDFPath()`: the stored path, None while unset. */
    function PDFPath(): (p: Option<string>)
      reads this
      ensures p == pdfPath
    {
      pdfPath
    }

    /** Stores `path` and returns this object when it is a readable file; otherwise throws and keeps the old path. */
    method SetPDFPath(path: Path, fs: FileSystem) returns (r: Result<Splitter, Error>)
      modifies this
      ensures IsReadableFile(fs, path) ==> PDFPath() == Some(path) && r == Success(this)
      ensures !IsReadableFile(fs, path) ==> PDFPath() == old(PDFPath()) && r == Failure(NotReadableFile(path))
    {
      if !IsReadableFile(fs, path) {
        return Failure(NotReadableFile(path));
      }
      pdfPath := Some(path);
      return Success(this);
    }

    /** The page loop of `convertToPNG`, with the page itself as the image written. */
    method ConvertToPNG(destination: Path, fs: FileSystem, raster: Rasterizer, failures: set<nat>) returns (c: Conversion)
      ensures c == Convert(pdfPath, destination, fs, raster, failures)
    {
      if !IsWritableDirectory(fs, destination) {
        return Conversion(Failure(NotWritableDirectory(destination)), fs, []);
      }
      if raster.Unreadable? {
        return Conversion(Failure(RasterizerError), fs, []);
      }
      var dir := NormalizeDirectory(destination);
      var base := BaseOf(OpenedName(pdfPath));
      ghost var job := Job(dir, base, fs.files, failures);
      var files := fs.files;
      var generated: seq<Path> := [];
      var writes: seq<Path> := [];
      var index := 0;
      while index < raster.pageCount
        invariant index <= raster.pageCount
        invariant generated == PathsOf(job, KeptPages(job, index))
        invariant files == fs.files + Written(job, index)
        invariant writes == Attempted(job, index)
      {
        var fileName := PagePath(dir, base, index);
        WrittenPages(job, index);
        assert fileName == job.Target(index) && fileName !in Written(job, index);
        var isFile := fileName in files;
        var written := false;
        if !isFile {
          writes := writes + [fileName];
          written := index !in failures;
          if written {
            files := files + {fileName};
          }
        }
        if isFile || written {
          generated := generated + [fileName];
        }
        index := index + 1;
      }
      return Conversion(Success(generated), fs.(files := files), writes);
    }
  }
}

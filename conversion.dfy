/**
 * What `convertToPNG` promises about its result and the filesystem it leaves
 * behind, stated over the Convert function that ConvertToPNG is proved to
 * compute.
 */
module ConversionProperties {
  import opened Wrappers
  import Decimal
  import opened FileName
  import opened Paths
  import opened PdfSplitter

  /** Validation comes first: a bad destination throws before the PDF is opened or any file is touched, and no failure leaves a trace. */
  lemma FailureTouchesNothing(pdfPath: Option<string>, dest: Path, fs: FileSystem, raster: Rasterizer, failures: set<nat>)
    ensures var c := Convert(pdfPath, dest, fs, raster, failures);
            (!IsWritableDirectory(fs, dest) ==> c.result == Failure(NotWritableDirectory(dest))) &&
            (c.result.Failure? ==> c.fs == fs && c.writes == [])
  {
  }

  /**
   * With a writable destination and an opened PDF of `n` pages, the result
   * lists, in ascending page order, exactly the pages whose file existed or
   * whose write succeeded; every listed file exists afterwards, no existing
   * file is written to, and every new file is one that was written.
   */
  lemma {:induction false} ConvertOutcome(pdfPath: Option<string>, dest: Path, fs: FileSystem, n: nat, failures: set<nat>)
    requires IsWritableDirectory(fs, dest)
    ensures var c := Convert(pdfPath, dest, fs, Opened(n), failures);
            var job := JobFor(pdfPath, dest, fs, failures);
            var pages := KeptPages(job, n);
            && c.result == Success(PathsOf(job, pages))
            && StrictlyIncreasing(pages)
            && (forall i: nat :: i in pages <==> i < n && (job.Target(i) in fs.files || i !in failures))
            && |c.result.value| <= n
            && (forall p :: p in c.result.value ==> p in c.fs.files)
            && (forall p :: p in c.writes ==> p !in fs.files)
            && (forall p :: p in c.fs.files ==> p in fs.files || p in c.writes)
            && fs.files <= c.fs.files && c.fs.(files := fs.files) == fs
  {
    var c := Convert(pdfPath, dest, fs, Opened(n), failures);
    var job := JobFor(pdfPath, dest, fs, failures);
    var pages := KeptPages(job, n);
    KeptPagesInOrder(job, n);
    WrittenPages(job, n);
    AttemptedAvoidsExisting(job, n);
    forall p | p in c.result.value
      ensures p in c.fs.files
    {
      var k :| 0 <= k < |pages| && p == job.Target(pages[k]);
      assert pages[k] in pages;
    }
  }

  /** A PDF with no pages gives an empty list, writes nothing and leaves the filesystem as it was. */
  lemma EmptyPdfWritesNothing(pdfPath: Option<string>, dest: Path, fs: FileSystem, failures: set<nat>)
    requires IsWritableDirectory(fs, dest)
    ensures var c := Convert(pdfPath, dest, fs, Opened(0), failures);
            c.result == Success([]) && c.writes == [] && c.fs == fs
  {
    var job := JobFor(pdfPath, dest, fs, failures);
    assert PathsOf(job, KeptPages(job, 0)) == [];
  }

  /** With every write succeeding, the result names every page, 1 to `n`, in order. */
  lemma AllWritesSucceed(pdfPath: Option<string>, dest: Path, fs: FileSystem, n: nat)
    requires IsWritableDirectory(fs, dest)
    ensures var c := Convert(pdfPath, dest, fs, Opened(n), {});
            var base := BaseOf(OpenedName(pdfPath));
            && c.result.Success?
            && |c.result.value| == n
            && forall i :: 0 <= i < n ==> c.result.value[i] == PagePath(NormalizeDirectory(dest), base, i)
  {
    EveryPageKept(JobFor(pdfPath, dest, fs, {}), n);
  }

  /**
   * Idempotence: after a run in which every write succeeded, a second run on
   * the resulting filesystem writes nothing, whatever its writes would do,
   * and returns the same list.
   */
  lemma SecondRunWritesNothing(pdfPath: Option<string>, dest: Path, fs: FileSystem, n: nat, failures: set<nat>)
    requires IsWritableDirectory(fs, dest)
    ensures var first := Convert(pdfPath, dest, fs, Opened(n), {});
            var second := Convert(pdfPath, dest, first.fs, Opened(n), failures);
            second.result == first.result && second.writes == [] && second.fs == first.fs
  {
    var first := Convert(pdfPath, dest, fs, Opened(n), {});
    var job1 := JobFor(pdfPath, dest, fs, {});
    var job2 := JobFor(pdfPath, dest, first.fs, failures);
    WrittenPages(job1, n);
    forall i | 0 <= i < n
      ensures job2.Target(i) in job2.files
    {
      assert job1.Target(i) == job2.Target(i);
    }
    AllPresentWritesNothing(job2, n);
    EveryPageKept(job1, n);
    EveryPageKept(job2, n);
    assert KeptPages(job1, n) == KeptPages(job2, n);
    assert job1.dir == job2.dir && job1.base == job2.base;
    assert PathsOf(job1, KeptPages(job1, n)) == PathsOf(job2, KeptPages(job2, n));
    assert Written(job2, n) == {};
  }

  /** Whatever the writes do on either run, everything a first run returned is returned again by a second run. */
  lemma RerunKeepsEarlierResults(pdfPath: Option<string>, dest: Path, fs: FileSystem, n: nat, failures1: set<nat>, failures2: set<nat>)
    requires IsWritableDirectory(fs, dest)
    ensures var first := Convert(pdfPath, dest, fs, Opened(n), failures1);
            var second := Convert(pdfPath, dest, first.fs, Opened(n), failures2);
            second.result.Success? && forall p :: p in first.result.value ==> p in second.result.value
  {
    var first := Convert(pdfPath, dest, fs, Opened(n), failures1);
    var job1 := JobFor(pdfPath, dest, fs, failures1);
    var job2 := JobFor(pdfPath, dest, first.fs, failures2);
    ConvertOutcome(pdfPath, dest, fs, n, failures1);
    ConvertOutcome(pdfPath, dest, first.fs, n, failures2);
    forall p | p in first.result.value
      ensures p in Convert(pdfPath, dest, first.fs, Opened(n), failures2).result.value
    {
      var pages1 := KeptPages(job1, n);
      var k :| 0 <= k < |pages1| && p == job1.Target(pages1[k]);
      var i := pages1[k];
      assert i in pages1;
      assert job2.Target(i) == p;
      var pages2 := KeptPages(job2, n);
      assert i in pages2;
      var k2 :| 0 <= k2 < |pages2| && pages2[k2] == i;
      assert PathsOf(job2, pages2)[k2] == p;
    }
  }

  /** Splitting `report.pdf` (3 pages) into `/tmp/out`, a writable directory. */
  lemma ReportExample(pdfPath: string, dest: Path, fs: FileSystem, n: nat)
    requires pdfPath == "report.pdf" && dest == "/tmp/out" && n == 3
    requires IsWritableDirectory(fs, dest)
    ensures Convert(Some(pdfPath), dest, fs, Opened(n), {}).result
              == Success(["/tmp/out/report-1.png", "/tmp/out/report-2.png", "/tmp/out/report-3.png"])
  {
    var dir, base := NormalizeDirectory(dest), BaseOf(OpenedName(Some(pdfPath)));
    var names := ["/tmp/out/report-1.png", "/tmp/out/report-2.png", "/tmp/out/report-3.png"];
    ReportNames();
    ReportPageNames(dir, base);
    assert forall i :: 0 <= i < n ==> names[i] == PagePath(dir, base, i) by {
      assert names[0] == PagePath(dir, base, 0);
      assert names[1] == PagePath(dir, base, 1);
      assert names[2] == PagePath(dir, base, 2);
    }
    ListsEveryPage(Some(pdfPath), dest, fs, n, names);
  }

  /** When every write succeeds, the result is the list of every page's file. */
  lemma ListsEveryPage(pdfPath: Option<string>, dest: Path, fs: FileSystem, n: nat, names: seq<string>)
    requires IsWritableDirectory(fs, dest)
    requires |names| == n
    requires forall i :: 0 <= i < n ==> names[i] == PagePath(NormalizeDirectory(dest), BaseOf(OpenedName(pdfPath)), i)
    ensures Convert(pdfPath, dest, fs, Opened(n), {}).result == Success(names)
  {
    AllWritesSucceed(pdfPath, dest, fs, n);
    var r := Convert(pdfPath, dest, fs, Opened(n), {}).result;
    assert r.value == names;
  }

  lemma ReportNames()
    ensures NormalizeDirectory("/tmp/out") == "/tmp/out/"
    ensures BaseOf(OpenedName(Some("report.pdf"))) == "report"
  {
    ParseJoined("report", "pdf");
    assert "report" + "." + "pdf" == "report.pdf";
  }

  lemma ReportPageNames(dir: string, base: string)
    requires dir == "/tmp/out/" && base == "report"
    ensures PagePath(dir, base, 0) == "/tmp/out/report-1.png"
    ensures PagePath(dir, base, 1) == "/tmp/out/report-2.png"
    ensures PagePath(dir, base, 2) == "/tmp/out/report-3.png"
  {
    SingleDigitPageName(dir, base, 0, '1', "/tmp/out/report-1.png");
    SingleDigitPageName(dir, base, 1, '2', "/tmp/out/report-2.png");
    SingleDigitPageName(dir, base, 2, '3', "/tmp/out/report-3.png");
  }

  /** A page number below 10 renders as the one digit `index + 1`. */
  lemma SingleDigitPageName(dir: string, base: string, index: nat, digit: char, name: string)
    requires index < 9 && digit as int == '0' as int + index + 1
    requires name == dir + base + "-" + [digit] + ".png"
    ensures PagePath(dir, base, index) == name
  {
  }

  /**
   * The base name is cut from the whole path the PDF was opened with, not
   * from its last segment: the directories in that path reappear under the
   * destination (`in/report.pdf` gives `<dest>/in/report-1.png`).
   */
  lemma BaseKeepsDirectories(pdfDir: string, name: string, extension: string, dest: Path, fs: FileSystem)
    requires '.' !in extension
    requires IsWritableDirectory(fs, dest)
    ensures var pdfPath := pdfDir + [Separator] + name + "." + extension;
            Convert(Some(pdfPath), dest, fs, Opened(1), {}).result
              == Success([PagePath(NormalizeDirectory(dest), pdfDir + [Separator] + name, 0)])
  {
    var pdfPath := pdfDir + [Separator] + name + "." + extension;
    ParseJoined(pdfDir + [Separator] + name, extension);
    AllWritesSucceed(Some(pdfPath), dest, fs, 1);
    var v := Convert(Some(pdfPath), dest, fs, Opened(1), {}).result.value;
    assert v == [v[0]];
  }

  /**
   * For the same reason, a dot in a directory of the path cuts the base short
   * (`v1.2/report` gives `<dest>/v1-1.png`).
   */
  lemma DotInDirectoryCutsBase(head: string, tail: string, name: string, dest: Path, fs: FileSystem)
    requires '.' !in tail && '.' !in name
    requires IsWritableDirectory(fs, dest)
    ensures var pdfPath := head + "." + tail + [Separator] + name;
            Convert(Some(pdfPath), dest, fs, Opened(1), {}).result
              == Success([PagePath(NormalizeDirectory(dest), head, 0)])
  {
    var rest := tail + [Separator] + name;
    assert '.' !in rest;
    assert head + "." + tail + [Separator] + name == head + "." + rest;
    ParseJoined(head, rest);
    AllWritesSucceed(Some(head + "." + rest), dest, fs, 1);
    var v := Convert(Some(head + "." + rest), dest, fs, Opened(1), {}).result.value;
    assert v == [v[0]];
  }

  /**
   * Line 83 calls a method on `$im`, which is never assigned: as written, any
   * PDF with a page throws on the first page before writing anything, while
   * the intended conversion writes every page.
   */
  lemma AsWrittenFailsOnFirstPage(pdfPath: Option<string>, dest: Path, fs: FileSystem, n: nat)
    requires IsWritableDirectory(fs, dest) && n >= 1
    ensures var c := ConvertAsWritten(pdfPath, dest, fs, Opened(n), {});
            c.result == Failure(UndefinedImage) && c.fs == fs && c.writes == []
    ensures var c := Convert(pdfPath, dest, fs, Opened(n), {});
            c.result.Success? && |c.result.value| == n
  {
    AllWritesSucceed(pdfPath, dest, fs, n);
  }
}

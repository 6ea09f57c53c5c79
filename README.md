# PES_File_PDF_Splitter, modelled in Dafny

`PES_File_PDF_Splitter` turns each page of a PDF into a PNG file in a destination
directory. It names page `i` (counted from 0) `<dest>/<base>-<i+1>.png`, where `base`
is the PDF's name with its extension removed. It never overwrites a page file that is
already there; it lists that file as if it had just written it.

This project models the class's own logic and proves what it promises:

- `wrappers.dfy` (`Wrappers`): `Option` and `Result`. They stand for PHP's
  FALSE-or-value returns and for thrown exceptions.
- `decimal.dfy` (`Decimal`): how PHP renders the page number `$index + 1` when it is
  concatenated. `Render` gives its decimal digits and `ParseDecimal` reads them back.
- `file_name.dfy` (`FileName`): `parseFileName`. The argument is either a PHP string
  or a value of some other type. `LastIndexOf` models `strripos` for a needle that has no case, such as the `'.'` it is called with. FALSE is `None`.
- `paths.dfy` (`Paths`): `rtrim($destination, DIRECTORY_SEPARATOR) . DIRECTORY_SEPARATOR`
  and the name of each page file. `PageNumber` is the decoder that takes the page
  number back out of a file name.
- `splitter.dfy` (`PdfSplitter`): the filesystem and rasterizer model, the class
  `Splitter`, and the `Convert` function that specifies `convertToPNG`.
  - `Splitter` has the field `pdfPath`, the static method `New` for `__construct`,
    `SetPDFPath`, the getter `PDFPath`, and `ConvertToPNG` with the page loop.
  - `ConvertToPNG` is proved to compute `Convert`. `Convert` is defined through
    `KeptPages`, `Written` and `Attempted`. These are closed forms over the files
    that existed before the call, so the loop's invariants must show that a page's
    file was not created by an earlier page.
  - `Job` groups one run's normalised directory, base name, existing files and
    failing writes.
- `conversion.dfy` (`ConversionProperties`): what a conversion guarantees, stated
  over `Convert`:
  - validation happens first;
  - the result is in ascending page order;
  - no file is overwritten;
  - listed files exist afterwards;
  - a second run writes nothing and returns the same list;
  - the worked `report.pdf` example;
  - the quirks of the base name.

The filesystem is a value: the set of regular files, the directories, and the
readable and writable paths. `is_file`, `is_dir`, `is_readable` and `is_writeable`
are membership tests on it. The rasterizer (`new imagick(...)`) is reduced to its
outcome: it opens the PDF with a number of pages, or it throws. Whether
`file_put_contents` returns a truthy count for a page is an oracle: the set of page
indexes whose write fails. `DIRECTORY_SEPARATOR` is `'/'`.

The class comment (PES/File/PDF/Splitter.php:11-15) names the files after the source
PDF's name, with a bare `example.pdf` as its example. The code takes the base name
from `$pdf->getFilename()` (PES/File/PDF/Splitter.php:75), which is the whole path the
PDF was opened with, and the model follows the code. So directories in that path
reappear under the destination (`BaseKeepsDirectories`). A dot in a directory name
cuts the base short (`DotInDirectoryCutsBase`).

## Model

| member | source | states |
|---|---|---|
| `Decimal.Render` | PES/File/PDF/Splitter.php:85 | the rendered page number is a non-empty string of decimal digits with no leading zero (except for 0 itself) |
| `Decimal.ParseRender` | PES/File/PDF/Splitter.php:85 | reading the rendered digits back gives the number: rendering is a decimal encoding |
| `Decimal.RenderInjective` | PES/File/PDF/Splitter.php:85 | distinct numbers render to distinct strings |
| `FileName.LastIndexOf` | PES/File/PDF/Splitter.php:166 | `strripos` with the caseless needle `'.'` finds nothing exactly when the character is absent; otherwise it finds a position holding the character, with no occurrence after it |
| `FileName.ParseFileName` | PES/File/PDF/Splitter.php:158-183 | FALSE exactly for a non-string or a PHP-empty string ("" or "0"); without a dot, the base is the whole name and the extension is ""; with a dot, base + "." + extension is the name and the extension holds no dot |
| `FileName.ParseJoined` | PES/File/PDF/Splitter.php:166-180 | last dot wins: any base joined by "." to a dot-free extension splits back into exactly that base and extension |
| `FileName.Examples` | PES/File/PDF/Splitter.php:143-146 | "example.txt" gives ("example", "txt") |
| `FileName.HiddenExample` | PES/File/PDF/Splitter.php:166-180 | ".hidden", a dot at position 0, gives ("", "hidden") |
| `FileName.NoDotExample` | PES/File/PDF/Splitter.php:146-148 | "another-example" gives ("another-example", "") |
| `FileName.EdgeExamples` | PES/File/PDF/Splitter.php:160-180 | "a.b.c" gives ("a.b", "c"); "", "0" and a non-string give FALSE |
| `Paths.RTrim` | PES/File/PDF/Splitter.php:74 | `rtrim` returns a prefix that does not end in the character, and everything it strips is that character |
| `Paths.NormalizeDirectory` | PES/File/PDF/Splitter.php:72-74 | the normalised destination ends in exactly one separator; without it, it is a prefix of the destination, and only separators were stripped |
| `Paths.NormalizeDirectoryIdempotent` | PES/File/PDF/Splitter.php:72-74 | normalising a normalised destination returns it unchanged |
| `Paths.NormalizeDirectoryIgnoresTrailingSeparator` | PES/File/PDF/Splitter.php:72-74 | a trailing separator on the destination does not change the directory used |
| `Paths.PagePath` | PES/File/PDF/Splitter.php:85 | a page's file lies in the normalised destination and ends in `.png`; `PageNumberOfPagePath` reads its page number back |
| `Paths.PageNumberOfPagePath` | PES/File/PDF/Splitter.php:85 | the file name of 0-based page `i` decodes back to the page number `i + 1`: numbering is 1-based |
| `Paths.PagePathInjective` | PES/File/PDF/Splitter.php:85 | distinct pages get distinct file names |
| `PdfSplitter.OpenedName` | PES/File/PDF/Splitter.php:75 | `getFilename()` returns the path the PDF was opened with, unchanged, and a non-string when no path was set |
| `PdfSplitter.BaseOf` | PES/File/PDF/Splitter.php:75-85 | when `parseFileName` gives FALSE, `$filename_parts['base']` is null and concatenates as ""; otherwise the base is the name up to its last dot, or the whole name when it has no dot |
| `PdfSplitter.KeptPagesInOrder` | PES/File/PDF/Splitter.php:81-94 | the kept pages are ascending, at most one per page, and are exactly the pages whose file existed or whose write succeeded |
| `PdfSplitter.EveryPageKept` | PES/File/PDF/Splitter.php:81-94 | when every page is kept, the kept pages are 0 to n-1, in order |
| `PdfSplitter.WrittenPages` | PES/File/PDF/Splitter.php:87-93 | a page's file is created exactly when the file did not exist and its write succeeded; no created file existed before |
| `PdfSplitter.AttemptedAvoidsExisting` | PES/File/PDF/Splitter.php:51-53 | no write is aimed at a file that existed; page `i`'s file is written exactly when `i` is below the page count and its file did not exist; no file is written twice; every created file was written |
| `PdfSplitter.AllPresentWritesNothing` | PES/File/PDF/Splitter.php:87-93 | when every page's file exists, the loop writes nothing |
| `PdfSplitter.Splitter.Init` | PES/File/PDF/Splitter.php:33 | a new object has no PDF path set |
| `PdfSplitter.Splitter.New` | PES/File/PDF/Splitter.php:39-44 | the constructor leaves the path unset for FALSE, "" or "0"; otherwise it stores the path when it is a readable file, and throws when it is not |
| `PdfSplitter.Splitter.PDFPath` | PES/File/PDF/Splitter.php:111-113 | the getter returns the stored path, or nothing when none was set |
| `PdfSplitter.Splitter.SetPDFPath` | PES/File/PDF/Splitter.php:124-136 | for a readable file, stores the path and returns the same object; otherwise throws and leaves the stored path unchanged |
| `PdfSplitter.Splitter.ConvertToPNG` | PES/File/PDF/Splitter.php:62-98 | the method's result, new filesystem and write log are those of `Convert` for the stored path |
| `ConversionProperties.FailureTouchesNothing` | PES/File/PDF/Splitter.php:64-66 | a destination that is not a writable directory throws; no failed conversion changes a file or writes anything |
| `ConversionProperties.ConvertOutcome` | PES/File/PDF/Splitter.php:79-96 | the result lists pages in ascending order, exactly those whose file existed or whose write succeeded, at most one per page; every listed file exists afterwards; no existing file is written; every new file was written; files are only added, and directories and permissions are unchanged |
| `ConversionProperties.EmptyPdfWritesNothing` | PES/File/PDF/Splitter.php:79-96 | a PDF with no pages gives an empty list, writes nothing and leaves the filesystem unchanged |
| `ConversionProperties.AllWritesSucceed` | PES/File/PDF/Splitter.php:11-15 | when every write succeeds, the result is `<dest>/<base>-1.png` to `<dest>/<base>-n.png`, one per page, in order |
| `ConversionProperties.ListsEveryPage` | PES/File/PDF/Splitter.php:11-15 | when every write succeeds, the result is exactly the list of every page's file, in page order |
| `ConversionProperties.SecondRunWritesNothing` | PES/File/PDF/Splitter.php:51-53 | after a run whose writes all succeeded, a second run writes nothing, leaves the filesystem as it is and returns the same list |
| `ConversionProperties.RerunKeepsEarlierResults` | PES/File/PDF/Splitter.php:87-93 | whatever the writes do, every path a first run returned is returned again by a second run |
| `ConversionProperties.ReportExample` | PES/File/PDF/Splitter.php:11-15 | `report.pdf` with 3 pages into `/tmp/out` gives `/tmp/out/report-1.png` to `/tmp/out/report-3.png` |
| `ConversionProperties.BaseKeepsDirectories` | PES/File/PDF/Splitter.php:75 | the base name keeps the directories of the PDF's path |
| `ConversionProperties.DotInDirectoryCutsBase` | PES/File/PDF/Splitter.php:75 | a dot in a directory of the PDF's path ends the base name there |
| `ConversionProperties.AsWrittenFailsOnFirstPage` | PES/File/PDF/Splitter.php:81-85 | as written, a PDF with at least one page throws before any write; the intended conversion returns one path per page |

## Left out

- Imagick is not modelled: decoding, page iteration, `setImageFormat` and PNG bytes. A PDF is its page count. A page's contents are not modelled.
- The rasterizer can only fail when it opens the PDF. A failure in the middle of the page iteration is not modelled.
- The real filesystem is not modelled. Existence and permission checks are set membership. A failed write leaves no file behind; a partial file is not modelled. Nothing changes the filesystem between the check and the write.
- A directory at a page's path makes `is_file` false. The model treats it like a missing file, and the oracle decides whether the write succeeds.
- `DIRECTORY_SEPARATOR` is `'/'` only. The Windows separator is not modelled.
- pdf_splitter.php is not part of this model. It is command-line plumbing: argument parsing and printing the summary.
- Resolution settings are not modelled. The command line calls `setXResolution` and `setYResolution`, but the class does not define them.
- Exception messages are not modelled. Each exception is an `Error` constructor.
- PdfSplitter.Splitter.New: the argument is FALSE or a string. Other PHP values are not modelled.
- PdfSplitter.Convert: when no path was ever set, the rasterizer's outcome is left to the `Rasterizer` parameter. The base name then comes from a non-string name, which gives "".
- FileName.ParseFileName: a name that ends in a dot gets the extension "", as `substr` returns from PHP 7 on. PHP 5 returned FALSE there.

## Findings

| source | as written | input that shows it | evidently intended | confidence | as-written member | corrected member |
|---|---|---|---|---|---|---|
| PES/File/PDF/Splitter.php:83 | `$im->setImageFormat('png')` is called on `$im`, a variable that is never assigned, and line 90 writes `$im` | any PDF with at least one page and a writable destination: the first page raises an error before any file is written | set the format of `$a_page` and write `$a_page`, so each page gets its file | high (not executed) | `PdfSplitter.ConvertAsWritten` | `PdfSplitter.Convert` |

# HTML_TO_PDF_PY in Dafny

A model of the two pieces of the URL-to-PDF batch converter (`main.py`) that
are the script's own logic rather than calls into libraries:

- **Reading the URL list** (`read_urls_from_file`). Every line of the input
  file is stripped of surrounding whitespace. A line that is then empty, or
  that starts with `#`, is skipped. The surviving lines are the URLs, in file
  order. A missing file, an unreadable file, or a file with no URL left
  ends the run with exit status 1. This is `UrlList.ReadUrlsFromFile`: a loop
  proved against the reference filter `UrlList.UrlsOf`.
- **The conversion loop** (`convert_and_merge`). URLs are tried one by one
  under their 1-based position `i`. Each URL renders into a temporary file
  `temp_<i>.pdf`. A success appends that file to the PDF merger and
  increments `success_count`. A failure is reported and the loop goes on.
  After the loop, zero successes ends the run with exit status 1 before any
  write. Otherwise the merger is written to the output path. This is
  `Converter.ConvertAndMerge`, with the merger modelled as the class
  `Converter.PdfMerger` whose ordered list of appended files the loop grows.

The Python built-ins the code relies on are modelled exactly in
`PythonText`:
- `str.strip()` with no argument, over Python's whitespace code points, as
  the two scans CPython performs.
- `f"{i}"` for a non-negative integer.
- `os.path.join` for two arguments on POSIX.

The environment is given as inputs:
- The input file is `UrlList.InputFile`: missing, unreadable with a message,
  or a sequence of lines.
- What fetching, rendering and appending does for the URL at each position
  is a `Converter.Conversion`: `Converted`, or `Failed` with the exception
  message.
- Whether `merger.write` succeeds is a boolean.

Printed messages are modelled as `Converter.Event` values, without their
wording. `sys.exit(1)` is an error value: `UrlList.ReadError`, or
`Converter.NoPdfsCreated` / `Converter.MergeFailed`.

Two facts about the code the model keeps:
- A missing file (`FileNotFoundError`) and any other read error both end
  with exit status 1, and the model keeps them apart (`FileNotFound`,
  `ReadFailed`).
- The final summary line reports only the number of merged PDFs.
  `Merged` carries `success_count` and the documents.

## Model

| member | source | states |
|---|---|---|
| PythonText.StripSpec | main.py:15 | the stripped line has no whitespace at either end, is a slice of the line, and everything cut off on either side is whitespace |
| PythonText.StripUnique | main.py:15 | any slice obtained by cutting only whitespace off both ends and leaving a trimmed middle equals `Strip`, so the contract of `Strip` determines it |
| PythonText.StripIdempotent | main.py:15 | stripping an already stripped line changes nothing |
| PythonText.Decimal | main.py:40 | `f"{i}"` is a non-empty string of decimal digits without a leading zero |
| PythonText.DecimalRoundTrip | main.py:40 | reading the digits of `f"{i}"` back gives `i` |
| PythonText.DecimalInjective | main.py:40 | different positions are written with different digit strings |
| PythonText.JoinPathSpec | main.py:40 | `os.path.join(temp_dir, name)` ends with `name`, and starts with `temp_dir` when `name` is relative |
| PythonText.JoinPathInjective | main.py:40 | joining two different relative names onto the same directory gives two different paths |
| UrlList.UrlsOfWellFormed | main.py:14-17 | every URL in the filtered list is non-empty, does not start with `#`, and has no surrounding whitespace |
| UrlList.UrlsOfSnoc | main.py:14-17 | one more line adds its stripped text at the end of the list if it is non-empty and not a comment, and adds nothing otherwise |
| UrlList.UrlsOfAppend | main.py:14-17 | filtering a file equals filtering its first part followed by its rest, so URLs keep file order across any split |
| UrlList.KeptLinesIncreasing | main.py:14-17 | the kept line positions are in range and strictly increasing |
| UrlList.KeptLinesExact | main.py:14-17 | a line is kept if and only if its stripped text is non-empty and does not start with `#` |
| UrlList.UrlsOfAtKeptLines | main.py:14-17 | the k-th URL is the stripped text of the k-th kept line, and there are exactly as many URLs as kept lines |
| UrlList.UrlsOfSelectsKeptLines | main.py:14-17 | the URL list is exactly the stripped lines that pass the test, in file order, with nothing added, duplicated, reordered or dropped |
| UrlList.NoUrlsIffAllSkipped | main.py:25-27 | the filtered list is empty if and only if every line is blank or a comment once stripped |
| UrlList.StripExamples | main.py:15 | stripping removes the indentation and the newline of an indented comment line and of an indented URL line, and turns a blank line into the empty string |
| UrlList.IndentedCommentSkipped | main.py:15-16 | an indented `#` line is skipped because the test runs on the stripped line, and a URL line loses its surrounding spaces and newline |
| UrlList.ReadUrlsFromFile | main.py:9-29 | a missing file gives `FileNotFound`; any other read error gives `ReadFailed` with its message; an empty filtered list gives `NoValidUrls`, never an empty URL list; otherwise the result is exactly `UrlsOf` of the lines |
| Converter.PdfMerger.constructor | main.py:33 | a new merger holds no documents |
| Converter.PdfMerger.Append | main.py:47 | appending adds the file at the end and keeps everything appended before |
| Converter.TempPdfPathsDistinct | main.py:37-40 | the temporary paths `temp_i.pdf` of two different positions differ, so no intermediate PDF overwrites another |
| Converter.AttemptStep | main.py:37-53 | one iteration adds the "processing" line and the outcome line of the URL at position `i + 1`, and, only if it converted, appends its temporary PDF and adds one to `success_count` |
| Converter.AttemptLogShape | main.py:37-53 | the log has exactly two lines per URL: first "processing URL i of N" for the i-th URL in input order, then its success or failure line, so every URL is tried exactly once, in order, and a failure never stops later URLs |
| Converter.SuccessPositionsExact | main.py:47-48 | the successful positions are in range and strictly increasing; a position is among them if and only if its URL converted; there are exactly as many as converted outcomes |
| Converter.MergedPdfsAtSuccesses | main.py:47 | the merger holds one temporary PDF per successful URL, in the relative input order of those URLs |
| Converter.MergedCountIsSuccessCount | main.py:47-48 | `success_count` equals the number of documents appended to the merger |
| Converter.MergedPdfsDistinct | main.py:40-47 | no file is appended to the merger twice |
| Converter.ConvertAndMerge | main.py:31-64 | the log is the attempt log of every URL in order; with zero successes the run ends with `NoPdfsCreated` and nothing is written; otherwise the merger's documents are written to the output path along with `success_count` when the write succeeds, and `MergeFailed` results when it does not |

## Left out

- HTTP fetching (`requests.get`, `raise_for_status`). It is a network client; only its per-URL success or failure reaches the model, through `Conversion`.
- HTML-to-PDF rendering with WeasyPrint. It is a foreign library; it too reaches the model only through `Conversion`.
- PyPDF2's `PdfMerger` internals: page merging and serialisation in `append` and `write`. The merger is modelled as the ordered list of files appended to it. Whether `write` leaves a partial file behind when it fails is not modelled.
- `TemporaryDirectory` creation and removal, and opening the input file. These are filesystem I/O; the temporary directory is a path parameter.
- Splitting the file into lines by Python's file iterator (universal newlines). The file is given as its sequence of lines, which may still end in a newline.
- `main()` (argument parsing with argparse and the two calls in sequence) and the import-time dependency checks. These are environment plumbing.
- Converter.ConvertAndMerge: printing is assumed never to raise. In the code the "Processing" print (main.py:39) and the success print (main.py:49) sit inside the `try`; if one raises (for example `UnicodeEncodeError` on a non-UTF-8 stdout, or `BrokenPipeError` on a closed pipe), the `except` branch prints to the same stream, which usually raises again and escapes the loop, so later URLs are never tried and nothing is written. A success print that raises once after `success_count += 1` would also report a counted URL as failed, and a failing summary print after `merger.write` (main.py:61) ends with exit status 1 although the file was written. None of these paths is modelled, so AttemptLogShape's "a failure never stops later URLs" holds only for failures of fetching, rendering and appending.
- PythonText.JoinPath: models `posixpath.join` only. On Windows `os.path` is `ntpath`, which also treats `\` as a separator and handles drive letters; that behaviour is not modelled.
- The wording of the printed messages. Each print is an `Event`; the final summary and error lines are the `Outcome` and `ReadError` values.

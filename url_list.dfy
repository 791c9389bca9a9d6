/**
  Reading the URL list (`read_urls_from_file`): every line of the input file
  is stripped, blank lines and lines whose stripped text starts with `#` are
  skipped, and the rest are kept in file order. A missing or unreadable file,
  or a file with no URL left after filtering, ends the run with an error.
 */
module UrlList {
  import opened PythonText

  /** The input file as the script sees it. Splitting the file into lines is
      done by Python's file iterator; each line may still carry its newline. */
  datatype InputFile =
    | Missing                    // open() raised FileNotFoundError
    | Unreadable(reason: string) // any other exception while opening or reading
    | Lines(lines: seq<string>)

  /** The three ways the reader ends the program with exit status 1. */
  datatype ReadError = FileNotFound | ReadFailed(reason: string) | NoValidUrls

  datatype ReadResult = Urls(urls: seq<string>) | Error(error: ReadError)

  /** The test applied to a stripped line: non-empty and not a comment. */
  predicate IsUrlLine(line: string) {
    line != [] && line[0] != '#'
  }

  /** Reference definition of the URL list: the stripped lines that pass the
      test, in file order. */
  function UrlsOf(lines: seq<string>): (urls: seq<string>)
    ensures |urls| <= |lines|
  {
    if lines == [] then []
    else
      var line := Strip(lines[0]);
      (if IsUrlLine(line) then [line] else []) + UrlsOf(lines[1..])
  }

  /** Every returned URL is non-empty, does not start with `#`, and has no
      whitespace at either end. */
  lemma {:induction false} UrlsOfWellFormed(lines: seq<string>)
    ensures forall k :: 0 <= k < |UrlsOf(lines)| ==> IsUrlLine(UrlsOf(lines)[k]) && Trimmed(UrlsOf(lines)[k])
  {
    if lines != [] {
      StripSpec(lines[0]);
      UrlsOfWellFormed(lines[1..]);
    }
  }

  /** Filtering a file is filtering its two halves: the URLs of the first
      part of the file come first, nothing is lost at the seam. */
  lemma {:induction false} UrlsOfAppend(a: seq<string>, b: seq<string>)
    ensures UrlsOf(a + b) == UrlsOf(a) + UrlsOf(b)
  {
    if a != [] {
      assert (a + b)[0] == a[0] && (a + b)[1..] == a[1..] + b;
      UrlsOfAppend(a[1..], b);
    } else {
      assert a + b == b;
    }
  }

  /** One more line of the file adds its stripped text at the end of the
      URL list if it passes the test, and nothing otherwise. */
  lemma UrlsOfSnoc(front: seq<string>, line: string)
    ensures UrlsOf(front + [line]) == UrlsOf(front) + (if IsUrlLine(Strip(line)) then [Strip(line)] else [])
  {
    UrlsOfAppend(front, [line]);
    assert UrlsOf([line]) == (if IsUrlLine(Strip(line)) then [Strip(line)] else []) + UrlsOf([]);
  }

  /** The positions (0-based) of the lines that survive the filter. */
  function KeptLines(lines: seq<string>): seq<nat>
  {
    if lines == [] then []
    else
      var n := |lines| - 1;
      KeptLines(lines[..n]) + (if IsUrlLine(Strip(lines[n])) then [n] else [])
  }

  /** The kept positions are in range and strictly increasing: no line is
      taken twice or out of order. */
  lemma {:induction false} KeptLinesIncreasing(lines: seq<string>)
    ensures forall k :: 0 <= k < |KeptLines(lines)| ==> KeptLines(lines)[k] < |lines|
    ensures forall k, l :: 0 <= k < l < |KeptLines(lines)| ==> KeptLines(lines)[k] < KeptLines(lines)[l]
  {
    if lines != [] {
      KeptLinesIncreasing(lines[..|lines| - 1]);
    }
  }

  /** A line is kept if and only if its stripped text passes the test. */
  lemma {:induction false} KeptLinesExact(lines: seq<string>)
    ensures forall j :: 0 <= j < |lines| ==> (j in KeptLines(lines) <==> IsUrlLine(Strip(lines[j])))
  {
    if lines != [] {
      var n := |lines| - 1;
      var front := lines[..n];
      KeptLinesExact(front);
      KeptLinesIncreasing(front);
      forall j | 0 <= j < n
        ensures (j in KeptLines(lines) <==> IsUrlLine(Strip(lines[j])))
      {
        assert lines[j] == front[j];
      }
    }
  }

  /** The k-th URL is the stripped text of the k-th kept line. */
  lemma {:induction false} UrlsOfAtKeptLines(lines: seq<string>)
    ensures |UrlsOf(lines)| == |KeptLines(lines)|
    ensures forall k :: 0 <= k < |KeptLines(lines)| ==>
      KeptLines(lines)[k] < |lines| && UrlsOf(lines)[k] == Strip(lines[KeptLines(lines)[k]])
  {
    if lines != [] {
      var n := |lines| - 1;
      var front, line := lines[..n], lines[n];
      UrlsOfAtKeptLines(front);
      assert lines == front + [line];
      UrlsOfSnoc(front, line);
      var idx, urls := KeptLines(lines), UrlsOf(lines);
      forall k | 0 <= k < |idx|
        ensures idx[k] < |lines| && urls[k] == Strip(lines[idx[k]])
      {
        if k < |KeptLines(front)| {
          assert idx[k] == KeptLines(front)[k] && urls[k] == UrlsOf(front)[k];
          assert lines[idx[k]] == front[idx[k]];
        }
      }
    }
  }

  /** The URL list is exactly the stripped kept lines, taken at strictly
      increasing positions (nothing reordered or duplicated), and a line is
      kept if and only if its stripped text passes the test (nothing added
      or dropped). */
  lemma UrlsOfSelectsKeptLines(lines: seq<string>)
    ensures var idx := KeptLines(lines);
      && |UrlsOf(lines)| == |idx|
      && (forall k :: 0 <= k < |idx| ==> idx[k] < |lines| && UrlsOf(lines)[k] == Strip(lines[idx[k]]))
      && (forall k, l :: 0 <= k < l < |idx| ==> idx[k] < idx[l])
      && (forall j :: 0 <= j < |lines| ==> (j in idx <==> IsUrlLine(Strip(lines[j]))))
  {
    KeptLinesIncreasing(lines);
    KeptLinesExact(lines);
    UrlsOfAtKeptLines(lines);
  }

  /** The reader gives up with `NoValidUrls` exactly when every line is blank
      or a comment once stripped. */
  lemma NoUrlsIffAllSkipped(lines: seq<string>)
    ensures UrlsOf(lines) == [] <==> forall j :: 0 <= j < |lines| ==> !IsUrlLine(Strip(lines[j]))
  {
    UrlsOfSelectsKeptLines(lines);
    var idx := KeptLines(lines);
    if idx != [] {
      assert idx[0] in idx;
    }
  }

  /** Strip on the lines of the example below: the newline and the
      indentation go, the text between them stays. */
  lemma StripExamples()
    ensures Strip("   # note\n") == "# note"
    ensures Strip(" http://a \n") == "http://a"
    ensures Strip("\n") == ""
  {
    var note, url := "   # note\n", " http://a \n";
    assert note[3..9] == "# note";
    StripUnique(note, 3, 9);
    assert url[1..9] == "http://a";
    StripUnique(url, 1, 9);
    StripUnique("\n", 1, 1);
  }

  /** The comment test looks at the stripped line: an indented comment is
      skipped, and surrounding whitespace (newline included) never reaches
      the URL. */
  lemma IndentedCommentSkipped()
    ensures UrlsOf(["   # note\n", " http://a \n", "\n"]) == ["http://a"]
  {
    var note, url := "   # note\n", " http://a \n";
    StripExamples();
    UrlsOfSnoc([note, url], "\n");
    UrlsOfSnoc([note], url);
    UrlsOfSnoc([], note);
    assert [note, url] + ["\n"] == [note, url, "\n"];
    assert [note] + [url] == [note, url];
    assert [] + [note] == [note];
  }

  /** `read_urls_from_file`: the loop over the file's lines, then the check
      for an empty result. */
  method ReadUrlsFromFile(file: InputFile) returns (r: ReadResult)
    ensures file.Missing? ==> r == Error(FileNotFound)
    ensures file.Unreadable? ==> r == Error(ReadFailed(file.reason))
    ensures file.Lines? && UrlsOf(file.lines) == [] ==> r == Error(NoValidUrls)
    ensures file.Lines? && UrlsOf(file.lines) != [] ==> r == Urls(UrlsOf(file.lines))
  {
    match file
    case Missing =>
      return Error(FileNotFound);
    case Unreadable(reason) =>
      return Error(ReadFailed(reason));
    case Lines(lines) =>
      var urls: seq<string> := [];
      for i := 0 to |lines|
        invariant urls == UrlsOf(lines[..i])
      {
        var line := Strip(lines[i]);
        if IsUrlLine(line) {
          urls := urls + [line];
        }
        assert lines[..i + 1] == lines[..i] + [lines[i]];
        UrlsOfSnoc(lines[..i], lines[i]);
      }
      assert lines[..|lines|] == lines;
      if urls == [] {
        return Error(NoValidUrls);
      }
      return Urls(urls);
  }
}

/**
  The conversion loop (`convert_and_merge`): every URL is tried once, in
  order, under its 1-based position; a URL that is fetched and rendered has
  its temporary PDF `temp_<i>.pdf` appended to the merger and is counted, a
  URL that fails is reported and skipped. Afterwards the merged document is
  written only if at least one URL succeeded.

  Fetching, rendering and the merger's serialisation are not modelled: what
  they do for each URL is given as a `Conversion`, and whether the final
  write succeeds as a boolean.
 */
module Converter {
  import opened PythonText

  /** What happened inside the loop's `try` block for one URL: the page was
      fetched, rendered to its temporary PDF and appended to the merger, or
      one of those steps raised an exception with the given message. */
  datatype Conversion = Converted | Failed(reason: string)

  /** The lines the loop prints, without their wording. */
  datatype Event =
    | Processing(index: nat, total: nat, url: string)
    | Succeeded(url: string)
    | ConversionFailed(url: string, reason: string)

  /** How `convert_and_merge` ends: the merged document written to `output`,
      or exit status 1 because nothing converted or because writing failed. */
  datatype Outcome =
    | Merged(output: string, documents: seq<string>, successCount: nat)
    | NoPdfsCreated
    | MergeFailed

  /** The merger as the loop uses it: the ordered list of PDF files appended
      so far. Page merging and serialisation are outside the model. */
  class PdfMerger {
    var documents: seq<string>

    constructor ()
      ensures documents == []
    {
      documents := [];
    }

    method Append(path: string)
      modifies this
      ensures documents == old(documents) + [path]
    {
      documents := documents + [path];
    }
  }

  /** The file name of the `i`-th URL's intermediate PDF: `f"temp_{i}.pdf"`. */
  function TempPdfName(i: nat): (name: string)
    ensures name != [] && name[0] == 't'
  {
    "temp_" + Decimal(i) + ".pdf"
  }

  function TempPdfPath(tempDir: string, i: nat): string {
    JoinPath(tempDir, TempPdfName(i))
  }

  /** Two positions never share a temporary file, so no intermediate PDF
      overwrites another. */
  lemma TempPdfPathsDistinct(tempDir: string, i: nat, j: nat)
    requires i != j
    ensures TempPdfPath(tempDir, i) != TempPdfPath(tempDir, j)
  {
    if TempPdfPath(tempDir, i) == TempPdfPath(tempDir, j) {
      var a, b := TempPdfName(i), TempPdfName(j);
      JoinPathInjective(tempDir, a, b);
      assert |Decimal(i)| == |Decimal(j)|;
      assert Decimal(i) == a[5..|a| - 4] == b[5..|b| - 4] == Decimal(j);
      DecimalInjective(i, j);
    }
  }

  /** How many URLs converted: an independent count of the outcomes. */
  function ConvertedCount(conversions: seq<Conversion>): nat {
    multiset(conversions)[Converted]
  }

  /** The 1-based positions of the URLs that converted, in input order. */
  function SuccessPositions(conversions: seq<Conversion>): seq<nat> {
    if conversions == [] then []
    else
      var n := |conversions| - 1;
      SuccessPositions(conversions[..n]) + (if conversions[n].Converted? then [n + 1] else [])
  }

  /** The documents the merger holds after the given outcomes. */
  function MergedPdfs(tempDir: string, conversions: seq<Conversion>): seq<string> {
    if conversions == [] then []
    else
      var n := |conversions| - 1;
      MergedPdfs(tempDir, conversions[..n])
        + (if conversions[n].Converted? then [TempPdfPath(tempDir, n + 1)] else [])
  }

  /** The line printed after trying `url`. */
  function Report(url: string, conversion: Conversion): Event {
    match conversion
    case Converted => Succeeded(url)
    case Failed(reason) => ConversionFailed(url, reason)
  }

  /** The lines printed while trying the given URLs out of `total`. */
  function AttemptLog(urls: seq<string>, conversions: seq<Conversion>, total: nat): seq<Event>
    requires |urls| == |conversions|
  {
    if urls == [] then []
    else
      var n := |urls| - 1;
      AttemptLog(urls[..n], conversions[..n], total)
        + [Processing(n + 1, total, urls[n]), Report(urls[n], conversions[n])]
  }

  /** Every URL is tried exactly once and in input order: the log is one
      "processing" line and one outcome line per URL, and a failure at one
      position does not stop the positions after it. */
  lemma {:induction false} AttemptLogShape(urls: seq<string>, conversions: seq<Conversion>, total: nat)
    requires |urls| == |conversions|
    ensures |AttemptLog(urls, conversions, total)| == 2 * |urls|
    ensures forall k :: 0 <= k < |urls| ==>
      AttemptLog(urls, conversions, total)[2 * k] == Processing(k + 1, total, urls[k])
      && AttemptLog(urls, conversions, total)[2 * k + 1] == Report(urls[k], conversions[k])
  {
    if urls != [] {
      var n := |urls| - 1;
      AttemptLogShape(urls[..n], conversions[..n], total);
      forall k | 0 <= k < n
        ensures urls[..n][k] == urls[k] && conversions[..n][k] == conversions[k]
      {
      }
    }
  }

  /** The success positions are in range, strictly increasing, exactly the
      positions whose URL converted, and as many as `success_count`. */
  lemma {:induction false} SuccessPositionsExact(conversions: seq<Conversion>)
    ensures |SuccessPositions(conversions)| == ConvertedCount(conversions)
    ensures forall k :: 0 <= k < |SuccessPositions(conversions)| ==>
      1 <= SuccessPositions(conversions)[k] <= |conversions|
    ensures forall k, l :: 0 <= k < l < |SuccessPositions(conversions)| ==>
      SuccessPositions(conversions)[k] < SuccessPositions(conversions)[l]
    ensures forall i :: 1 <= i <= |conversions| ==>
      (i in SuccessPositions(conversions) <==> conversions[i - 1].Converted?)
  {
    if conversions != [] {
      var n := |conversions| - 1;
      var front := conversions[..n];
      SuccessPositionsExact(front);
      assert conversions == front + [conversions[n]];
      assert multiset(conversions) == multiset(front) + multiset{conversions[n]};
      assert forall i :: 0 <= i < n ==> conversions[i] == front[i];
    }
  }

  /** The merger holds the temporary PDFs of the successful positions, one
      each, in the order those URLs appear in the input. */
  lemma {:induction false} MergedPdfsAtSuccesses(tempDir: string, conversions: seq<Conversion>)
    ensures |MergedPdfs(tempDir, conversions)| == |SuccessPositions(conversions)|
    ensures forall k :: 0 <= k < |SuccessPositions(conversions)| ==>
      MergedPdfs(tempDir, conversions)[k] == TempPdfPath(tempDir, SuccessPositions(conversions)[k])
  {
    if conversions != [] {
      MergedPdfsAtSuccesses(tempDir, conversions[..|conversions| - 1]);
    }
  }

  /** `success_count` equals the number of documents appended to the merger. */
  lemma MergedCountIsSuccessCount(tempDir: string, conversions: seq<Conversion>)
    ensures |MergedPdfs(tempDir, conversions)| == ConvertedCount(conversions)
  {
    MergedPdfsAtSuccesses(tempDir, conversions);
    SuccessPositionsExact(conversions);
  }

  /** No PDF is appended twice: the merged documents are pairwise distinct. */
  lemma MergedPdfsDistinct(tempDir: string, conversions: seq<Conversion>)
    ensures forall k, l :: 0 <= k < l < |MergedPdfs(tempDir, conversions)| ==>
      MergedPdfs(tempDir, conversions)[k] != MergedPdfs(tempDir, conversions)[l]
  {
    MergedPdfsAtSuccesses(tempDir, conversions);
    SuccessPositionsExact(conversions);
    var positions := SuccessPositions(conversions);
    forall k, l | 0 <= k < l < |MergedPdfs(tempDir, conversions)|
      ensures MergedPdfs(tempDir, conversions)[k] != MergedPdfs(tempDir, conversions)[l]
    {
      TempPdfPathsDistinct(tempDir, positions[k], positions[l]);
    }
  }

  /** One more iteration of the loop: the URL at position `i + 1` adds its
      two log lines, and, if it converted, its temporary PDF and one to the
      count. */
  lemma AttemptStep(urls: seq<string>, conversions: seq<Conversion>, tempDir: string, total: nat, i: nat)
    requires |urls| == |conversions| && i < |urls|
    ensures AttemptLog(urls[..i + 1], conversions[..i + 1], total)
      == AttemptLog(urls[..i], conversions[..i], total) + [Processing(i + 1, total, urls[i]), Report(urls[i], conversions[i])]
    ensures MergedPdfs(tempDir, conversions[..i + 1])
      == MergedPdfs(tempDir, conversions[..i]) + (if conversions[i].Converted? then [TempPdfPath(tempDir, i + 1)] else [])
    ensures ConvertedCount(conversions[..i + 1]) == ConvertedCount(conversions[..i]) + (if conversions[i].Converted? then 1 else 0)
  {
    assert urls[..i + 1][..i] == urls[..i] && conversions[..i + 1][..i] == conversions[..i];
    assert conversions[..i + 1] == conversions[..i] + [conversions[i]];
  }

  /** `convert_and_merge`: the loop over the URLs, the zero-success check and
      the final write. `conversions[i]` is what fetching and rendering the
      URL at position `i + 1` does; `writeSucceeds` is whether
      `merger.write(output_path)` completes. */
  method ConvertAndMerge(urls: seq<string>, outputPath: string, tempDir: string,
                         conversions: seq<Conversion>, writeSucceeds: bool)
    returns (outcome: Outcome, log: seq<Event>)
    requires |conversions| == |urls|
    ensures log == AttemptLog(urls, conversions, |urls|)
    ensures ConvertedCount(conversions) == 0 ==> outcome == NoPdfsCreated
    ensures ConvertedCount(conversions) > 0 && writeSucceeds ==>
      outcome == Merged(outputPath, MergedPdfs(tempDir, conversions), ConvertedCount(conversions))
    ensures ConvertedCount(conversions) > 0 && !writeSucceeds ==> outcome == MergeFailed
  {
    var merger := new PdfMerger();
    var successCount := 0;
    log := [];
    for i := 0 to |urls|
      invariant log == AttemptLog(urls[..i], conversions[..i], |urls|)
      invariant merger.documents == MergedPdfs(tempDir, conversions[..i])
      invariant successCount == ConvertedCount(conversions[..i])
    {
      var position, url := i + 1, urls[i];
      log := log + [Processing(position, |urls|, url)];
      var tempPdf := TempPdfPath(tempDir, position);
      match conversions[i] {
        case Converted =>
          merger.Append(tempPdf);
          successCount := successCount + 1;
          log := log + [Succeeded(url)];
        case Failed(reason) =>
          log := log + [ConversionFailed(url, reason)];
      }
      AttemptStep(urls, conversions, tempDir, |urls|, i);
    }
    assert urls[..|urls|] == urls && conversions[..|urls|] == conversions;
    if successCount == 0 {
      return NoPdfsCreated, log;
    }
    if writeSucceeds {
      outcome := Merged(outputPath, merger.documents, successCount);
    } else {
      outcome := MergeFailed;
    }
  }
}

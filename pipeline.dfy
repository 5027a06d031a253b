/**
 * One document, from its OCR'd pages to its output table: the body of the job loop's `try`
 * (pdf_converter/views.py, lines 140-169) and `process_single_file`.
 *
 * Rasterization and recognition are inputs: a document is a sequence of pages, and for each
 * page `reader.readtext` either yields strings or raises.  The worker pool is an in-order map.
 */
module Pipeline {
  import opened Wrappers
  import TokenExtractor
  import Pairing
  import CsvPath

  /** What `reader.readtext` does with one page image: its strings, or an exception. */
  datatype PageText = Recognized(texts: seq<string>) | RecognitionError

  /**
   * An output table: header `X;Y`, `;` between fields, one row per (X, Y) pair in order, and
   * `decimal` as the decimal separator (',' in the job loop, '.' in `process_single_file`).
   */
  datatype Table = Table(rows: seq<(real, real)>, decimal: char)

  predicate AllRecognized(pages: seq<PageText>) {
    forall k :: 0 <= k < |pages| ==> pages[k].Recognized?
  }

  /** `pool.map(process_image, images)` when no page raises: the numbers of each page, in page order. */
  function PageResults(pages: seq<PageText>): seq<seq<real>>
    requires AllRecognized(pages)
  {
    seq(|pages|, k requires 0 <= k < |pages| => TokenExtractor.ExtractNumbers(pages[k].texts))
  }

  lemma PageResultsExtend(pages: seq<PageText>, i: nat)
    requires i < |pages| && AllRecognized(pages[..i]) && pages[i].Recognized?
    ensures AllRecognized(pages[..i + 1])
    ensures PageResults(pages[..i + 1]) == PageResults(pages[..i]) + [TokenExtractor.ExtractNumbers(pages[i].texts)]
  {
    assert pages[..i + 1] == pages[..i] + [pages[i]];
  }

  /** The table the job loop writes for a document with these pages; None when a page raises. */
  function JobTable(pages: seq<PageText>): Option<Table> {
    if AllRecognized(pages) then
      Some(Table(Pairing.PairsOf(Pairing.Flatten(PageResults(pages))), ','))
    else None
  }

  /** All the strings of the pages, in page order. */
  function AllTexts(pages: seq<PageText>): seq<string>
    requires AllRecognized(pages)
  {
    if pages == [] then [] else pages[0].texts + AllTexts(pages[1..])
  }

  /**
   * Page-level parallelism does not change the order: the flattened per-page numbers are what
   * a single sequential pass over all strings, page after page, extracts.
   */
  lemma {:induction false} FlattenedResultsAreSequential(pages: seq<PageText>)
    requires AllRecognized(pages)
    ensures Pairing.Flatten(PageResults(pages)) == TokenExtractor.ExtractNumbers(AllTexts(pages))
    decreases |pages|
  {
    if pages != [] {
      var rest := pages[1..];
      assert PageResults(pages)[1..] == PageResults(rest);
      FlattenedResultsAreSequential(rest);
      TokenExtractor.ExtractNumbersAppend(pages[0].texts, AllTexts(rest));
    }
  }

  /**
   * A table the job loop writes pairs the numbers 2k and 2k + 1 of the document and drops
   * nothing but an unpaired last number.
   */
  lemma {:induction false} JobTableRows(pages: seq<PageText>)
    requires AllRecognized(pages)
    ensures var numbers := Pairing.Flatten(PageResults(pages));
            var rows := JobTable(pages).value.rows;
            && |rows| == |numbers| / 2
            && (forall k :: 0 <= k < |rows| ==> rows[k] == (numbers[2 * k], numbers[2 * k + 1]))
  {
    Pairing.PairsOfIndices(Pairing.Flatten(PageResults(pages)));
  }

  /** Every value in a table the job loop writes is above 100000. */
  lemma {:induction false} JobTableAboveThreshold(pages: seq<PageText>)
    requires AllRecognized(pages)
    ensures var rows := JobTable(pages).value.rows;
            forall k :: 0 <= k < |rows| ==> rows[k].0 > 100000.0 && rows[k].1 > 100000.0
  {
    JobTableRows(pages);
    FlattenedResultsAreSequential(pages);
    TokenExtractor.ExtractedAboveThreshold(AllTexts(pages));
  }

  /**
   * The job loop's steps for one rasterized document: every page through `process_image`, in
   * page order; the results flattened; an odd count trimmed; the list split into X and Y; one
   * row per pair.  None when a page raises.
   */
  method ExtractTable(pages: seq<PageText>) returns (table: Option<Table>)
    ensures table == JobTable(pages)
  {
    var results: seq<seq<real>> := [];
    var i := 0;
    while i < |pages|
      invariant 0 <= i <= |pages|
      invariant AllRecognized(pages[..i])
      invariant results == PageResults(pages[..i])
    {
      match pages[i]
      case RecognitionError =>
        assert !AllRecognized(pages);
        return None;
      case Recognized(texts) =>
        var pageNumbers := TokenExtractor.ProcessImage(texts);
        results := results + [pageNumbers];
      PageResultsExtend(pages, i);
      i := i + 1;
    }
    assert pages[..i] == pages;
    var numbers := Pairing.Flatten(results);
    if |numbers| % 2 != 0 {
      numbers := numbers[..|numbers| - 1];
    }
    var x := Pairing.Evens(numbers);
    var y := Pairing.Odds(numbers);
    // The DataFrame constructor raises on columns of different lengths; after the trim it cannot.
    assert |x| == |y|;
    table := Some(Table(Pairing.Zip(x, y), ','));
  }

  /**
   * The loop of `process_single_file` over the strings of one page: each string's matches go
   * through the filter without `try`, which never raises on them, and extend the numbers.
   */
  method StrictPageNumbers(results: seq<string>) returns (numbers: seq<real>)
    ensures numbers == TokenExtractor.ExtractNumbers(results)
  {
    numbers := [];
    var j := 0;
    while j < |results|
      invariant 0 <= j <= |results|
      invariant numbers == TokenExtractor.ExtractNumbers(results[..j])
    {
      var extracted := TokenExtractor.FindAll(results[j]);
      TokenExtractor.FindAllReturnsMatches(results[j]);
      TokenExtractor.MatchesNeverRaise(extracted);
      var validNumbers := TokenExtractor.StrictLarge(extracted).value;
      numbers := numbers + validNumbers;
      assert results[..j + 1][..j] == results[..j];
      j := j + 1;
    }
    assert results[..j] == results;
  }

  /**
   * The loop of `process_single_file` over the pages: the numbers of every page, appended in
   * page order; None when a page raises.
   */
  method SingleFileNumbers(pages: seq<PageText>) returns (r: Option<seq<real>>)
    ensures r.Some? <==> AllRecognized(pages)
    ensures r.Some? ==> r.value == Pairing.Flatten(PageResults(pages))
  {
    var numbers: seq<real> := [];
    var i := 0;
    while i < |pages|
      invariant 0 <= i <= |pages|
      invariant AllRecognized(pages[..i])
      invariant numbers == Pairing.Flatten(PageResults(pages[..i]))
    {
      if pages[i].RecognitionError? {
        assert !AllRecognized(pages);
        return None;
      }
      var results := pages[i].texts;
      var pageNumbers := StrictPageNumbers(results);
      numbers := numbers + pageNumbers;
      PageResultsExtend(pages, i);
      Pairing.FlattenAppendOne(PageResults(pages[..i]), pageNumbers);
      i := i + 1;
    }
    assert pages[..i] == pages;
    r := Some(numbers);
  }

  /**
   * `process_single_file(file_path)`: rasterize (None: raises), build the reader, collect the
   * large matches of every string of every page without a `try`, pair them with `zip` and
   * write the table with '.' as decimal separator.  It returns the table's path and content,
   * or None when something raises.
   */
  method ProcessSingleFile(filePath: string, images: Option<seq<PageText>>, readerBuilds: bool, writeSucceeds: bool)
    returns (r: Option<(string, Table)>)
    ensures r.Some? <==> images.Some? && readerBuilds && AllRecognized(images.value) && writeSucceeds
    ensures r.Some? ==> r.value.0 == CsvPath.CsvPathOf(filePath)
    ensures r.Some? ==> r.value.1 == Table(JobTable(images.value).value.rows, '.')
  {
    if images.None? || !readerBuilds {
      return None;
    }
    var found := SingleFileNumbers(images.value);
    if found.None? {
      return None;
    }
    var numbers := found.value;
    var x := Pairing.Evens(numbers);
    var y := Pairing.Odds(numbers);
    var rows := Pairing.Zip(x, y);
    Pairing.ZipWithoutTrimAgrees(numbers);
    if !writeSucceeds {
      return None;
    }
    r := Some((CsvPath.CsvPathOf(filePath), Table(rows, '.')));
  }
}

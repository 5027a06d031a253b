# Hi-Convert coordinate extraction, modelled in Dafny

Hi-Convert is a Django application. It walks a folder tree and finds every survey plan named
`plan.pdf`, in any letter case. Each plan is rasterized and its pages are read with OCR. Every
number of at least five digits, with an optional decimal part, whose value is above 100000 is
taken as a coordinate. Consecutive numbers are paired into (X, Y) rows, and the rows are written
to a `;`-separated CSV file next to the PDF. A `ProcessingJob` row follows the run: its status,
the number of files found, the number processed and the total time. There is one
`ProcessedFile` row per attempted file.

The model covers the extraction pipeline in `pdf_converter/views.py`, with the field names and
defaults of `pdf_converter/models.py`:

- `wrappers.dfy` (`Wrappers`): `Option`.
- `token_extractor.dfy` (`TokenExtractor`): the pattern `\b\d{5,}(?:\.\d+)?\b` as predicates
  over strings. It also has the leftmost-longest match at one position, `re.findall` as a
  left-to-right scan of non-overlapping matches, and `float()` on decimal literals as exact
  rationals. On top of these sit the value filter and `process_image`.
- `pairing.dfy` (`Pairing`): flattening the per-page lists, trimming an odd count, the
  `[::2]` / `[1::2]` split and `zip`.
- `discovery.dfy` (`Discovery`): the walk over `os.walk` listings, ASCII `str.lower`, and
  POSIX `os.path.join`.
- `csv_path.dfy` (`CsvPath`): POSIX `os.path.splitext` and the output path
  `splitext(path)[0] + ".csv"`.
- `pipeline.dfy` (`Pipeline`): one document, from its recognized pages to its output table.
  This covers both the job loop's `try` body and `process_single_file`.
- `jobs.dfy` (`Jobs`): `process_files_thread`. The job is a class whose fields the runner
  updates. Its `ProcessedFile` rows are an append-only sequence, and the disk is a map from
  output path to table.

Some inputs come from outside the program and are parameters of the model:

- what `os.walk` lists;
- whether the OCR reader can be built;
- for each PDF, whether rasterization succeeds and which strings OCR returns for each page
  (or whether it raises);
- whether writing the CSV succeeds;
- the elapsed times.

Three points of the code shape the model:

- A page whose `readtext` raises makes `pool.map` raise (pdf_converter/views.py:147-149), so
  the whole document fails and gets a failed record.
- `processed_count` counts only the completed files (pdf_converter/views.py:178-180), not
  every attempted file.
- The job loop writes tables with `,` as decimal separator. `process_single_file` uses the
  default `.`. `Pipeline.Table` keeps that separator.

The CSV path depends only on the PDF's own path, and `plan.pdf` is matched in any letter case.
On a case-sensitive file system, `plan.pdf` and `plan.PDF` in one directory are therefore both
discovered and both map to `plan.csv`. The job loop writes the second table over the first
(pdf_converter/views.py:163-169), so the first file's completed record points at the other
file's table. `Jobs.CaseVariantsShareCsvPath` exhibits the pair, and `Jobs.WrittenHoldsLastTable`
states which table ends up at each path.

## Model

| member | source | states |
|---|---|---|
| TokenExtractor.DigitRun | pdf_converter/views.py:82 | the greedy `\d+` run from a position: all digits, followed by a non-digit or the end |
| TokenExtractor.IsWordBoundary | pdf_converter/views.py:82 | the `\b` anchor: exactly one of the characters on either side of the position is a word character, the string's ends counting as non-word |
| TokenExtractor.IsNumberToken | pdf_converter/views.py:82 | the language of `\d{5,}(?:\.\d+)?`: at least five digits, then optionally a '.' followed by one or more digits and nothing else |
| TokenExtractor.MatchesAt | pdf_converter/views.py:82 | the whole pattern `\b\d{5,}(?:\.\d+)?\b` matches the slice from i to j: a number token between two word boundaries |
| TokenExtractor.MatchEnd | pdf_converter/views.py:82 | a match found at a position spans at least five characters and stays inside the string |
| TokenExtractor.MatchShape | pdf_converter/views.py:82 | any match starts with a run of at least five digits. It ends at the end of that run, or after a '.' and the digit run that follows it |
| TokenExtractor.MatchEndSound | pdf_converter/views.py:82 | the end the matcher picks is a match of the pattern, word boundaries included |
| TokenExtractor.MatchEndIsLongestMatch | pdf_converter/views.py:82 | the regex engine's end is the longest match at that position. Whenever any match exists there, the engine finds one |
| TokenExtractor.Scan | pdf_converter/views.py:82 | `findall` spans: each one is the engine's match at its start, and they do not overlap and come in order |
| TokenExtractor.ScanMissesNoMatch | pdf_converter/views.py:82 | every position where a match could start lies inside some reported span, so the scan skips no match |
| TokenExtractor.FindAll | pdf_converter/views.py:82 | `re.findall`: the matched substrings of the scan, left to right |
| TokenExtractor.FindAllReturnsMatches | pdf_converter/views.py:82 | `findall` returns exactly the text of each span, and every returned string is a number token |
| TokenExtractor.ParseFloat | pdf_converter/views.py:85 | `float()` on a decimal literal: digits, optionally a '.' and more digits, at least one digit in all, as an exact value; None for any other string |
| TokenExtractor.Replace | pdf_converter/views.py:85 | `str.replace(',', '.')` keeps the length and changes exactly the commas |
| TokenExtractor.TokenHasNoComma | pdf_converter/views.py:85 | a match never holds a comma, so the replacement leaves it unchanged |
| TokenExtractor.TokenParses | pdf_converter/views.py:85 | `float()` of a match is its integer digits plus its fraction digits over 10^(number of fraction digits) |
| TokenExtractor.TokenAboveThreshold | pdf_converter/views.py:86 | a match is above 100000 iff its integer part is above 100000, or equals 100000 with a non-zero fraction |
| TokenExtractor.KeepLarge | pdf_converter/views.py:83-89 | the inner loop over one string's matches: parse after the comma replacement, skip a failed parse, keep values above 100000, in order |
| TokenExtractor.ExtractNumbers | pdf_converter/views.py:79-90 | what `process_image` returns: the kept numbers of every OCR string, string after string |
| TokenExtractor.StrictLarge | pdf_converter/views.py:251-252 | the list comprehension of `process_single_file` without `try`: None as soon as a parse fails |
| TokenExtractor.KeepLargeAboveThreshold | pdf_converter/views.py:83-89 | the filter keeps at most one number per match and only numbers above 100000 |
| TokenExtractor.KeepLargeKeepsEveryLarge | pdf_converter/views.py:83-89 | every match whose value is above 100000 has its value kept |
| TokenExtractor.KeptValueComesFromMatch | pdf_converter/views.py:83-89 | every kept number is the parsed value of one of the matches |
| TokenExtractor.ExtractedAboveThreshold | pdf_converter/views.py:68-90 | `process_image` never returns a number at or below 100000 |
| TokenExtractor.ExtractNumbersAppend | pdf_converter/views.py:79-90 | encounter order: the numbers of two consecutive groups of strings are the first group's, then the second's |
| TokenExtractor.ExtractedValuesComeFromMatches | pdf_converter/views.py:79-90 | every extracted number is the value of a `findall` match in one of the OCR strings |
| TokenExtractor.LargeMatchesAreExtracted | pdf_converter/views.py:79-90 | every `findall` match of an OCR string whose value is above 100000 has its value in the result |
| TokenExtractor.MatchesNeverRaise | pdf_converter/views.py:84-89 | on matches, `float()` never raises, so the `except ValueError` branch is dead. The filter without `try` gives the same list |
| TokenExtractor.ProcessImage | pdf_converter/views.py:68-90 | the nested loops of `process_image` return the filtered numbers of every string, in order |
| Pairing.FlattenAppend | pdf_converter/views.py:152 | flattening keeps page order: flattening a concatenation concatenates the flattenings |
| Pairing.TrimEvenKeepsPrefix | pdf_converter/views.py:155-156 | the trimmed list has even length and is the list minus only its last element when the count was odd |
| Pairing.SplitHalves | pdf_converter/views.py:159-160 | after the trim, X and Y have the same length, half of the list's |
| Pairing.InterleaveSplit | pdf_converter/views.py:159-160 | interleaving X and Y rebuilds the even-length list |
| Pairing.PairsOfIndices | pdf_converter/views.py:155-169 | there are len/2 rows, and row k is (numbers[2k], numbers[2k+1]) |
| Pairing.ZipWithoutTrimAgrees | pdf_converter/views.py:256-261 | `zip` over the untrimmed split gives the same pairs as trimming first |
| Pairing.Flatten | pdf_converter/views.py:152 | the per-page lists concatenated in page order |
| Pairing.TrimEven | pdf_converter/views.py:155-156 | the list without its last element when its length is odd |
| Pairing.Evens | pdf_converter/views.py:159 | `s[::2]`: the elements at even indices |
| Pairing.Odds | pdf_converter/views.py:160 | `s[1::2]`: the elements at odd indices |
| Pairing.Zip | pdf_converter/views.py:261 | `zip`: pairs up to the length of the shorter list |
| Pairing.PairsOf | pdf_converter/views.py:155-169 | the rows of the job loop: trim, split into X and Y, pair |
| Discovery.DiscoverPlans | pdf_converter/views.py:101-107 | the walk loop yields the plan paths in walk order, and `total_files` is their number |
| Discovery.IsPlanName | pdf_converter/views.py:104 | the test `file_name.lower() == "plan.pdf"`: the name lower-cases to `plan.pdf` |
| Discovery.PlansInExactly | pdf_converter/views.py:103-105 | a directory contributes p iff p joins it with one of its file names that lower-cases to `plan.pdf` |
| Discovery.PlanPathsExactly | pdf_converter/views.py:101-107 | p is discovered iff some walk step lists a file name that lower-cases to `plan.pdf` and p joins it to that step's directory |
| Discovery.PlanPathsAppend | pdf_converter/views.py:101-107 | walk order: discovery over two parts of the walk is the first part's paths, then the second's |
| Discovery.JoinedPlanShape | pdf_converter/views.py:104-105 | joining a plan name gives a path that ends with that name, either alone or after a '/' |
| Discovery.PlanPathShape | pdf_converter/views.py:101-107 | every discovered path's last component lower-cases to `plan.pdf` |
| Discovery.Lower | pdf_converter/views.py:104 | ASCII `str.lower`, character by character |
| Discovery.Join | pdf_converter/views.py:105 | POSIX `os.path.join` of a directory and a name: an absolute name replaces the directory; otherwise one '/' between them unless the directory is empty or already ends in '/' |
| Discovery.PlansIn | pdf_converter/views.py:103-107 | the joined paths of one directory's files that lower-case to `plan.pdf`, in listing order |
| Discovery.PlanPaths | pdf_converter/views.py:101-107 | `pdf_files` after the walk: every directory's plan paths, in walk order |
| CsvPath.RFind | pdf_converter/views.py:163 | the last index of a character, or -1 when it does not occur |
| CsvPath.SplitExtParts | pdf_converter/views.py:163 | root and extension put back together give the path. The extension is empty or a '.' with no later '.' or '/'. A non-dot stands before it in its component |
| CsvPath.SplitExtFindsExtension | pdf_converter/views.py:163 | the extension is non-empty iff the last path component holds a '.' with a non-dot character before it in that component |
| CsvPath.SplitExt | pdf_converter/views.py:163 | POSIX `os.path.splitext`: the split at the last '.' after the last '/', unless only dots precede it in that component |
| CsvPath.CsvPathOf | pdf_converter/views.py:163 | the output path: the root of splitext with `.csv` appended |
| CsvPath.CsvPathOfPlan | pdf_converter/views.py:163 | for a path ending in a plan name, splitext cuts off exactly the last four characters, which lower-case to `.pdf`. The CSV path replaces them by `.csv` |
| CsvPath.CsvPathOfDiscovered | pdf_converter/views.py:163 | every discovered file's CSV path is the path with its last four characters replaced by `.csv` |
| Pipeline.FlattenedResultsAreSequential | pdf_converter/views.py:146-152 | the per-page results of the pool, flattened, are what one sequential pass over all strings extracts |
| Pipeline.PageResults | pdf_converter/views.py:147-149 | `pool.map` as an in-order map when no page raises: entry k is the numbers `process_image` returns for page k |
| Pipeline.JobTable | pdf_converter/views.py:140-169 | the table the job loop builds for a document: the pairs of its flattened page numbers with ',' as decimal separator; None when a page raises |
| Pipeline.JobTableRows | pdf_converter/views.py:140-169 | the written table has len/2 rows, and row k pairs numbers 2k and 2k+1 of the document |
| Pipeline.JobTableAboveThreshold | pdf_converter/views.py:140-169 | every value in a written table is above 100000 |
| Pipeline.ExtractTable | pdf_converter/views.py:140-169 | the job loop's steps for one document give the table the pages determine, or none when recognition of a page raises |
| Pipeline.StrictPageNumbers | pdf_converter/views.py:248-253 | `process_single_file`'s loop over one page's strings extends the numbers exactly as `process_image` would |
| Pipeline.SingleFileNumbers | pdf_converter/views.py:243-253 | the page loop succeeds iff every page is recognized, and it yields the flattened page results |
| Pipeline.ProcessSingleFile | pdf_converter/views.py:235-265 | a result exists iff every step succeeds. It is the CSV path of the file, and the job loop's rows with '.' as decimal separator |
| Jobs.ProcessingJob.constructor | pdf_converter/models.py:15-21 | a new job is pending, with 0 total, 0 processed, no total time and no files |
| Jobs.ProcessFile | pdf_converter/views.py:131-195 | one file: a completed record with its time, its table written and the count increased, or a failed record with time 0 and nothing else changed |
| Jobs.ProcessAll | pdf_converter/views.py:130-195 | the loop over the discovered files gives one record per file in order and counts the completed ones. The loop leaves status, total and time as they were, and every completed table is on disk. Given no more files than `total_files`, `processed_count` equals the completed count and the records never outnumber `total_files`, at every step of the loop |
| Jobs.ProcessFilesThread | pdf_converter/views.py:92-207 | no plan gives `no_files`. A reader failure gives `failed`, with the total set, no records and no time. Otherwise `completed`, one record per file in order, the completed count, the total time and every completed table on disk |
| Jobs.RecordsPerFile | pdf_converter/views.py:130-195 | one record per file, in discovery order. A record is completed iff every step of its document succeeded, and a failed record has time 0 |
| Jobs.CompletedCount | pdf_converter/views.py:178-182 | the number of completed records, the value `processed_count` takes from the `processed_files` counter |
| Jobs.CompletedCountAtMost | pdf_converter/views.py:178-181 | the completed count never exceeds the number of records |
| Jobs.CompletedCountIsTotalIff | pdf_converter/views.py:171-195 | the completed count equals the number of records iff every record is completed |
| Jobs.ProgressMonotone | pdf_converter/views.py:178-181 | `processed_count` never decreases as the loop advances and never exceeds the files handled so far |
| Jobs.ProcessedEqualsTotalIffNoFailure | pdf_converter/views.py:178-200 | after a completed job `processed_count` is at most `total_files`, and equal to it iff no file failed |
| Jobs.UnreadableDocumentFails | pdf_converter/views.py:188-195 | a PDF that cannot be rasterized gets a failed record with time 0 |
| Jobs.Attempt | pdf_converter/views.py:131-169 | the table one `try` block writes, or None when rasterizing, recognizing or writing raises |
| Jobs.RecordFor | pdf_converter/views.py:171-195 | the record for one file: completed with its elapsed time when the attempt succeeded, otherwise failed with time 0 |
| Jobs.Records | pdf_converter/views.py:130-195 | the records of the job loop, one per path, in order |
| Jobs.WriteOutcome | pdf_converter/views.py:163-169 | the disk after one file: its table stored at its CSV path when the attempt succeeded, otherwise unchanged |
| Jobs.Written | pdf_converter/views.py:130-195 | the disk after the job loop: each file's write applied in order, a later write to the same path replacing an earlier one |
| Jobs.WrittenKeepsTable | pdf_converter/views.py:163-169 | once a completed file's CSV path is on disk it stays a path on disk for the rest of the job; its content may be replaced |
| Jobs.CompletedTableBesidePdf | pdf_converter/views.py:163-169 | for every completed file a CSV file is present at its own path with the last four characters replaced by `.csv` |
| Jobs.WrittenHoldsLastTable | pdf_converter/views.py:163-169 | the table at a CSV path after the job is the one of the last completed file mapping to that path |
| Jobs.CompletedTableIsItsOwn | pdf_converter/views.py:163-169 | a completed file whose CSV path no later discovered file shares finds its own table there |
| Jobs.CaseVariantsShareCsvPath | pdf_converter/views.py:101-107 | `plan.pdf` and `plan.PDF` in one directory are both discovered, in that order, and share the CSV path `d/plan.csv` |


## Left out

- The HTTP views, URL routing and templates (`index`, `process_folder`, `download_csv`,
  `get_job_status`, `urls.py`). Only the path expression they share with the job loop is
  modelled.
- Threads and the multiprocessing pool. `pool.map` is modelled as an in-order map, which is
  what it returns.
- Rasterization (`convert_from_path`) and OCR (`easyocr`). They are inputs. The strings
  `readtext` returns with `detail=0` and the text fields of its tuples in `process_single_file`
  are taken to be the same strings.
- Floating point. Values are exact rationals, and `float()` is modelled only on decimal
  literals (digits, with an optional '.' part). No match is anything else. Rounding near
  100000 is not modelled.
- TokenExtractor.ParseFloat: accepts only plain decimal literals. Exponents, signs, spaces, `_` between digits (`"1_000"`), non-ASCII digits, `inf` and `nan`, which `float()` also accepts, give None; no `findall` match in the ASCII model has any of them.
- The CSV text itself (pandas formatting, header, quoting). A table is its rows and its
  decimal separator.
- Clocks. Every elapsed time is an input.
- Unicode `\d`, `\w` and `str.lower`. Only ASCII is modelled. A non-ASCII character never
  lower-cases to a letter of `plan.pdf`, so discovery is unaffected, but a non-ASCII digit
  in OCR text is not. Non-ASCII letters matter too: Python's `\w` includes `é`, so
  `re.findall` finds nothing in `"123456é"`, whereas `IsWordChar` treats `é` as a non-word
  character and the model returns `"123456"`.
- Windows paths (`ntpath`). Paths are POSIX.
- Database persistence (`save`, `objects.create`, `uploaded_at`, `processed_at`). The job
  object and its record sequence stand for the rows.
- Jobs.ProcessFilesThread: does not model a failure after a file's completed record is
  created, for example `job.save()` raising. In that case the source creates a second,
  failed record for the same file.
- Jobs.ProcessFilesThread: does not model an exception raised inside the per-file
  `except` handler itself, or a logging failure.
- Jobs.ProcessFile: a failed CSV write is modelled as writing nothing. A partly written
  file is not modelled.
- The `PDFDocument` model, which the pipeline does not use.

/**
 * The job runner, `process_files_thread`: discovery, then each discovered file in turn through
 * the pipeline inside its own `try`, one ProcessedFile record per file, and the job's counters
 * and status kept up to date.
 *
 * Everything outside the program is an input: the walk listing, whether the OCR reader can be
 * built, and for each path what rasterizing, recognizing and writing do and how long it takes.
 * The database becomes the job object and its list of records; the disk becomes a map from
 * output path to table.
 */
module Jobs {
  import opened Wrappers
  import Discovery
  import CsvPath
  import Pipeline

  datatype JobStatus = Pending | Processing | NoFiles | Completed | Failed

  datatype FileStatus = FileCompleted | FileFailed

  /** A ProcessedFile row: the document's path, its processing time and its outcome. */
  datatype ProcessedFile = ProcessedFile(filePath: string, processingTime: real, status: FileStatus)

  /**
   * What happens to one document: the pages rasterization yields with their OCR strings (None:
   * `convert_from_path` raises), whether `to_csv` succeeds, and the elapsed time measured.
   */
  datatype Document = Document(pages: Option<seq<Pipeline.PageText>>, writeSucceeds: bool, elapsed: real)

  function CompletedCount(files: seq<ProcessedFile>): nat {
    if files == [] then 0
    else CompletedCount(files[..|files| - 1]) + (if files[|files| - 1].status == FileCompleted then 1 else 0)
  }

  /** A ProcessingJob row. */
  class ProcessingJob {
    const folderPath: string
    var totalFiles: int
    var processedCount: int
    var totalProcessingTime: Option<real>
    var status: JobStatus
    /** The ProcessedFile rows that point to this job, in creation order. */
    var files: seq<ProcessedFile>

    /** A new job has the model's defaults and no records. */
    constructor (folderPath: string)
      ensures this.folderPath == folderPath
      ensures IsNew()
    {
      this.folderPath := folderPath;
      totalFiles := 0;
      processedCount := 0;
      totalProcessingTime := None;
      status := Pending;
      files := [];
    }

    predicate IsNew()
      reads this
    {
      totalFiles == 0 && processedCount == 0 && totalProcessingTime == None && status == Pending && files == []
    }

    /** The count of processed files is the number of completed records and never exceeds the total. */
    ghost predicate Valid()
      reads this
    {
      processedCount == CompletedCount(files) && |files| <= totalFiles
    }
  }

  /** The output files on disk, by path. */
  class Disk {
    var tables: map<string, Pipeline.Table>

    constructor (tables: map<string, Pipeline.Table>)
      ensures this.tables == tables
    {
      this.tables := tables;
    }
  }

  /** The table the `try` block for one document writes, or None when one of its steps raises. */
  function Attempt(doc: Document): Option<Pipeline.Table> {
    if doc.pages.None? then None
    else
      var table := Pipeline.JobTable(doc.pages.value);
      if table.Some? && doc.writeSucceeds then table else None
  }

  /** The record the job loop creates for one document. */
  function RecordFor(filePath: string, doc: Document): ProcessedFile {
    if Attempt(doc).Some? then ProcessedFile(filePath, doc.elapsed, FileCompleted)
    else ProcessedFile(filePath, 0.0, FileFailed)
  }

  /** The records created for these paths, in order. */
  function Records(paths: seq<string>, outcome: string -> Document): seq<ProcessedFile> {
    if paths == [] then []
    else Records(paths[..|paths| - 1], outcome) + [RecordFor(paths[|paths| - 1], outcome(paths[|paths| - 1]))]
  }

  /** The disk after the `try` block for one document: its table written over its CSV path, or nothing. */
  function WriteOutcome(disk: map<string, Pipeline.Table>, filePath: string, doc: Document): map<string, Pipeline.Table> {
    match Attempt(doc)
    case Some(table) => disk[CsvPath.CsvPathOf(filePath) := table]
    case None => disk
  }

  /** The disk after the job loop has handled these paths, starting from disk. */
  function Written(disk: map<string, Pipeline.Table>, paths: seq<string>, outcome: string -> Document): map<string, Pipeline.Table> {
    if paths == [] then disk
    else WriteOutcome(Written(disk, paths[..|paths| - 1], outcome), paths[|paths| - 1], outcome(paths[|paths| - 1]))
  }

  /** Handling one more path appends its record and applies its write. */
  lemma RecordsStep(paths: seq<string>, outcome: string -> Document, disk: map<string, Pipeline.Table>, i: nat)
    requires i < |paths|
    ensures Records(paths[..i + 1], outcome) == Records(paths[..i], outcome) + [RecordFor(paths[i], outcome(paths[i]))]
    ensures Written(disk, paths[..i + 1], outcome) == WriteOutcome(Written(disk, paths[..i], outcome), paths[i], outcome(paths[i]))
  {
    assert paths[..i + 1][..i] == paths[..i];
  }

  /**
   * The `try` block of the job loop for one document, with its `except`: a completed record with
   * the measured time, the table written and `processed_count` increased when every step succeeds;
   * otherwise a failed record with time 0 and nothing else changed.
   */
  method ProcessFile(job: ProcessingJob, disk: Disk, filePath: string, doc: Document)
    modifies job, disk
    ensures job.files == old(job.files) + [RecordFor(filePath, doc)]
    ensures job.processedCount == old(job.processedCount) + (if Attempt(doc).Some? then 1 else 0)
    ensures disk.tables == WriteOutcome(old(disk.tables), filePath, doc)
    ensures old(disk.tables).Keys <= disk.tables.Keys
    ensures Attempt(doc).Some? ==> CsvPath.CsvPathOf(filePath) in disk.tables
    ensures job.status == old(job.status) && job.totalFiles == old(job.totalFiles)
    ensures job.totalProcessingTime == old(job.totalProcessingTime)
  {
    var table: Option<Pipeline.Table> := None;
    if doc.pages.Some? {
      table := Pipeline.ExtractTable(doc.pages.value);
    }
    if table.Some? && doc.writeSucceeds {
      disk.tables := disk.tables[CsvPath.CsvPathOf(filePath) := table.value];
      job.files := job.files + [ProcessedFile(filePath, doc.elapsed, FileCompleted)];
      job.processedCount := job.processedCount + 1;
    } else {
      job.files := job.files + [ProcessedFile(filePath, 0.0, FileFailed)];
    }
  }

  /** Appending a record adds one to the completed count exactly when the record is completed. */
  lemma CompletedCountAppend(files: seq<ProcessedFile>, r: ProcessedFile)
    ensures CompletedCount(files + [r]) == CompletedCount(files) + (if r.status == FileCompleted then 1 else 0)
  {
    assert (files + [r])[..|files|] == files;
  }

  /**
   * The job loop over the discovered files: one `try` per file, in order.  The job stays
   * `processing`, gains one record per file and counts the completed ones, and every completed
   * file's table is on disk at the end.
   */
  method ProcessAll(job: ProcessingJob, disk: Disk, pdfFiles: seq<string>, outcome: string -> Document)
    requires job.files == [] && job.processedCount == 0 && |pdfFiles| <= job.totalFiles
    modifies job, disk
    ensures job.Valid()
    ensures job.files == Records(pdfFiles, outcome)
    ensures job.processedCount == CompletedCount(job.files)
    ensures disk.tables == Written(old(disk.tables), pdfFiles, outcome)
    ensures forall k :: 0 <= k < |job.files| && job.files[k].status == FileCompleted ==>
              CsvPath.CsvPathOf(job.files[k].filePath) in disk.tables
    ensures job.status == old(job.status) && job.totalFiles == old(job.totalFiles)
    ensures job.totalProcessingTime == old(job.totalProcessingTime)
  {
    ghost var disk0 := disk.tables;
    var i := 0;
    while i < |pdfFiles|
      invariant 0 <= i <= |pdfFiles|
      invariant job.status == old(job.status) && job.totalFiles == old(job.totalFiles)
      invariant job.totalProcessingTime == old(job.totalProcessingTime)
      invariant job.files == Records(pdfFiles[..i], outcome)
      invariant job.processedCount == CompletedCount(job.files)
      invariant |job.files| == i && job.Valid()
      invariant disk.tables == Written(disk0, pdfFiles[..i], outcome)
      invariant forall k :: 0 <= k < |job.files| && job.files[k].status == FileCompleted ==>
                  CsvPath.CsvPathOf(job.files[k].filePath) in disk.tables
    {
      ghost var before := job.files;
      RecordsStep(pdfFiles, outcome, disk0, i);
      ProcessFile(job, disk, pdfFiles[i], outcome(pdfFiles[i]));
      CompletedCountAppend(before, RecordFor(pdfFiles[i], outcome(pdfFiles[i])));
      i := i + 1;
    }
    assert pdfFiles[..i] == pdfFiles;
  }

  /**
   * `process_files_thread(job_id)`.  With no `plan.pdf` the job ends `no_files` and is otherwise
   * untouched.  Otherwise it records the total and turns `processing`; when building the reader
   * raises it ends `failed` with no records and no total time.  Otherwise every file gets one
   * record, `processed_count` counts the completed ones, every completed file has its table on
   * disk, and the job ends `completed` whatever the files' outcomes.
   */
  method ProcessFilesThread(job: ProcessingJob, disk: Disk, walk: seq<Discovery.WalkStep>,
                            readerBuilds: bool, outcome: string -> Document, totalElapsed: real)
    requires job.IsNew()
    modifies job, disk
    ensures job.Valid()
    ensures var paths := Discovery.PlanPaths(walk);
            if paths == [] then
              && job.status == NoFiles && job.totalFiles == 0 && job.processedCount == 0
              && job.files == [] && job.totalProcessingTime == None && disk.tables == old(disk.tables)
            else if !readerBuilds then
              && job.status == Failed && job.totalFiles == |paths| && job.processedCount == 0
              && job.files == [] && job.totalProcessingTime == None && disk.tables == old(disk.tables)
            else
              && job.status == Completed && job.totalFiles == |paths|
              && job.files == Records(paths, outcome)
              && job.totalProcessingTime == Some(totalElapsed)
              && disk.tables == Written(old(disk.tables), paths, outcome)
    ensures forall k :: 0 <= k < |job.files| && job.files[k].status == FileCompleted ==>
              CsvPath.CsvPathOf(job.files[k].filePath) in disk.tables
  {
    var pdfFiles, totalFiles := Discovery.DiscoverPlans(walk);
    if totalFiles == 0 {
      job.status := NoFiles;
      return;
    }
    job.totalFiles := totalFiles;
    job.status := Processing;
    if !readerBuilds {
      // Building the OCR reader raised: the outer handler marks the job failed.
      job.status := Failed;
      return;
    }
    ProcessAll(job, disk, pdfFiles, outcome);
    RecordsPerFile(pdfFiles, outcome);
    job.totalProcessingTime := Some(totalElapsed);
    job.status := Completed;
  }

  /**
   * One record per discovered file, in order; a failed record has processing time 0, and a
   * record is completed exactly when every step of its document succeeded.
   */
  lemma {:induction false} RecordsPerFile(paths: seq<string>, outcome: string -> Document)
    ensures |Records(paths, outcome)| == |paths|
    ensures forall k :: 0 <= k < |paths| ==> Records(paths, outcome)[k].filePath == paths[k]
    ensures forall k :: 0 <= k < |paths| ==>
              (Records(paths, outcome)[k].status == FileCompleted <==> Attempt(outcome(paths[k])).Some?)
    ensures forall k :: 0 <= k < |paths| && Records(paths, outcome)[k].status == FileFailed ==>
              Records(paths, outcome)[k].processingTime == 0.0
    decreases |paths|
  {
    if paths != [] {
      var init := paths[..|paths| - 1];
      RecordsPerFile(init, outcome);
      forall k | 0 <= k < |init|
        ensures paths[k] == init[k]
      {
      }
    }
  }

  /** The completed count never exceeds the number of records. */
  lemma {:induction false} CompletedCountAtMost(files: seq<ProcessedFile>)
    ensures CompletedCount(files) <= |files|
    decreases |files|
  {
    if files != [] {
      CompletedCountAtMost(files[..|files| - 1]);
    }
  }

  /** All records are completed exactly when the completed count reaches the number of records. */
  lemma {:induction false} CompletedCountIsTotalIff(files: seq<ProcessedFile>)
    ensures CompletedCount(files) == |files| <==> forall k :: 0 <= k < |files| ==> files[k].status == FileCompleted
    decreases |files|
  {
    if files != [] {
      var init := files[..|files| - 1];
      CompletedCountIsTotalIff(init);
      CompletedCountAtMost(init);
      if forall k :: 0 <= k < |files| ==> files[k].status == FileCompleted {
        assert forall k :: 0 <= k < |init| ==> init[k] == files[k];
      }
      if CompletedCount(files) == |files| {
        forall k | 0 <= k < |files|
          ensures files[k].status == FileCompleted
        {
          if k < |init| {
            assert files[k] == init[k];
          }
        }
      }
    }
  }

  /**
   * At every point where the job loop saves the job, after i of the files, `processed_count`
   * is the completed count of the first i records; it never decreases from one point to a
   * later one and never exceeds the number of files handled so far.
   */
  lemma {:induction false} ProgressMonotone(paths: seq<string>, outcome: string -> Document, i: nat, j: nat)
    requires i <= j <= |paths|
    ensures CompletedCount(Records(paths[..i], outcome)) <= CompletedCount(Records(paths[..j], outcome)) <= j
    decreases j - i
  {
    RecordsPerFile(paths[..j], outcome);
    CompletedCountAtMost(Records(paths[..j], outcome));
    if i < j {
      ProgressMonotone(paths, outcome, i, j - 1);
      assert paths[..j][..j - 1] == paths[..j - 1];
    }
  }

  /**
   * After a completed job, `processed_count` equals `total_files` exactly when no file failed;
   * a single failure leaves it below the total.
   */
  lemma {:induction false} ProcessedEqualsTotalIffNoFailure(paths: seq<string>, outcome: string -> Document)
    ensures CompletedCount(Records(paths, outcome)) <= |paths|
    ensures CompletedCount(Records(paths, outcome)) == |paths| <==>
              forall k :: 0 <= k < |paths| ==> Attempt(outcome(paths[k])).Some?
  {
    var files := Records(paths, outcome);
    RecordsPerFile(paths, outcome);
    CompletedCountAtMost(files);
    CompletedCountIsTotalIff(files);
  }

  /** A document whose PDF cannot be rasterized gets a failed record with processing time 0. */
  lemma UnreadableDocumentFails(paths: seq<string>, outcome: string -> Document, k: nat)
    requires k < |paths| && outcome(paths[k]).pages.None?
    ensures |Records(paths, outcome)| == |paths|
    ensures Records(paths, outcome)[k] == ProcessedFile(paths[k], 0.0, FileFailed)
  {
    RecordsPerFile(paths, outcome);
  }

  /** Once a document's table is written, later documents never remove it from the disk. */
  lemma {:induction false} WrittenKeepsTable(disk: map<string, Pipeline.Table>, paths: seq<string>,
                                             outcome: string -> Document, k: nat)
    requires k < |paths| && Attempt(outcome(paths[k])).Some?
    ensures CsvPath.CsvPathOf(paths[k]) in Written(disk, paths, outcome)
    decreases |paths|
  {
    var init := paths[..|paths| - 1];
    if k < |init| {
      assert init[k] == paths[k];
      WrittenKeepsTable(disk, init, outcome, k);
    }
  }

  /**
   * Every document the job completes has its table at its own path with the trailing `.pdf`
   * (in any case) replaced by `.csv`, next to the PDF.
   */
  lemma CompletedTableBesidePdf(walk: seq<Discovery.WalkStep>, outcome: string -> Document,
                                disk: map<string, Pipeline.Table>, k: nat)
    requires k < |Discovery.PlanPaths(walk)|
    requires Attempt(outcome(Discovery.PlanPaths(walk)[k])).Some?
    ensures var p := Discovery.PlanPaths(walk)[k];
            |p| >= 8 && p[..|p| - 4] + ".csv" in Written(disk, Discovery.PlanPaths(walk), outcome)
  {
    var paths := Discovery.PlanPaths(walk);
    CsvPath.CsvPathOfDiscovered(walk, paths[k]);
    WrittenKeepsTable(disk, paths, outcome, k);
  }

  /**
   * The table at a CSV path after the job is the one written by the last file that maps to that
   * path and was completed: a later completed file with the same CSV path overwrites it.
   */
  lemma {:induction false} WrittenHoldsLastTable(disk: map<string, Pipeline.Table>, paths: seq<string>,
                                                 outcome: string -> Document, j: nat)
    requires j < |paths| && Attempt(outcome(paths[j])).Some?
    requires forall i :: j < i < |paths| && CsvPath.CsvPathOf(paths[i]) == CsvPath.CsvPathOf(paths[j]) ==>
               Attempt(outcome(paths[i])).None?
    ensures CsvPath.CsvPathOf(paths[j]) in Written(disk, paths, outcome)
    ensures Written(disk, paths, outcome)[CsvPath.CsvPathOf(paths[j])] == Attempt(outcome(paths[j])).value
    decreases |paths|
  {
    var init := paths[..|paths| - 1];
    if j < |init| {
      assert init[j] == paths[j];
      forall i | j < i < |init| && CsvPath.CsvPathOf(init[i]) == CsvPath.CsvPathOf(init[j])
        ensures Attempt(outcome(init[i])).None?
      {
        assert init[i] == paths[i];
      }
      WrittenHoldsLastTable(disk, init, outcome, j);
    }
  }

  /**
   * A completed document whose CSV path no later discovered document shares finds its own table
   * beside its PDF once the job is over.
   */
  lemma CompletedTableIsItsOwn(walk: seq<Discovery.WalkStep>, outcome: string -> Document,
                               disk: map<string, Pipeline.Table>, k: nat)
    requires k < |Discovery.PlanPaths(walk)|
    requires Attempt(outcome(Discovery.PlanPaths(walk)[k])).Some?
    requires var paths := Discovery.PlanPaths(walk);
             forall i :: k < i < |paths| ==> CsvPath.CsvPathOf(paths[i]) != CsvPath.CsvPathOf(paths[k])
    ensures var paths := Discovery.PlanPaths(walk);
            var p := paths[k];
            && |p| >= 8
            && p[..|p| - 4] + ".csv" in Written(disk, paths, outcome)
            && Written(disk, paths, outcome)[p[..|p| - 4] + ".csv"] == Attempt(outcome(p)).value
  {
    var paths := Discovery.PlanPaths(walk);
    CsvPath.CsvPathOfDiscovered(walk, paths[k]);
    WrittenHoldsLastTable(disk, paths, outcome, k);
  }

  /** Both spellings lower-case to the plan name. */
  lemma UpperCasePlanName()
    ensures Discovery.IsPlanName("plan.pdf") && Discovery.IsPlanName("plan.PDF")
  {
    var u := "plan.PDF";
    assert Discovery.LowerChar(u[5]) == 'p' && Discovery.LowerChar(u[6]) == 'd' && Discovery.LowerChar(u[7]) == 'f';
    assert Discovery.Lower(u) == "plan.pdf";
    assert Discovery.Lower("plan.pdf") == "plan.pdf";
  }

  /** Both spellings of the plan name in one directory are discovered, in listing order. */
  lemma CaseVariantsDiscovered()
    ensures Discovery.PlanPaths([Discovery.WalkStep("d", ["plan.pdf", "plan.PDF"])]) == ["d/plan.pdf", "d/plan.PDF"]
  {
    UpperCasePlanName();
    var walk := [Discovery.WalkStep("d", ["plan.pdf", "plan.PDF"])];
    var files: seq<string> := ["plan.pdf", "plan.PDF"];
    assert files[..1] == ["plan.pdf"] && files[..1][..0] == [];
    assert Discovery.Join("d", "plan.pdf") == "d/plan.pdf" && Discovery.Join("d", "plan.PDF") == "d/plan.PDF";
    assert Discovery.PlansIn("d", []) == [];
    assert Discovery.PlansIn("d", files[..1]) == ["d/plan.pdf"];
    assert Discovery.PlansIn("d", files) == ["d/plan.pdf", "d/plan.PDF"];
    assert walk[..0] == [];
  }

  /**
   * Two spellings of the plan name in one directory are both discovered and share one CSV path,
   * so the table of the second replaces the table of the first.
   */
  lemma CaseVariantsShareCsvPath()
    ensures Discovery.PlanPaths([Discovery.WalkStep("d", ["plan.pdf", "plan.PDF"])]) == ["d/plan.pdf", "d/plan.PDF"]
    ensures CsvPath.CsvPathOf("d/plan.pdf") == CsvPath.CsvPathOf("d/plan.PDF") == "d/plan.csv"
  {
    CaseVariantsDiscovered();
    UpperCasePlanName();
    assert "d/plan.pdf"[2..] == "plan.pdf" && "d/plan.PDF"[2..] == "plan.PDF";
    CsvPath.CsvPathOfPlan("d/plan.pdf");
    CsvPath.CsvPathOfPlan("d/plan.PDF");
    assert "d/plan.pdf"[..6] == "d/plan" && "d/plan.PDF"[..6] == "d/plan";
  }
}

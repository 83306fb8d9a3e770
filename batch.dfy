/**
 * The script's main loop: the PDFs found in the input directory are taken one
 * at a time; each is uploaded, sent to OCR, and the ".json" results listed
 * under its prefix are turned into the PDF's CSV file.
 *
 * The cloud services are parameters: `listBlobs` is what the bucket listing
 * returns for a prefix, one fixed function for the whole run. The CSV files
 * the loop writes are returned as a map from local path to rows.
 */
module Batch {
  import opened Wrappers
  import opened Text
  import opened Paths
  import opened Discovery
  import opened Naming
  import opened OcrResults

  /** The extensions searched for. */
  const TARGET_EXTENSIONS: seq<string> := [".pdf"]

  /** `os.path.join(csv_output_dir, f"{pdf_base}.csv")`: where a PDF's rows are written. */
  function CsvPath(csvDir: string, pdfBase: string): string {
    Join(csvDir, pdfBase + ".csv")
  }

  /** The jobs of the loop: one per found file, in the order the files were found. */
  function Jobs(paths: seq<string>): (jobs: seq<PdfJob>)
    ensures |jobs| == |paths|
  {
    if paths == [] then [] else Jobs(paths[..|paths| - 1]) + [JobFor(paths[|paths| - 1])]
  }

  /**
   * What a job leaves in its CSV file: the rows of the last ".json" object
   * listed under its prefix, or nothing when no ".json" object is listed.
   */
  function JobCsv(listBlobs: string -> seq<Blob>): PdfJob -> Option<seq<Row>> {
    (job: PdfJob) => FinalCsv(job.pdfBase, listBlobs(job.listingPrefix))
  }

  /**
   * The CSV files once the jobs have run, given what each job writes: a job
   * that writes (re)writes its CSV file, so a later job with the same CSV
   * path replaces what an earlier one wrote.
   */
  function CsvFiles(csvDir: string, jobs: seq<PdfJob>, written: PdfJob -> Option<seq<Row>>): map<string, seq<Row>> {
    if jobs == [] then map[]
    else
      var n := |jobs| - 1;
      var earlier := CsvFiles(csvDir, jobs[..n], written);
      match written(jobs[n])
      case None => earlier
      case Some(rows) => earlier[CsvPath(csvDir, jobs[n].pdfBase) := rows]
  }

  /**
   * The loop over the found PDFs: the names of each job, and the CSV files
   * written, each holding the rows of the last ".json" object listed for the
   * last job that wrote it.
   */
  method ProcessPdfs(directory: string, listing: seq<string>, csvDir: string, listBlobs: string -> seq<Blob>)
    returns (jobs: seq<PdfJob>, csvFiles: map<string, seq<Row>>)
    ensures jobs == Jobs(Matching(directory, listing, TARGET_EXTENSIONS))
    ensures csvFiles == CsvFiles(csvDir, jobs, JobCsv(listBlobs))
  {
    var localPdfPaths := GetFilesByExtensions(directory, listing, TARGET_EXTENSIONS);
    jobs, csvFiles := [], map[];
    for i := 0 to |localPdfPaths|
      invariant jobs == Jobs(localPdfPaths[..i])
      invariant csvFiles == CsvFiles(csvDir, jobs, JobCsv(listBlobs))
    {
      var job := JobFor(localPdfPaths[i]);
      var downloaded, csv := ProcessBlobs(job.pdfBase, listBlobs(job.listingPrefix));
      assert JobCsv(listBlobs)(job) == csv;
      CsvFilesSnoc(csvDir, jobs, job, JobCsv(listBlobs));
      if csv.Some? {
        csvFiles := csvFiles[CsvPath(csvDir, job.pdfBase) := csv.value];
      }
      JobsSnoc(localPdfPaths, i);
      jobs := jobs + [job];
    }
    assert localPdfPaths[..|localPdfPaths|] == localPdfPaths;
  }

  /** Running one more job adds or replaces its CSV file when it writes, and changes nothing otherwise. */
  lemma CsvFilesSnoc(csvDir: string, jobs: seq<PdfJob>, job: PdfJob, written: PdfJob -> Option<seq<Row>>)
    ensures CsvFiles(csvDir, jobs + [job], written) ==
      if written(job).Some? then CsvFiles(csvDir, jobs, written)[CsvPath(csvDir, job.pdfBase) := written(job).value]
      else CsvFiles(csvDir, jobs, written)
  {
    assert (jobs + [job])[..|jobs|] == jobs;
  }

  /** The jobs of the first `i + 1` paths are those of the first `i` and the job of path `i`. */
  lemma JobsSnoc(paths: seq<string>, i: int)
    requires 0 <= i < |paths|
    ensures Jobs(paths[..i + 1]) == Jobs(paths[..i]) + [JobFor(paths[i])]
  {
    assert paths[..i + 1][..i] == paths[..i];
    assert paths[..i + 1][i] == paths[i];
  }

  /** Job `i` is the job of path `i`. */
  lemma {:induction false} JobsAt(paths: seq<string>, i: int)
    requires 0 <= i < |paths|
    ensures Jobs(paths)[i] == JobFor(paths[i])
  {
    var n := |paths| - 1;
    if i < n {
      JobsAt(paths[..n], i);
      assert paths[..n][i] == paths[i];
    } else {
      assert i == n;
    }
  }

  /** A CSV file exists exactly when some job wrote to its path. */
  lemma {:induction false} CsvFilesKeys(csvDir: string, jobs: seq<PdfJob>, written: PdfJob -> Option<seq<Row>>, path: string)
    ensures path in CsvFiles(csvDir, jobs, written) <==>
      exists i :: 0 <= i < |jobs| && written(jobs[i]).Some? && path == CsvPath(csvDir, jobs[i].pdfBase)
  {
    if jobs != [] {
      var n := |jobs| - 1;
      CsvFilesKeys(csvDir, jobs[..n], written, path);
      assert forall i :: 0 <= i < n ==> jobs[..n][i] == jobs[i];
    }
  }

  /**
   * A CSV file holds what the last job writing to its path wrote: for the
   * jobs of the loop, the rows of the last ".json" object listed for it.
   */
  lemma {:induction false} CsvFileOfLastWriter(csvDir: string, jobs: seq<PdfJob>, written: PdfJob -> Option<seq<Row>>, i: int)
    requires 0 <= i < |jobs| && written(jobs[i]).Some?
    requires forall k :: i < k < |jobs| && written(jobs[k]).Some? ==>
      CsvPath(csvDir, jobs[k].pdfBase) != CsvPath(csvDir, jobs[i].pdfBase)
    ensures CsvPath(csvDir, jobs[i].pdfBase) in CsvFiles(csvDir, jobs, written)
    ensures CsvFiles(csvDir, jobs, written)[CsvPath(csvDir, jobs[i].pdfBase)] == written(jobs[i]).value
  {
    var n := |jobs| - 1;
    if i < n {
      assert forall k :: i < k < n ==> jobs[..n][k] == jobs[k];
      CsvFileOfLastWriter(csvDir, jobs[..n], written, i);
      assert jobs[..n][i] == jobs[i];
    }
  }

  /** A job of the loop writes exactly when a ".json" object is listed under its prefix. */
  lemma JobCsvWrites(listBlobs: string -> seq<Blob>, job: PdfJob)
    ensures JobCsv(listBlobs)(job).Some? <==>
      exists k :: 0 <= k < |listBlobs(job.listingPrefix)| && IsJson(listBlobs(job.listingPrefix)[k].name)
  {
    FinalCsvNone(job.pdfBase, listBlobs(job.listingPrefix));
  }

  /**
   * With the ".pdf" filter and a listing of plain file names, every job is
   * for a listed name ending with ".pdf", uploaded to "input/" plus that
   * name.
   */
  lemma JobsAreListedPdfs(directory: string, listing: seq<string>, i: int)
    requires forall name :: name in listing ==> '/' !in name
    requires 0 <= i < |Matching(directory, listing, TARGET_EXTENSIONS)|
    ensures var job := Jobs(Matching(directory, listing, TARGET_EXTENSIONS))[i];
      && job.pdfName in listing
      && EndsWith(job.pdfName, ".pdf")
      && job.inputKey == "input/" + job.pdfName
  {
    var paths := Matching(directory, listing, TARGET_EXTENSIONS);
    var path := paths[i];
    assert Jobs(paths)[i] == JobFor(path) by { JobsAt(paths, i); }
    assert exists j :: AcceptedAt(directory, listing, TARGET_EXTENSIONS, j, path) by {
      MatchingSound(directory, listing, TARGET_EXTENSIONS, path);
    }
    var j :| AcceptedAt(directory, listing, TARGET_EXTENSIONS, j, path);
    var name := listing[j];
    assert name in listing && path == Join(directory, name);
    EndsWithOnly(name, ".pdf");
    assert '/' !in name;
    JobOfListedName(directory, name);
  }
}

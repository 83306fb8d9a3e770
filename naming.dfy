/**
 * The names the per-PDF loop derives from a local PDF path: the file name and
 * its base, the upload key, the OCR source URI, the OCR destination URI and the
 * prefix under which the results are listed afterwards.
 *
 * The destination URI and the listing prefix are computed in two different
 * ways: the first rewrites every ".pdf" in the file name into "/", the second
 * strips the last extension. They name the same place only when ".pdf" occurs
 * in the name just once, as its extension.
 */
module Naming {
  import opened Text
  import opened Paths

  /** The bucket used for both the uploaded PDFs and the OCR results. */
  const BUCKET_NAME := "my-pdf-ocr-output"

  /** Where OCR results are written, before the per-file part. */
  const DESTINATION_URI_BASE := "gs://my-pdf-ocr-output/output/"

  /** `f"gs://{bucket}/{key}"`. */
  function GcsUri(bucket: string, key: string): string {
    "gs://" + bucket + "/" + key
  }

  /** The names derived for one local PDF. */
  datatype PdfJob = PdfJob(
    pdfName: string,         // os.path.basename(local_pdf_path)
    pdfBase: string,         // os.path.splitext(pdf_name)[0]
    inputKey: string,        // the object key the PDF is uploaded to
    sourceUri: string,       // the OCR request's input URI
    destinationUri: string,  // the OCR request's output URI
    listingPrefix: string    // the prefix the results are listed under
  )

  /** `f"input/{pdf_name}"`: the key the PDF is uploaded to. */
  function InputKey(pdfName: string): string {
    "input/" + pdfName
  }

  /** `destination_uri_base + pdf_name.replace(".pdf", "/")`. */
  function DestinationUri(pdfName: string): string {
    DESTINATION_URI_BASE + ReplaceAll(pdfName, ".pdf", "/")
  }

  /** `f"output/{pdf_base}/"`: the prefix the results are listed under. */
  function ListingPrefix(pdfBase: string): string {
    "output/" + pdfBase + "/"
  }

  /** The names the loop body derives from `localPdfPath`. */
  function JobFor(localPdfPath: string): (job: PdfJob)
    ensures '/' !in job.pdfName
  {
    var pdfName := Basename(localPdfPath);
    var pdfBase := Splitext(pdfName).0;
    PdfJob(
      pdfName,
      pdfBase,
      InputKey(pdfName),
      GcsUri(BUCKET_NAME, InputKey(pdfName)),
      DestinationUri(pdfName),
      ListingPrefix(pdfBase))
  }

  /**
   * The file name is the last component of the local path and the base is
   * the file name without its extension: the base followed by the extension
   * `splitext` removed gives back the file name.
   */
  lemma JobNames(localPdfPath: string)
    ensures var job := JobFor(localPdfPath);
      && EndsWith(localPdfPath, job.pdfName)
      && job.pdfName == job.pdfBase + Splitext(job.pdfName).1
  {
    BasenameIsLastComponent(localPdfPath);
  }

  /** For a name taken from the directory listing, the upload key and the source URI name that file directly under `input/`. */
  lemma JobOfListedName(directory: string, name: string)
    requires '/' !in name
    ensures JobFor(Join(directory, name)).pdfName == name
    ensures JobFor(Join(directory, name)).inputKey == "input/" + name
    ensures JobFor(Join(directory, name)).sourceUri == GcsUri(BUCKET_NAME, "input/" + name)
  {
    var job := JobFor(Join(directory, name));
    BasenameOfJoin(directory, name);
    assert job.pdfName == name;
  }

  /** The destination the listing prefix stands for: what the loop evidently means to write the results to. */
  function IntendedDestinationUri(pdfBase: string): (uri: string)
    ensures uri == GcsUri(BUCKET_NAME, "output/" + pdfBase + "/")
  {
    DESTINATION_URI_BASE + pdfBase + "/"
  }

  /** The listing prefix of every job is the object path of the intended destination. */
  lemma IntendedDestinationIsListed(localPdfPath: string)
    ensures IntendedDestinationUri(JobFor(localPdfPath).pdfBase)
         == GcsUri(BUCKET_NAME, JobFor(localPdfPath).listingPrefix)
  {
  }

  /**
   * `name` ends with ".pdf", has no other ".pdf" before it, and has a
   * character other than '.' before it (so that `splitext` strips it).
   */
  predicate OnlyTrailingPdf(name: string) {
    && EndsWith(name, ".pdf")
    && !Occurs(name[..|name| - 4], ".pdf")
    && HasNonDot(name, 0, |name| - 4)
  }

  /**
   * ".pdf" is one dotted extension without '/', and its '.' does not recur in
   * it, so occurrences of ".pdf" cannot overlap.
   */
  lemma PdfIsExtension()
    ensures ".pdf"[0] == '.' && ".pdf"[0] !in ".pdf"[1..] && '.' !in ".pdf"[1..] && '/' !in ".pdf"
  {
    assert ".pdf"[1..] == "pdf";
  }

  /** A name with a single, trailing ".pdf" is rewritten into its base plus "/". */
  lemma OnlyTrailingPdfReplaced(name: string)
    requires '/' !in name && OnlyTrailingPdf(name)
    ensures ReplaceAll(name, ".pdf", "/") == Splitext(name).0 + "/"
  {
    var stem := name[..|name| - 4];
    assert name == stem + ".pdf";
    PdfIsExtension();
    assert ReplaceAll(name, ".pdf", "/") == stem + "/" by {
      ReplaceAfter(stem, [], ".pdf", "/");
      assert stem + ".pdf" + [] == name;
      assert ReplaceAll([], ".pdf", "/") == [];
    }
    assert Splitext(name).0 == stem by {
      HasNonDotIff(name, 0, |stem|);
      var k :| 0 <= k < |stem| && name[k] != '.';
      assert stem[k] != '.';
      assert forall c :: c in stem ==> c in name;
      SplitextOfExtension(stem, ".pdf");
    }
  }

  /** A name holding ".pdf" splits at its first ".pdf", which is the first one `replace` rewrites. */
  lemma FirstPdf(name: string) returns (front: string, back: string)
    requires Occurs(name, ".pdf")
    ensures name == front + ".pdf" + back && !Occurs(front, ".pdf")
    ensures ReplaceAll(name, ".pdf", "/") == front + "/" + ReplaceAll(back, ".pdf", "/")
  {
    var i := IndexOf(name, ".pdf");
    front, back := name[..i], name[i + 4..];
    assert name == front + ".pdf" + back;
    if Occurs(front, ".pdf") {
      var j :| 0 <= j <= |front| && OccursAt(front, ".pdf", j);
      assert OccursAt(name, ".pdf", j);
      assert false;
    }
    PdfIsExtension();
    ReplaceAfter(front, back, ".pdf", "/");
  }

  /** If the rewritten name is some '/'-free `root` plus "/", then the name is `root` + ".pdf" with no earlier ".pdf". */
  lemma ReplacedIntoOneSlash(name: string, root: string)
    requires '/' !in name && '/' !in root
    requires ReplaceAll(name, ".pdf", "/") == root + "/"
    ensures name == root + ".pdf" && !Occurs(root, ".pdf")
  {
    if !Occurs(name, ".pdf") {
      ReplaceAllWithoutOccurrence(name, ".pdf", "/");
      assert false;
    }
    var front, back := FirstPdf(name);
    var rest := ReplaceAll(back, ".pdf", "/");
    SingleSlash(front, rest, root);
    ReplaceAllEmpty(back, ".pdf", "/");
  }

  /** `front + "/" + rest == root + "/"` with '/' in neither `front` nor `root` forces `front == root` and an empty `rest`. */
  lemma SingleSlash(front: string, rest: string, root: string)
    requires '/' !in front && '/' !in root
    requires front + "/" + rest == root + "/"
    ensures front == root && rest == []
  {
    var joined := front + "/" + rest;
    assert joined[|front|] == '/';
    assert front == joined[..|front|] == root;
  }

  /** The name-level core of the agreement: rewriting ".pdf" into "/" gives the base plus "/" exactly for names with a single, trailing ".pdf". */
  lemma ReplaceMatchesBase(name: string)
    requires '/' !in name
    ensures ReplaceAll(name, ".pdf", "/") == Splitext(name).0 + "/" <==> OnlyTrailingPdf(name)
  {
    if OnlyTrailingPdf(name) {
      OnlyTrailingPdfReplaced(name);
    }
    if ReplaceAll(name, ".pdf", "/") == Splitext(name).0 + "/" {
      ReplacedIsOnlyTrailing(name);
    }
  }

  /** A name that `replace` rewrites into its base plus "/" has a single, trailing ".pdf". */
  lemma ReplacedIsOnlyTrailing(name: string)
    requires '/' !in name
    requires ReplaceAll(name, ".pdf", "/") == Splitext(name).0 + "/"
    ensures OnlyTrailingPdf(name)
  {
    var root := Splitext(name).0;
    BaseHasNoSlash(name);
    ReplacedIntoOneSlash(name, root);
    SinglePdfIsOnlyTrailing(name, root);
  }

  /** The base `splitext` gives of a '/'-free name is '/'-free. */
  lemma BaseHasNoSlash(name: string)
    requires '/' !in name
    ensures '/' !in Splitext(name).0
  {
    var parts := Splitext(name);
    assert forall k :: 0 <= k < |parts.0| ==> parts.0[k] == name[k];
  }

  /** A name that is its base plus ".pdf", with no ".pdf" in the base, has a single, trailing ".pdf". */
  lemma SinglePdfIsOnlyTrailing(name: string, root: string)
    requires '/' !in name && name == root + ".pdf" && !Occurs(root, ".pdf") && Splitext(name).0 == root
    ensures OnlyTrailingPdf(name)
  {
    assert name[..|name| - 4] == root;
    assert name[|name| - 4..] == ".pdf";
    var sep := LastIndexOf(name, '/');
    var dot := LastIndexOf(name, '.');
    assert sep == -1;
    assert Splitext(name).1 == ".pdf";
    assert dot == |root|;
  }

  /**
   * The OCR destination and the place the results are listed from agree
   * exactly when ".pdf" occurs in the file name only as its extension (and
   * the name before it is not all dots).
   */
  lemma DestinationMatchesListing(localPdfPath: string)
    ensures var job := JobFor(localPdfPath);
      job.destinationUri == IntendedDestinationUri(job.pdfBase) <==> OnlyTrailingPdf(job.pdfName)
  {
    var job := JobFor(localPdfPath);
    assert job.destinationUri == DestinationUri(job.pdfName);
    assert job.pdfBase == Splitext(job.pdfName).0;
    NameDestinationMatchesListing(job.pdfName);
  }

  /** `DestinationMatchesListing` for one file name. */
  lemma NameDestinationMatchesListing(name: string)
    requires '/' !in name
    ensures DestinationUri(name) == IntendedDestinationUri(Splitext(name).0) <==> OnlyTrailingPdf(name)
  {
    var base := Splitext(name).0;
    ReplaceMatchesBase(name);
    assert IntendedDestinationUri(base) == DESTINATION_URI_BASE + (base + "/");
    ConcatCancel(DESTINATION_URI_BASE, ReplaceAll(name, ".pdf", "/"), base + "/");
  }

  /** `replace` rewrites every ".pdf" of a name holding two of them, the inner one included. */
  lemma TwoPdfsReplaced(x: string, y: string)
    requires !Occurs(x, ".pdf") && !Occurs(y, ".pdf")
    ensures ReplaceAll(x + ".pdf" + y + ".pdf", ".pdf", "/") == x + "/" + y + "/"
  {
    PdfIsExtension();
    ReplaceAfter(y, [], ".pdf", "/");
    assert y + ".pdf" + [] == y + ".pdf";
    assert y + "/" + ReplaceAll([], ".pdf", "/") == y + "/";
    ReplaceAfter(x, y + ".pdf", ".pdf", "/");
    assert x + ".pdf" + (y + ".pdf") == x + ".pdf" + y + ".pdf";
    assert x + "/" + (y + "/") == x + "/" + y + "/";
  }

  /**
   * For a file named `x` + ".pdf" + `y` + ".pdf" (such as "a.pdf.b.pdf") the
   * OCR writes under "output/" + `x` + "/" + `y` + "/" while the results are
   * listed under "output/" + `x` + ".pdf" + `y` + "/": no object written
   * there is ever listed.
   */
  lemma DoublePdfMismatch(x: string, y: string)
    requires '/' !in x && '/' !in y && !Occurs(x, ".pdf") && !Occurs(y, ".pdf")
    ensures var job := JobFor(x + ".pdf" + y + ".pdf");
      && job.pdfBase == x + ".pdf" + y
      && job.listingPrefix == "output/" + (x + ".pdf" + y) + "/"
      && job.destinationUri == DESTINATION_URI_BASE + (x + "/" + y + "/")
      && job.destinationUri != IntendedDestinationUri(job.pdfBase)
      && forall key :: StartsWith(key, "output/" + (x + "/" + y + "/")) ==> !StartsWith(key, job.listingPrefix)
  {
    var name := x + ".pdf" + y + ".pdf";
    PdfIsExtension();
    assert JobFor(name).pdfName == name by {
      assert '/' !in name;
    }
    DoublePdfBase(x, y);
    DoublePdfPlaces(x, y);
  }

  /** `splitext` strips only the last ".pdf" of `x` + ".pdf" + `y` + ".pdf". */
  lemma DoublePdfBase(x: string, y: string)
    requires '/' !in x && '/' !in y
    ensures Splitext(x + ".pdf" + y + ".pdf").0 == x + ".pdf" + y
  {
    var stem := x + ".pdf" + y;
    PdfIsExtension();
    assert stem[|x| + 1] == 'p';
    assert '/' !in stem;
    SplitextOfExtension(stem, ".pdf");
  }

  /** The destination written and the intended one part at the character after `x`. */
  lemma DoublePdfPlaces(x: string, y: string)
    requires !Occurs(x, ".pdf") && !Occurs(y, ".pdf")
    ensures DestinationUri(x + ".pdf" + y + ".pdf") == DESTINATION_URI_BASE + (x + "/" + y + "/")
    ensures DestinationUri(x + ".pdf" + y + ".pdf") != IntendedDestinationUri(x + ".pdf" + y)
    ensures forall key :: StartsWith(key, "output/" + (x + "/" + y + "/")) ==> !StartsWith(key, ListingPrefix(x + ".pdf" + y))
  {
    var written := x + "/" + y + "/";
    var stem := x + ".pdf" + y;
    TwoPdfsReplaced(x, y);
    var n := |DESTINATION_URI_BASE| + |x|;
    assert (DESTINATION_URI_BASE + written)[n] == '/';
    assert IntendedDestinationUri(stem)[n] == '.';
    forall key | StartsWith(key, "output/" + written) ensures !StartsWith(key, ListingPrefix(stem)) {
      assert key[7 + |x|] == ("output/" + written)[7 + |x|] == '/';
      assert ListingPrefix(stem)[7 + |x|] == '.';
    }
  }

  /** "a.pdf.b.pdf": the OCR writes under "output/a/.b/", the results are listed under "output/a.pdf.b/". */
  lemma DestinationMismatchExample()
    ensures var job := JobFor("a" + ".pdf" + ".b" + ".pdf");
      && job.destinationUri == DESTINATION_URI_BASE + ("a" + "/" + ".b" + "/")
      && job.listingPrefix == "output/" + ("a" + ".pdf" + ".b") + "/"
      && job.destinationUri != IntendedDestinationUri(job.pdfBase)
  {
    assert !OccursAt("a", ".pdf", 0) && !OccursAt(".b", ".pdf", 0);
    DoublePdfMismatch("a", ".b");
  }
}

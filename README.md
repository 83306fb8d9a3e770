# OCR batch script: a verified model

`GoogleCloud_pdf3.py` is a batch script. It finds the PDF files in one local
directory, uploads each to a Cloud Storage bucket under `input/`, and asks
the Vision API to run document text detection into `output/`. It waits for
the OCR to finish, then lists the result objects of the PDF and downloads the
`.json` ones. Each parsed result file becomes a CSV file: a fixed header,
then one row per response holding the PDF's base name and the cleaned text
of that response.

This project models the logic of that script around the cloud calls:

- `Text` holds the Python `str` operations the script calls, with Python's
  meaning: `endswith`, `replace` (left to right, without overlap), and
  `strip` (the full `str.isspace` set of 29 characters). It also holds
  `startswith` and `rfind`, which the `os.path` functions use internally,
  and `in` and `find`, which the proofs about `replace` use.
- `Paths` holds `os.path.join`, `basename` and `splitext` with POSIX
  semantics. A name made only of leading dots has no extension.
- `Discovery` holds `get_files_by_extensions_glob`: a method with the
  script's loop, proved against the filter function `Matching`.
- `Naming` holds the names the per-PDF loop derives:
  - the file name and its base;
  - the upload key `input/<name>` and the OCR source URI;
  - the OCR destination URI, `destination_uri_base` followed by the name
    with every `.pdf` replaced by `/`;
  - the listing prefix `output/<base>/`.

  It also proves exactly when the destination and the listing prefix agree.
- `OcrResults` holds the parsed result file, with every optional key as an
  `Option`. It also holds:
  - text cleaning: `strip`, newline to space, `strip`;
  - the `（文字なし）` marker;
  - the CSV rows;
  - the `.json` filter over the listed objects.

  The loops over responses and over listed objects are methods proved
  against the functions `CsvRows` and `FinalCsv`.
- `Batch` holds the loop over the found PDFs. It is a method proved against
  `Jobs` and `CsvFiles`, with lemmas about the CSV files that are left.

The cloud services are parameters. The directory listing is a sequence of
names. The bucket listing is a function `listBlobs` from a prefix to the
listed objects, each object already parsed; it is one fixed function for the
whole run. The CSV files that are written are returned as a map from local
path to rows.

Some behaviour of the code that the model makes explicit:

- **Spacing of joined lines.** The text `"line one\nline two\n"` becomes
  `"line one line two"`, with one space. The first `strip` (line 117)
  removes the trailing newline before line 118 replaces newlines, and the
  newline between the lines becomes one space:
  `OcrResults.CleanTextJoinsLines`.
- **Failures.** The script has no exception handling. A failed upload, an
  OCR wait past 300 seconds, a failed download or a malformed JSON file
  raises, and the whole run ends there. The model has no failure paths.
- **Several result objects.** Every `.json` object under a PDF's prefix
  reopens the PDF's CSV file in `'w'` mode (line 112). With `a.json` and
  then `b.json` listed, the CSV holds only the rows of `b.json`:
  `OcrResults.FinalCsvIsLastJson`.
- **The marker.** The marker is written exactly when the cleaned text is
  empty or is itself the marker text. A response whose text is
  `"（文字なし）"` gives the same cell as one without text:
  `OcrResults.CellIsCleanedOrMarker`.

## Model

| member | source | states |
|---|---|---|
| Text.ReplaceAllWithoutOccurrence | GoogleCloud_pdf3.py:73 | `replace` leaves a string unchanged when the pattern does not occur in it |
| Text.EndsWith | GoogleCloud_pdf3.py:29 | the definition of `str.endswith`, also used at line 102; `Discovery.EndsWithOnly` and `Discovery.MatchingEndsWithExtension` state its use in the filter |
| Text.ReplaceAll | GoogleCloud_pdf3.py:73 | the definition of `str.replace` with a non-empty pattern, also used at line 118; `Text.ReplaceAllWithoutOccurrence`, `Text.ReplaceAfter` and `Text.ReplaceCharPointwise` state its properties |
| Text.ReplaceAfter | GoogleCloud_pdf3.py:73 | for a pattern whose first character does not recur in it, and a prefix without the pattern, `replace` copies the prefix and rewrites the occurrence right after it first |
| Text.ReplaceAllEmpty | GoogleCloud_pdf3.py:73 | replacing by a non-empty text gives the empty string only from the empty string |
| Text.ReplaceCharPointwise | GoogleCloud_pdf3.py:118 | replacing one character by one character keeps the length and maps each position independently |
| Text.ReplaceCharConcat | GoogleCloud_pdf3.py:118 | a one-character replacement distributes over concatenation |
| Text.ReplaceCharAbsent | GoogleCloud_pdf3.py:118 | replacing a character that is absent changes nothing |
| Text.Strip | GoogleCloud_pdf3.py:117-118 | the definition of `str.strip()`; `Text.StripIsSlice` and `Text.StripUnique` characterise it |
| Text.SpanStartSkipsSpaces | GoogleCloud_pdf3.py:117 | the left scan of `strip` passes over whitespace only and stops at the first non-whitespace character |
| Text.SpanEndSkipsSpaces | GoogleCloud_pdf3.py:117 | the right scan of `strip` drops whitespace only and stops after the last non-whitespace character |
| Text.StripIsSlice | GoogleCloud_pdf3.py:117-118 | `strip` returns the slice between the leading and the trailing whitespace, and these are all whitespace |
| Text.StripUnique | GoogleCloud_pdf3.py:117-118 | any slice with all-whitespace surroundings and non-whitespace ends is what `strip` returns |
| Text.StripEnds | GoogleCloud_pdf3.py:117-118 | the result of `strip` is empty or begins and ends with a non-whitespace character |
| Text.StripPadded | GoogleCloud_pdf3.py:117-118 | surrounding a string with whitespace does not change what `strip` returns |
| Text.StripKeepsCharacters | GoogleCloud_pdf3.py:118 | `strip` introduces no character its input lacks |
| Text.StripBeforeReplace | GoogleCloud_pdf3.py:117-118 | when one character is replaced by a whitespace character, stripping before the replacement makes no difference to the final `strip` |
| Text.StripIdempotent | GoogleCloud_pdf3.py:117-118 | stripping twice equals stripping once |
| Paths.HasNonDotIff | GoogleCloud_pdf3.py:60 | the leading-dot scan of `splitext` finds a non-dot character exactly when one exists |
| Paths.Join | GoogleCloud_pdf3.py:30 | the joined path ends with the name; for a relative name it begins with the directory, and at most one `/` lies between them |
| Paths.Basename | GoogleCloud_pdf3.py:59 | the base name holds no `/` |
| Paths.BasenameIsLastComponent | GoogleCloud_pdf3.py:59 | the base name is a suffix of the path, and the whole path or what follows its last `/` |
| Paths.BasenameOfJoin | GoogleCloud_pdf3.py:30 | the base name of a listed name joined to its directory is that name |
| Paths.Splitext | GoogleCloud_pdf3.py:60 | the two parts concatenate to the path, and the extension is empty or one `.` with no further `.` or `/` |
| Paths.SplitextOfExtension | GoogleCloud_pdf3.py:60 | a plain name that is not all dots, followed by one dotted extension, splits back into those two parts |
| Paths.SplitextLeadingDots | GoogleCloud_pdf3.py:60 | a name with only dots before its extension has no extension |
| Discovery.EndsWithOnly | GoogleCloud_pdf3.py:29 | with one accepted extension, `any(...endswith...)` is `endswith` of that extension |
| Discovery.EndsWithAny | GoogleCloud_pdf3.py:29 | the definition of the `any(...)` test; `Discovery.EndsWithOnly` and `Discovery.MatchingMembership` state its use |
| Discovery.Matching | GoogleCloud_pdf3.py:27-29 | the result is never longer than the listing |
| Discovery.GetFilesByExtensions | GoogleCloud_pdf3.py:15-33 | the loop returns exactly the filter `Matching` of the listing |
| Discovery.MatchingMembership | GoogleCloud_pdf3.py:28-32 | a path is returned if and only if it is the join of a listed name that ends with an accepted extension |
| Discovery.MatchingSound | GoogleCloud_pdf3.py:28-32 | every returned path is the join of a listed, accepted name |
| Discovery.MatchingComplete | GoogleCloud_pdf3.py:28-32 | the join of every listed, accepted name is returned |
| Discovery.MatchingAppend | GoogleCloud_pdf3.py:28-32 | the result keeps listing order: filtering two parts of a listing gives the two results in sequence |
| Discovery.MatchingNoExtensions | GoogleCloud_pdf3.py:29 | with an empty extension list nothing is returned |
| Discovery.MatchingInDirectory | GoogleCloud_pdf3.py:28-32 | for a listing of relative names, every returned path begins with the searched directory |
| Discovery.MatchingEndsWithExtension | GoogleCloud_pdf3.py:29-30 | every returned path itself ends with an accepted extension |
| Naming.InputKey | GoogleCloud_pdf3.py:61 | the definition of the upload key; `Naming.JobOfListedName` states it for listed names |
| Naming.GcsUri | GoogleCloud_pdf3.py:68 | the definition of a `gs://` URI; `Naming.JobOfListedName` and `Naming.IntendedDestinationUri` state its uses |
| Naming.DestinationUri | GoogleCloud_pdf3.py:73 | the definition of the OCR destination as written; `Naming.DestinationMatchesListing` and `Naming.DoublePdfMismatch` state its properties |
| Naming.ListingPrefix | GoogleCloud_pdf3.py:95 | the definition of the listing prefix; `Naming.IntendedDestinationIsListed` and `Naming.DestinationMatchesListing` state its properties |
| Naming.JobFor | GoogleCloud_pdf3.py:59-95 | the derived file name holds no `/` |
| Naming.JobNames | GoogleCloud_pdf3.py:59-60 | the file name ends the local path, and the base plus the removed extension gives the file name back |
| Naming.JobOfListedName | GoogleCloud_pdf3.py:59-68 | for a listed name, the file name is that name, the upload key is `input/` plus it, and the source URI is `gs://my-pdf-ocr-output/input/` plus it |
| Naming.IntendedDestinationUri | GoogleCloud_pdf3.py:95 | the destination is the `gs://` URI of `output/<base>/` in the bucket |
| Naming.IntendedDestinationIsListed | GoogleCloud_pdf3.py:95 | the listing prefix of every job is the object path of that destination |
| Naming.OnlyTrailingPdfReplaced | GoogleCloud_pdf3.py:73 | a name with a single, trailing `.pdf` is rewritten into its base plus `/` |
| Naming.FirstPdf | GoogleCloud_pdf3.py:73 | a name holding `.pdf` splits at its first `.pdf`, and `replace` rewrites that one and continues after it |
| Naming.ReplacedIntoOneSlash | GoogleCloud_pdf3.py:73 | a rewritten name that is a `/`-free root plus `/` came from that root plus `.pdf`, with no earlier `.pdf` |
| Naming.ReplacedIsOnlyTrailing | GoogleCloud_pdf3.py:73 | a name that `replace` rewrites into its base plus `/` has a single, trailing `.pdf` |
| Naming.ReplaceMatchesBase | GoogleCloud_pdf3.py:60-73 | for a `/`-free name, the rewrite gives the base plus `/` if and only if `.pdf` occurs only as the extension |
| Naming.NameDestinationMatchesListing | GoogleCloud_pdf3.py:73-95 | for a `/`-free name, the destination URI is the one the listing prefix stands for if and only if `.pdf` occurs only as the extension |
| Naming.DestinationMatchesListing | GoogleCloud_pdf3.py:59-95 | for every local path, the destination the OCR writes to and the prefix listed afterwards agree if and only if `.pdf` occurs in the file name only as its extension |
| Naming.TwoPdfsReplaced | GoogleCloud_pdf3.py:73 | in `x + ".pdf" + y + ".pdf"`, both occurrences are rewritten into `/` |
| Naming.DoublePdfBase | GoogleCloud_pdf3.py:60 | `splitext` of `x + ".pdf" + y + ".pdf"` removes only the last `.pdf` |
| Naming.DoublePdfPlaces | GoogleCloud_pdf3.py:73-95 | the destination of `x + ".pdf" + y + ".pdf"` is `"output/" + x + "/" + y + "/"`, not the intended one, and no key under it starts with the listing prefix |
| Naming.DoublePdfMismatch | GoogleCloud_pdf3.py:59-95 | for a file `x + ".pdf" + y + ".pdf"`, the OCR writes under `"output/" + x + "/" + y + "/"` while the results are listed under `"output/" + x + ".pdf" + y + "/"`, so none of them is ever listed |
| Naming.DestinationMismatchExample | GoogleCloud_pdf3.py:59-95 | for `a.pdf.b.pdf`, the OCR writes under `output/a/.b/` while the results are listed under `output/a.pdf.b/` |
| OcrResults.RawText | GoogleCloud_pdf3.py:117 | the definition of the `.get(...).get(...)` chain; `OcrResults.MissingTextIsNoText` states its missing-key cases |
| OcrResults.Responses | GoogleCloud_pdf3.py:116 | the definition of `data.get("responses", [])`; `OcrResults.NoResponsesHeaderOnly` states the missing case |
| OcrResults.CleanText | GoogleCloud_pdf3.py:117-118 | the cleaned text holds no newline |
| OcrResults.CleanTextEnds | GoogleCloud_pdf3.py:117-118 | the cleaned text is empty or begins and ends with a non-whitespace character |
| OcrResults.CleanTextIsStripOfReplaced | GoogleCloud_pdf3.py:117-118 | cleaning equals replacing newlines by spaces and stripping once |
| OcrResults.CleanTextIdempotent | GoogleCloud_pdf3.py:117-118 | cleaning a cleaned text changes nothing |
| OcrResults.ReplaceBreakBetween | GoogleCloud_pdf3.py:118 | the line break between two lines becomes one space |
| OcrResults.StrippedTrailingBreak | GoogleCloud_pdf3.py:117 | a stripped text followed by one line break strips back to that text |
| OcrResults.CleanTextJoinsLines | GoogleCloud_pdf3.py:117-118 | two visible lines each followed by a line break clean to the lines joined by a single space |
| OcrResults.CleanTextOfLine | GoogleCloud_pdf3.py:117-118 | one visible line followed by a line break cleans to the line |
| OcrResults.Cell | GoogleCloud_pdf3.py:119 | a cell is never empty and holds no newline |
| OcrResults.NoTextIsOneLine | GoogleCloud_pdf3.py:119 | the marker is a non-empty single line |
| OcrResults.CellIsCleanedOrMarker | GoogleCloud_pdf3.py:119 | the cell is the marker if and only if the cleaned text is empty or is the marker itself, and otherwise the cell is the cleaned text |
| OcrResults.MissingTextIsNoText | GoogleCloud_pdf3.py:117-119 | a response without `fullTextAnnotation` or without `text` gets the marker |
| OcrResults.CsvRows | GoogleCloud_pdf3.py:114-119 | the definition of the CSV's rows; `OcrResults.CsvRowsShape` states its shape |
| OcrResults.DataRows | GoogleCloud_pdf3.py:116-119 | one data row per response |
| OcrResults.DataRowsAt | GoogleCloud_pdf3.py:116-119 | data row `i` is the PDF's base name and the cell of response `i` |
| OcrResults.CsvRowAt | GoogleCloud_pdf3.py:114-119 | CSV row `i` after the header is the row of response `i - 1` |
| OcrResults.CsvRowsShape | GoogleCloud_pdf3.py:114-119 | the CSV is the header followed by exactly one two-cell row per response in order, each with the base name and a non-empty cell without newlines |
| OcrResults.NoResponsesHeaderOnly | GoogleCloud_pdf3.py:116 | a file without `responses` gives the header alone |
| OcrResults.SingleLineFile | GoogleCloud_pdf3.py:114-119 | one response holding one line and a line break gives the header and the row of the base name and that line |
| OcrResults.DataRowsSnoc | GoogleCloud_pdf3.py:116-119 | the rows of the first `i + 1` responses are those of the first `i` plus the row of response `i` |
| OcrResults.AppendRow | GoogleCloud_pdf3.py:116-119 | appending the row of response `i` to the rows so far gives the rows up to `i` |
| OcrResults.WriteCsv | GoogleCloud_pdf3.py:112-119 | the row-writing loop produces exactly `CsvRows` of the file |
| OcrResults.IsJson | GoogleCloud_pdf3.py:102 | the definition of the `.json` test; `OcrResults.JsonNamesMembership` and `OcrResults.FinalCsvNone` state its use |
| OcrResults.FinalCsv | GoogleCloud_pdf3.py:100-119 | the definition of what the CSV holds after the loop over listed objects; `OcrResults.FinalCsvIsLastJson` and `OcrResults.FinalCsvNone` state its properties |
| OcrResults.JsonNames | GoogleCloud_pdf3.py:100-105 | no more downloads than listed objects, and every downloaded name ends with `.json` |
| OcrResults.JsonNamesMembership | GoogleCloud_pdf3.py:100-105 | a name is downloaded if and only if it is listed and ends with `.json` |
| OcrResults.FinalCsvIsLastJson | GoogleCloud_pdf3.py:100-119 | the CSV ends up holding the rows of the last listed `.json` object |
| OcrResults.FinalCsvNone | GoogleCloud_pdf3.py:100-112 | no CSV is written if and only if no listed object ends with `.json` |
| OcrResults.ProcessBlobs | GoogleCloud_pdf3.py:100-119 | the loop over listed objects downloads exactly `JsonNames` and leaves exactly `FinalCsv` |
| Batch.CsvPath | GoogleCloud_pdf3.py:111 | the definition of the CSV path; `Batch.CsvFilesKeys` states which paths are written |
| Batch.JobCsv | GoogleCloud_pdf3.py:100-119 | the definition of what one PDF leaves in its CSV file; `Batch.JobCsvWrites` states when it writes |
| Batch.CsvFiles | GoogleCloud_pdf3.py:111-119 | the definition of the CSV files left after the loop; `Batch.CsvFilesKeys` and `Batch.CsvFileOfLastWriter` state its properties |
| Batch.Jobs | GoogleCloud_pdf3.py:57-60 | one job per found file |
| Batch.JobsSnoc | GoogleCloud_pdf3.py:57-95 | the jobs of the first `i + 1` paths are those of the first `i` plus the job of path `i` |
| Batch.JobsAt | GoogleCloud_pdf3.py:57-95 | job `i` is the job of found path `i` |
| Batch.ProcessPdfs | GoogleCloud_pdf3.py:50-119 | the loop over the found PDFs runs exactly the jobs `Jobs` of `Matching` in order, and leaves exactly the CSV files `CsvFiles` |
| Batch.CsvFilesSnoc | GoogleCloud_pdf3.py:111-119 | one more job adds or replaces its CSV file when it writes, and otherwise changes nothing |
| Batch.CsvFilesKeys | GoogleCloud_pdf3.py:111-112 | a CSV file exists if and only if some job wrote to its path |
| Batch.CsvFileOfLastWriter | GoogleCloud_pdf3.py:111-119 | a CSV file holds what the last job writing to its path wrote |
| Batch.JobCsvWrites | GoogleCloud_pdf3.py:100-112 | a job writes its CSV file if and only if a `.json` object is listed under its prefix |
| Batch.JobsAreListedPdfs | GoogleCloud_pdf3.py:42-61 | with the `.pdf` filter and plain listed names, every job is for a listed name ending with `.pdf`, uploaded to `input/` plus that name |

## Left out

- The Cloud Storage and Vision calls are left out: the clients, the upload, the OCR request and its 300-second wait, the listing and the downloads. They are network operations on foreign services. The model receives the listing as the `listBlobs` parameter, with each object already downloaded and parsed.
- `json.load`, the file encodings (`utf-8-sig`) and the CSV writer's quoting are left out. The parsed structure and the rows are modelled directly, not bytes.
- A JSON value of the wrong type is left out. That includes a `null`, which would make `.get(...)` or `.strip()` raise. `responses` is modelled as a list of objects, and `text` as a string or missing.
- Exceptions are left out. Any failure in the code ends the run, and the model has no failure paths.
- The local JSON copy at `tmp_OCR/<base>.json` is left out. The model records only which names are downloaded, not the file each download overwrites.
- The directory setup is left out: `os.makedirs`, the credential variable, and the hard-coded Windows paths.
- Windows path semantics are left out. Backslash separators and drive letters are not modelled, and `os.path` is the POSIX one.
- The `print` calls are left out.
- `str.replace` with an empty pattern is left out. The script only replaces `".pdf"` and `"\n"`.
- `Google_API3.py` is not part of this model. It holds the Drive sign-in, the Excel export and the Drive upload.
- The bucket is read as one fixed listing for the whole run. The model does not capture that one PDF's OCR job writes to the bucket between the listings of two PDFs. Two found PDFs with the same base, such as `.pdf` and `.pdf.pdf`, get the same listing in the model.
- `Batch.ProcessPdfs` returns only the CSV files this run writes, not files already in the output directory.
- `Paths.Basename` and `Naming.JobFor` state in their own contracts only that the file name holds no `/`. Their full relation to the path is in the lemmas `Paths.BasenameIsLastComponent` and `Naming.JobNames`.

## Findings

| source | as written | input that shows it | evidently intended | confidence | as-written member | corrected member |
|---|---|---|---|---|---|---|
| GoogleCloud_pdf3.py:73 | the OCR destination replaces every `.pdf` in the file name by `/` | a PDF named `a.pdf.b.pdf`: the OCR writes under `output/a/.b/`, but line 95 lists `output/a.pdf.b/`, so no result is found and no CSV is written | write the results under `output/<base>/`, the prefix that is listed afterwards | not executed | Naming.DoublePdfMismatch | Naming.IntendedDestinationUri |

`Naming.DestinationMatchesListing` proves that the two names agree if and
only if `.pdf` occurs in the file name only as its extension.
`Naming.DestinationMismatchExample` gives the concrete instance. The
corrected destination is `Naming.IntendedDestinationUri`, and
`Naming.IntendedDestinationIsListed` proves that it is always the prefix the
loop lists. The model of the loop keeps the destination as written in its
job record, and reads the results from that listed prefix.

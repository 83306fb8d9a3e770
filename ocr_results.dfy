/**
 * Turning the OCR service's results into CSV rows: the `.json` objects listed
 * under a PDF's prefix are downloaded and parsed, and each parsed file is
 * written out as a header row followed by one row per response, holding the
 * PDF's base name and its cleaned text.
 */
module OcrResults {
  import opened Wrappers
  import opened Text

  /** The `fullTextAnnotation` object of a response; its `text` key may be missing. */
  datatype TextAnnotation = TextAnnotation(text: Option<string>)

  /** One element of `responses`; its `fullTextAnnotation` key may be missing. */
  datatype Response = Response(fullTextAnnotation: Option<TextAnnotation>)

  /** A parsed result file; its `responses` key may be missing. */
  datatype ResultFile = ResultFile(responses: Option<seq<Response>>)

  /** A listed object: its name, and the result file it holds once downloaded and parsed. */
  datatype Blob = Blob(name: string, content: ResultFile)

  /** One CSV row. */
  type Row = seq<string>

  /** The header row written first into every CSV file. */
  const HEADER: Row := ["ファイル名", "OCR結果"]

  /** The cell written for a response without text. */
  const NO_TEXT := "（文字なし）"

  /** `response.get("fullTextAnnotation", {}).get("text", "")`. */
  function RawText(response: Response): string {
    match response.fullTextAnnotation
    case None => ""
    case Some(annotation) => annotation.text.GetOr("")
  }

  /** `text.strip()`, then every newline made a space, then `strip()` again. */
  function CleanText(text: string): (cleaned: string)
    ensures '\n' !in cleaned
  {
    var text := Strip(text);
    var spaced := ReplaceAll(text, "\n", " ");
    ReplaceCharPointwise(text, "\n", " ");
    assert '\n' !in spaced;
    StripKeepsCharacters(spaced, '\n');
    Strip(spaced)
  }

  /** The cleaned text neither begins nor ends with whitespace. */
  lemma CleanTextEnds(text: string)
    ensures var cleaned := CleanText(text);
      |cleaned| == 0 || (!IsSpace(cleaned[0]) && !IsSpace(cleaned[|cleaned| - 1]))
  {
    StripEnds(ReplaceAll(Strip(text), "\n", " "));
  }

  /** The text cell of a row: the cleaned text, or the no-text marker when nothing is left. */
  function Cell(text: string): (cell: string)
    ensures |cell| > 0 && '\n' !in cell
  {
    var cleaned := CleanText(text);
    if |cleaned| > 0 then cleaned else NoTextIsOneLine(); NO_TEXT
  }

  /** The no-text marker is a non-empty single line. */
  lemma NoTextIsOneLine()
    ensures |NO_TEXT| > 0 && '\n' !in NO_TEXT
  {
  }

  /**
   * The marker is written exactly when the cleaned text is empty (or is the
   * marker itself); any other cell is the cleaned text.
   */
  lemma CellIsCleanedOrMarker(text: string)
    ensures Cell(text) == NO_TEXT <==> (|CleanText(text)| == 0 || CleanText(text) == NO_TEXT)
    ensures Cell(text) != NO_TEXT ==> Cell(text) == CleanText(text)
  {
  }

  /** `data.get("responses", [])`. */
  function Responses(file: ResultFile): seq<Response> {
    file.responses.GetOr([])
  }

  /** One row per response, in order, each holding the PDF's base name and the response's cell. */
  function DataRows(pdfBase: string, responses: seq<Response>): (rows: seq<Row>)
    ensures |rows| == |responses|
  {
    if responses == [] then []
    else
      var n := |responses| - 1;
      DataRows(pdfBase, responses[..n]) + [[pdfBase, Cell(RawText(responses[n]))]]
  }

  /** The rows written for one result file: the header, then the data rows. */
  function CsvRows(pdfBase: string, file: ResultFile): seq<Row> {
    [HEADER] + DataRows(pdfBase, Responses(file))
  }

  /** The row for response `i` sits at index `i` of the data rows. */
  lemma {:induction false} DataRowsAt(pdfBase: string, responses: seq<Response>, i: int)
    requires 0 <= i < |responses|
    ensures DataRows(pdfBase, responses)[i] == [pdfBase, Cell(RawText(responses[i]))]
  {
    var n := |responses| - 1;
    var front := DataRows(pdfBase, responses[..n]);
    var last: Row := [pdfBase, Cell(RawText(responses[n]))];
    assert DataRows(pdfBase, responses) == front + [last];
    if i < n {
      DataRowsAt(pdfBase, responses[..n], i);
      assert responses[..n][i] == responses[i];
      assert (front + [last])[i] == front[i];
    } else {
      assert i == n;
    }
  }

  /**
   * The CSV holds the header and then exactly one two-cell row per response,
   * in order: the PDF's base name and a non-empty text without newlines.
   */
  lemma CsvRowsShape(pdfBase: string, file: ResultFile)
    ensures var rows := CsvRows(pdfBase, file);
      && |rows| == |Responses(file)| + 1
      && rows[0] == HEADER
      && forall i :: 1 <= i < |rows| ==>
           && rows[i] == [pdfBase, Cell(RawText(Responses(file)[i - 1]))]
           && |rows[i][1]| > 0 && '\n' !in rows[i][1]
  {
    forall i | 1 <= i < |CsvRows(pdfBase, file)|
      ensures CsvRows(pdfBase, file)[i] == [pdfBase, Cell(RawText(Responses(file)[i - 1]))]
    {
      CsvRowAt(pdfBase, file, i);
    }
  }

  /** Row `i` of the CSV, after the header, is the row of response `i - 1`. */
  lemma CsvRowAt(pdfBase: string, file: ResultFile, i: int)
    requires 1 <= i < |CsvRows(pdfBase, file)|
    ensures CsvRows(pdfBase, file)[i] == [pdfBase, Cell(RawText(Responses(file)[i - 1]))]
  {
    var data := DataRows(pdfBase, Responses(file));
    assert CsvRows(pdfBase, file)[i] == data[i - 1];
    DataRowsAt(pdfBase, Responses(file), i - 1);
  }

  /** A file without `responses` gives the header alone. */
  lemma NoResponsesHeaderOnly(pdfBase: string)
    ensures CsvRows(pdfBase, ResultFile(None)) == [HEADER]
  {
  }

  /** A response without `fullTextAnnotation` or without `text` reads as empty text and gets the no-text marker. */
  lemma MissingTextIsNoText(response: Response)
    requires response.fullTextAnnotation.None? || response.fullTextAnnotation.value.text.None?
    ensures Cell(RawText(response)) == NO_TEXT
  {
    assert RawText(response) == [];
    assert Strip([]) == [];
    assert ReplaceAll([], "\n", " ") == [];
  }

  /** Stripping before the newline replacement changes nothing: cleaning is replacing then stripping. */
  lemma CleanTextIsStripOfReplaced(text: string)
    ensures CleanText(text) == Strip(ReplaceAll(text, "\n", " "))
  {
    StripBeforeReplace(text, "\n", " ");
  }

  /** Cleaning an already cleaned text changes nothing. */
  lemma CleanTextIdempotent(text: string)
    ensures CleanText(CleanText(text)) == CleanText(text)
  {
    var cleaned := CleanText(text);
    CleanTextEnds(text);
    StripUnique(cleaned, 0, |cleaned|);
    assert Strip(cleaned) == cleaned;
    ReplaceCharAbsent(cleaned, "\n", " ");
    assert ReplaceAll(Strip(cleaned), "\n", " ") == cleaned;
  }

  /**
   * Two lines, each without line breaks, that begin and end with visible
   * characters: the break between them becomes one space and the trailing
   * break goes ("line one\nline two\n" gives "line one line two").
   */
  lemma CleanTextJoinsLines(first: string, second: string)
    requires '\n' !in first && '\n' !in second
    requires |first| > 0 && !IsSpace(first[0]) && |second| > 0 && !IsSpace(second[|second| - 1])
    ensures CleanText(first + "\n" + second + "\n") == first + " " + second
  {
    var stripped := first + "\n" + second;
    var spaced := first + " " + second;
    StrippedTrailingBreak(first + "\n" + second + "\n", stripped);
    ReplaceBreakBetween(first, second);
    StripUnique(spaced, 0, |spaced|);
  }

  /** The newline replacement turns the one break between two lines into a space. */
  lemma ReplaceBreakBetween(first: string, second: string)
    requires '\n' !in first && '\n' !in second
    ensures ReplaceAll(first + "\n" + second, "\n", " ") == first + " " + second
  {
    var lineBreak, space := "\n", " ";
    ReplaceCharConcat(first + lineBreak, second, lineBreak, space);
    ReplaceCharConcat(first, lineBreak, lineBreak, space);
    ReplaceCharAbsent(first, lineBreak, space);
    ReplaceCharAbsent(second, lineBreak, space);
    ReplaceWhole(lineBreak, space);
  }

  /** A text made of `stripped` and one trailing line break strips to `stripped`. */
  lemma StrippedTrailingBreak(text: string, stripped: string)
    requires |stripped| > 0 && !IsSpace(stripped[0]) && !IsSpace(stripped[|stripped| - 1])
    requires text == stripped + "\n"
    ensures Strip(text) == stripped
  {
    assert text[..|text| - 1] == stripped;
    StripUnique(text, 0, |text| - 1);
  }

  /** A single line with a trailing line break cleans to the line itself. */
  lemma CleanTextOfLine(line: string)
    requires |line| > 0 && '\n' !in line && !IsSpace(line[0]) && !IsSpace(line[|line| - 1])
    ensures CleanText(line + "\n") == line
  {
    StrippedTrailingBreak(line + "\n", line);
    ReplaceCharAbsent(line, "\n", " ");
    StripUnique(line, 0, |line|);
  }

  /**
   * A result file with one response whose text is one line and a line break
   * (a receipt's "TOTAL 1200円\n", say) gives the header and the row of the
   * PDF's base name and that line.
   */
  lemma SingleLineFile(pdfBase: string, line: string)
    requires |line| > 0 && '\n' !in line && !IsSpace(line[0]) && !IsSpace(line[|line| - 1])
    ensures CsvRows(pdfBase, ResultFile(Some([Response(Some(TextAnnotation(Some(line + "\n"))))])))
         == [HEADER, [pdfBase, line]]
  {
    var response := Response(Some(TextAnnotation(Some(line + "\n"))));
    CleanTextOfLine(line);
    assert Cell(RawText(response)) == line;
    assert DataRows(pdfBase, [response]) == [[pdfBase, line]] by {
      assert [response][..0] == [];
    }
  }

  /** The row the loop appends for response `i` extends the data rows of the responses before it. */
  lemma DataRowsSnoc(pdfBase: string, responses: seq<Response>, i: int)
    requires 0 <= i < |responses|
    ensures DataRows(pdfBase, responses[..i + 1])
         == DataRows(pdfBase, responses[..i]) + [[pdfBase, Cell(RawText(responses[i]))]]
  {
    var prefix := responses[..i + 1];
    assert prefix[..i] == responses[..i];
    assert prefix[i] == responses[i];
  }

  /** Appending the row for response `i` to the header and the rows before it gives the rows up to `i`. */
  lemma AppendRow(pdfBase: string, responses: seq<Response>, i: int, rows: seq<Row>)
    requires 0 <= i < |responses| && rows == [HEADER] + DataRows(pdfBase, responses[..i])
    ensures rows + [[pdfBase, Cell(RawText(responses[i]))]] == [HEADER] + DataRows(pdfBase, responses[..i + 1])
  {
    DataRowsSnoc(pdfBase, responses, i);
  }

  /** The rows-writing loop: the header, then one row per response. */
  method WriteCsv(pdfBase: string, file: ResultFile) returns (rows: seq<Row>)
    ensures rows == CsvRows(pdfBase, file)
  {
    rows := [HEADER];
    var responses := Responses(file);
    for i := 0 to |responses|
      invariant rows == [HEADER] + DataRows(pdfBase, responses[..i])
    {
      var text := Strip(RawText(responses[i]));
      var cleanedText := Strip(ReplaceAll(text, "\n", " "));
      var cell := if |cleanedText| > 0 then cleanedText else NO_TEXT;
      assert cell == Cell(RawText(responses[i]));
      AppendRow(pdfBase, responses, i, rows);
      rows := rows + [[pdfBase, cell]];
    }
    assert responses[..|responses|] == responses;
  }

  /** The object is a result file: its name ends with ".json". */
  predicate IsJson(name: string) {
    EndsWith(name, ".json")
  }

  /** The names of the listed objects that are downloaded, in listing order. */
  function JsonNames(blobs: seq<Blob>): (names: seq<string>)
    ensures |names| <= |blobs|
    ensures forall name :: name in names ==> IsJson(name)
  {
    if blobs == [] then []
    else
      var n := |blobs| - 1;
      JsonNames(blobs[..n]) + (if IsJson(blobs[n].name) then [blobs[n].name] else [])
  }

  /**
   * What the CSV file holds once every listed object has been handled: each
   * ".json" object rewrites it from scratch, so the last one's rows remain;
   * `None` when no object was a ".json" one and the file was never written.
   */
  function FinalCsv(pdfBase: string, blobs: seq<Blob>): Option<seq<Row>> {
    if blobs == [] then None
    else
      var n := |blobs| - 1;
      if IsJson(blobs[n].name) then Some(CsvRows(pdfBase, blobs[n].content)) else FinalCsv(pdfBase, blobs[..n])
  }

  /** An object is downloaded exactly when it is listed and its name ends with ".json". */
  lemma {:induction false} JsonNamesMembership(blobs: seq<Blob>, name: string)
    ensures name in JsonNames(blobs) <==> exists i :: 0 <= i < |blobs| && blobs[i].name == name && IsJson(name)
  {
    if blobs != [] {
      var n := |blobs| - 1;
      JsonNamesMembership(blobs[..n], name);
      if exists i :: 0 <= i < |blobs| && blobs[i].name == name && IsJson(name) {
        var i :| 0 <= i < |blobs| && blobs[i].name == name && IsJson(name);
        if i < n { assert blobs[..n][i] == blobs[i]; }
      }
    }
  }

  /** The CSV file ends up holding the rows of the last ".json" object listed. */
  lemma {:induction false} FinalCsvIsLastJson(pdfBase: string, blobs: seq<Blob>, j: int)
    requires 0 <= j < |blobs| && IsJson(blobs[j].name)
    requires forall k :: j < k < |blobs| ==> !IsJson(blobs[k].name)
    ensures FinalCsv(pdfBase, blobs) == Some(CsvRows(pdfBase, blobs[j].content))
  {
    var n := |blobs| - 1;
    if j < n {
      assert !IsJson(blobs[n].name);
      assert FinalCsv(pdfBase, blobs) == FinalCsv(pdfBase, blobs[..n]);
      assert blobs[..n][j] == blobs[j];
      assert forall k :: j < k < n ==> blobs[..n][k] == blobs[k];
      FinalCsvIsLastJson(pdfBase, blobs[..n], j);
    } else {
      assert j == n;
    }
  }

  /** No CSV file is written exactly when no listed object is a ".json" one. */
  lemma {:induction false} FinalCsvNone(pdfBase: string, blobs: seq<Blob>)
    ensures FinalCsv(pdfBase, blobs) == None <==> forall k :: 0 <= k < |blobs| ==> !IsJson(blobs[k].name)
  {
    if blobs != [] {
      var n := |blobs| - 1;
      FinalCsvNone(pdfBase, blobs[..n]);
      assert forall k :: 0 <= k < n ==> blobs[..n][k] == blobs[k];
    }
  }

  /**
   * The loop over the listed objects: each ".json" one is downloaded and its
   * rows are written to the PDF's CSV file, replacing what was there.
   */
  method ProcessBlobs(pdfBase: string, blobs: seq<Blob>) returns (downloaded: seq<string>, csv: Option<seq<Row>>)
    ensures downloaded == JsonNames(blobs)
    ensures csv == FinalCsv(pdfBase, blobs)
  {
    downloaded, csv := [], None;
    for i := 0 to |blobs|
      invariant downloaded == JsonNames(blobs[..i])
      invariant csv == FinalCsv(pdfBase, blobs[..i])
    {
      var blob := blobs[i];
      assert blobs[..i + 1][..i] == blobs[..i];
      if IsJson(blob.name) {
        downloaded := downloaded + [blob.name];
        var rows := WriteCsv(pdfBase, blob.content);
        csv := Some(rows);
      }
    }
    assert blobs[..|blobs|] == blobs;
  }
}

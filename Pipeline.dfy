/** The end-to-end flow `ECourtsScraper.generate_pdf_for_date`: try to fill
    the popup, wait for the results table (longer, and twice, when the user
    may fill the popup by hand), parse it, name the output files after the
    query and produce the PDF, JSON and CSV exports. */
module Pipeline {
  import opened PyText
  import opened TableParse
  import opened FormNavigator
  import opened TableWait
  import opened Export

  /** What the caller asks for; `None` is a Python `None` argument. */
  datatype Query = Query(state: Option<string>, district: Option<string>, courtComplex: Option<string>, date: string)

  /** What the browser shows during one run: the popup's elements, the
      popup's button texts, and what the table selectors find at each poll
      of the first and of the second table wait. */
  datatype Browser = Browser(page: Page, buttons: seq<string>, firstWait: seq<Poll>, secondWait: seq<Poll>)

  /** The dictionary returned: every path `None` with no data when no table
      appeared; the three paths, the records and (in place of the files)
      what was written otherwise. `Raised` is the exception `parse_table`
      propagates for a table whose rows cannot be read. */
  datatype Outcome =
    | NoTable
    | Raised
    | Saved(pdf: string, json: string, csv: string, data: seq<Record>,
            columns: seq<string>, pdfDoc: seq<Op>, csvFile: Option<CsvFile>)

  /** ReportLab's A4 page, in whole points. */
  const PageWidth: int := 595
  const PageHeight: int := 841

  const ManualTimeout: nat := 90
  const RetryTimeout: nat := 30
  const AutoTimeout: nat := 30

  // ------------------------------------------------------------ file names

  /** `re.sub(r'\W+', '_', x or default)`. */
  function Part(x: Option<string>, default: string): string {
    Sanitize(if x.Some? && x.value != [] then x.value else default)
  }

  /** A file-name part is a non-empty run of word characters: the caller's
      text with its non-word runs collapsed, or the default when the
      argument is `None` or empty; no letter or digit is lost or added. */
  lemma PartShape(x: Option<string>, default: string)
    requires AllWord(default) && default != []
    ensures Part(x, default) != [] && AllWord(Part(x, default))
    ensures x.None? || x.value == [] ==> Part(x, default) == default
    ensures x.Some? && x.value != [] ==> Alnums(Part(x, default)) == Alnums(x.value)
  {
    if x.Some? && x.value != [] {
      SanitizeKeepsAlnums(x.value);
    } else {
      SanitizeKeepsWords(default);
    }
  }

  /** `f"{safe_state}_{safe_dist}_{safe_complex}_{date_str}"`; the date is
      used as given. */
  function BaseName(q: Query): string {
    Part(q.state, "state") + "_" + Part(q.district, "dist") + "_" + Part(q.courtComplex, "complex") + "_" + q.date
  }

  /** `os.path.join(dir, name)` with POSIX rules: an absolute `name` wins;
      otherwise a separator is inserted unless `dir` is empty or already
      ends with one. */
  function Join(dir: string, name: string): string {
    if name != [] && name[0] == '/' then name
    else if dir == [] || dir[|dir| - 1] == '/' then dir + name
    else dir + "/" + name
  }

  predicate EndsWith(s: string, suffix: string) {
    |suffix| <= |s| && s[|s| - |suffix|..] == suffix
  }

  /** The base name starts with a word character (never with a path
      separator). */
  lemma BaseNameStart(q: Query)
    ensures BaseName(q) != [] && IsWordChar(BaseName(q)[0])
  {
    PartShape(q.state, "state");
    var first := Part(q.state, "state");
    assert BaseName(q)[0] == first[0];
  }

  /** Paths with different last characters differ. */
  lemma DistinctEndings(a: string, b: string, sa: string, sb: string)
    requires sa != [] && sb != [] && EndsWith(a, sa) && EndsWith(b, sb)
    requires sa[|sa| - 1] != sb[|sb| - 1]
    ensures a != b
  {
    assert a[|a| - 1] == sa[|sa| - 1];
    assert b[|b| - 1] == sb[|sb| - 1];
  }

  /** The directory part of a joined relative path: the directory, with a
      separator added unless it is empty or already ends with one. */
  function DirPrefix(dir: string): string {
    if dir == [] || dir[|dir| - 1] == '/' then dir else dir + "/"
  }

  /** Joining a relative name places it right after the directory part. */
  lemma JoinRelative(dir: string, name: string)
    requires name != [] && name[0] != '/'
    ensures Join(dir, name) == DirPrefix(dir) + name
  {
  }

  /** Three exports named `base` plus an extension get paths that differ
      only in their extensions. */
  lemma ExportPaths(dir: string, base: string)
    requires base != [] && base[0] != '/'
    ensures Join(dir, base + ".pdf") == DirPrefix(dir) + base + ".pdf"
    ensures Join(dir, base + ".json") == DirPrefix(dir) + base + ".json"
    ensures Join(dir, base + ".csv") == DirPrefix(dir) + base + ".csv"
    ensures Join(dir, base + ".pdf") != Join(dir, base + ".json")
    ensures Join(dir, base + ".pdf") != Join(dir, base + ".csv")
    ensures Join(dir, base + ".json") != Join(dir, base + ".csv")
  {
    var pdf := Join(dir, base + ".pdf");
    var json := Join(dir, base + ".json");
    var csv := Join(dir, base + ".csv");
    JoinRelative(dir, base + ".pdf");
    JoinRelative(dir, base + ".json");
    JoinRelative(dir, base + ".csv");
    JoinKeepsName(dir, base + ".pdf");
    JoinKeepsName(dir, base + ".json");
    JoinKeepsName(dir, base + ".csv");
    DistinctEndings(pdf, json, base + ".pdf", base + ".json");
    DistinctEndings(pdf, csv, base + ".pdf", base + ".csv");
    DistinctEndings(json, csv, base + ".json", base + ".csv");
  }

  /** The three exports of a query share its base name, which starts with a
      word character: each path is the directory part followed by the base
      name and the export's own extension, and the three paths differ. */
  lemma OutputPaths(dir: string, q: Query)
    ensures var base := BaseName(q);
      && base != [] && IsWordChar(base[0])
      && Join(dir, base + ".pdf") == DirPrefix(dir) + base + ".pdf"
      && Join(dir, base + ".json") == DirPrefix(dir) + base + ".json"
      && Join(dir, base + ".csv") == DirPrefix(dir) + base + ".csv"
      && Join(dir, base + ".pdf") != Join(dir, base + ".json")
      && Join(dir, base + ".pdf") != Join(dir, base + ".csv")
      && Join(dir, base + ".json") != Join(dir, base + ".csv")
  {
    BaseNameStart(q);
    ExportPaths(dir, BaseName(q));
  }

  /** The joined path ends with the name that was joined. */
  lemma JoinKeepsName(dir: string, name: string)
    ensures EndsWith(Join(dir, name), name)
  {
    var p := Join(dir, name);
    assert p[|p| - |name|..] == name;
  }

  /** `f"Cause List - {state} / {district} / {court_complex}"`. */
  function Title(q: Query): string {
    "Cause List - " + Show(q.state) + " / " + Show(q.district) + " / " + Show(q.courtComplex)
  }

  /** `f"{x}"` for an optional string. */
  function Show(x: Option<string>): string {
    if x.Some? then x.value else "None"
  }

  // ------------------------------------------------------ the whole flow

  /** The polls a wait with this timeout gets to make. */
  function Window(timeout: nat, polls: seq<Poll>): seq<Poll> {
    polls[..if timeout < |polls| then timeout else |polls|]
  }

  /** Whether `try_auto_fill_popup` reports success. */
  ghost predicate Filled(b: Browser, q: Query) {
    AutoFillSucceeds(b.page, q.state, q.district, q.courtComplex)
  }

  /** Whether the flow takes the manual-fill branch, with its long wait and
      its retry. */
  ghost predicate Manual(b: Browser, q: Query, allowManualFill: bool) {
    !Filled(b, q) && allowManualFill
  }

  /** The table the flow goes on with, if any. */
  ghost function TableFound(b: Browser, q: Query, allowManualFill: bool): Option<Table> {
    if Manual(b, q, allowManualFill) then
      (if FoundTable(Window(ManualTimeout, b.firstWait)).Some? then FoundTable(Window(ManualTimeout, b.firstWait))
       else FoundTable(Window(RetryTimeout, b.secondWait)))
    else FoundTable(Window(AutoTimeout, b.firstWait))
  }

  /** What is written for the records `data` under the file base name of
      `q`, with PDF columns in the order `columns`. */
  ghost predicate SavedFor(o: Outcome, dir: string, q: Query, rows: seq<Row>) {
    && o.Saved?
    && o.data == TableRecords(rows)
    && o.pdf == Join(dir, BaseName(q) + ".pdf")
    && o.json == Join(dir, BaseName(q) + ".json")
    && o.csv == Join(dir, BaseName(q) + ".csv")
    && NoDup(o.columns)
    && (forall k :: k in o.columns <==> k in AllKeys(o.data))
    && (o.data == [] ==> o.pdfDoc == EmptyLayout(Title(q), PageHeight))
    && (o.data != [] ==> o.columns != [] && o.pdfDoc == Layout(o.data, o.columns, Title(q), PageWidth, PageHeight))
    && (o.csvFile.None? <==> o.data == [])
    && (o.csvFile.Some? ==> NoDup(o.csvFile.value.fields))
    && (o.csvFile.Some? ==> forall k :: k in o.csvFile.value.fields <==> k in AllKeys(o.data))
    && (o.csvFile.Some? ==> |o.csvFile.value.rows| == |o.data|)
    && (o.csvFile.Some? ==> forall i :: 0 <= i < |o.data| ==>
          && o.csvFile.value.rows[i].Keys == AllKeys(o.data)
          && forall k :: k in o.csvFile.value.rows[i] ==>
               o.csvFile.value.rows[i][k] == (if k in o.data[i] then o.data[i][k] else ""))
  }

  /** Parsed records always have a key, so the PDF always gets columns and
      its column-width division never fails. */
  lemma ParsedDataHasKeys(rows: seq<Row>)
    ensures TableRecords(rows) != [] ==> AllKeys(TableRecords(rows)) != {}
  {
    var data := TableRecords(rows);
    if data != [] {
      RecordsNonEmpty(Headers(rows[0]), rows[1..]);
      AllKeysExact(data);
      var k :| k in data[0];
      assert k in AllKeys(data);
    }
  }

  /** The tail of `generate_pdf_for_date` once a readable table is found:
      parse it, name the files after the query, and produce the PDF and the
      CSV. */
  method ExportTable(downloadDir: string, q: Query, rows: seq<Row>) returns (outcome: Outcome)
    ensures SavedFor(outcome, downloadDir, q, rows)
  {
    var data := ParseTable(rows);
    var base := BaseName(q);
    var pdfPath := Join(downloadDir, base + ".pdf");
    var jsonPath := Join(downloadDir, base + ".json");
    var csvPath := Join(downloadDir, base + ".csv");
    ParsedDataHasKeys(rows);
    var columns, doc := GeneratePdf(data, Title(q), PageWidth, PageHeight);
    var csvFile := SaveCsv(data);
    return Saved(pdfPath, jsonPath, csvPath, data, columns, doc.value, csvFile);
  }

  /** `generate_pdf_for_date`. `waits` lists the timeouts of the table
      waits made, in order. */
  method GeneratePdfForDate(downloadDir: string, q: Query, allowManualFill: bool, b: Browser)
    returns (waits: seq<nat>, outcome: Outcome)
    ensures Manual(b, q, allowManualFill) ==>
      waits == (if FoundTable(Window(ManualTimeout, b.firstWait)).Some? then [ManualTimeout] else [ManualTimeout, RetryTimeout])
    ensures !Manual(b, q, allowManualFill) ==> waits == [AutoTimeout]
    ensures outcome.NoTable? <==> TableFound(b, q, allowManualFill).None?
    ensures outcome.Raised? <==> TableFound(b, q, allowManualFill) == Some(Unreadable)
    ensures TableFound(b, q, allowManualFill).Some? && TableFound(b, q, allowManualFill).value.Readable? ==>
      SavedFor(outcome, downloadDir, q, TableFound(b, q, allowManualFill).value.rows)
  {
    var filled, _, _, _, _ := TryAutoFillPopup(b.page, q.state, q.district, q.courtComplex, b.buttons);
    var table: Option<Table>;
    if !filled && allowManualFill {
      table := WaitForTable(ManualTimeout, b.firstWait);
      waits := [ManualTimeout];
      if table.None? {
        table := WaitForTable(RetryTimeout, b.secondWait);
        waits := waits + [RetryTimeout];
      }
    } else {
      table := WaitForTable(AutoTimeout, b.firstWait);
      waits := [AutoTimeout];
    }
    if table.None? {
      return waits, NoTable;
    }
    match table.value
    case Unreadable =>
      return waits, Raised;
    case Readable(rows) =>
      outcome := ExportTable(downloadDir, q, rows);
  }
}

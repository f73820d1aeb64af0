# eCourts cause-list scraper: a Dafny model of its core

This project models the deterministic core of the eCourts cause-list
scraper. That core is `scraper/ecourts_scraper.py` and `scraper/utils.py`:

- **Form navigator** (`_find_and_select_option`, `try_auto_fill_popup`).
  For each of the state, district and court-complex fields it tries a fixed
  list of element ids in order. It clicks the first option whose stripped,
  lower-cased text contains the requested text, then clicks the first
  "proceed"/"submit"/"ok" button.
- **Table discovery** (`wait_for_table`). It polls the page once a second,
  trying six table selectors in order. It stops at the first table that has
  a row, or whose rows cannot be read. If the timeout passes first, it
  raises `TimeoutError`.
- **Table extraction** (`parse_table`). The first row gives the column
  names: `th` cells, otherwise `td` cells. A blank name becomes `col{i}`.
  Every later row with `td` cells becomes a dict. A cell past the last
  header is keyed `col{i+1}`.
- **Exporters** (`save_csv`, `generate_pdf`).
  - The CSV uses the union of all keys, and fills missing values with `""`.
  - The PDF has a title, a timestamp, an upper-cased header band and one
    line per record. Cells are truncated to a budget derived from the
    column width. A page break repeats the header band.
- **Flow** (`generate_pdf_for_date`). It tries the auto-fill. It waits
  90 s and then retries for 30 s when a manual fill is allowed and the
  auto-fill did nothing; otherwise it waits 30 s. It then parses the
  table, derives the file names from the query and writes the three
  exports.

The modules are:

- `PyText`: the Python string operations the code relies on.
  - `str.strip` uses the `str.isspace` character set.
  - `lower`/`upper` and `\w` are ASCII.
  - Also `in` on strings, `re.sub(r'\W+', '_', s)` and `f"col{i}"`.
- `TableParse`: the table extractor.
- `FormNavigator`: the popup filler.
- `TableWait`: the table wait.
- `Export`: `save_csv` and `generate_pdf`.
- `Pipeline`: `generate_pdf_for_date`.

The browser is replaced by values:

- The popup is a map from element id to element. An element records
  whether it is a `<select>`, its option texts and whether clicking
  raises.
- Each table wait sees a sequence of polls. A poll records what each
  selector finds.
- A table is its rows of `th`/`td` texts.

Files are replaced by what would be written:

- For the CSV: the field list and the normalised rows.
- For the PDF: the list of canvas operations, with their `y` positions
  and texts.

## Model

| member | source | states |
|---|---|---|
| PyText.StripShape | scraper/ecourts_scraper.py:226 | the stripped text is the original with only `str.isspace` whitespace removed, from its two ends; it neither starts nor ends with whitespace |
| PyText.StripBlank | scraper/ecourts_scraper.py:226 | a text strips to "" exactly when every character of it is `str.isspace` whitespace (the blank test of header cells and option targets) |
| PyText.StripIdempotent | scraper/ecourts_scraper.py:226 | stripping an already stripped header name leaves it unchanged |
| PyText.LowerShape | scraper/ecourts_scraper.py:118-120 | `.lower()` keeps the length, turns each ASCII capital into its small letter, keeps every other character, and leaves no capital behind |
| PyText.UpperShape | scraper/utils.py:80 | `.upper()` of a header keeps the length, turns each ASCII small letter into its capital, keeps every other character, and leaves no small letter behind |
| PyText.Sanitize | scraper/ecourts_scraper.py:278-280 | the sanitised part consists only of word characters, is no longer than the input, and is empty only for empty input |
| PyText.SanitizeKeepsWords | scraper/ecourts_scraper.py:278-280 | a string of word characters (such as the defaults "state", "dist", "complex") is left as it is |
| PyText.SanitizeIdempotent | scraper/ecourts_scraper.py:278-280 | sanitising twice gives the same as sanitising once |
| PyText.SanitizeKeepsAlnums | scraper/ecourts_scraper.py:278-280 | sanitising keeps every letter and digit in order and adds none |
| PyText.SanitizeWordPrefix | scraper/ecourts_scraper.py:278-280 | a leading run of word characters, underscores included, is copied unchanged |
| PyText.SanitizeNonWordRun | scraper/ecourts_scraper.py:278-280 | a maximal run of non-word characters becomes exactly one `_` |
| PyText.ReplaceNewlines | scraper/utils.py:89 | the cell value keeps its length, every newline becomes a space, and every other character is unchanged |
| PyText.NatToString | scraper/ecourts_scraper.py:226 | `str(i)` is a non-empty string of decimal digits with no leading zero (only 0 itself starts with "0") |
| PyText.DecimalRoundTrip | scraper/ecourts_scraper.py:226 | reading the decimal text of `i` back gives `i` |
| PyText.ColName | scraper/ecourts_scraper.py:226 | a placeholder name is "col" followed by at least one character |
| PyText.ColNameInjective | scraper/ecourts_scraper.py:226 | distinct positions get distinct placeholder names `col{i}` |
| PyText.ColNameNotBlank | scraper/ecourts_scraper.py:226 | a placeholder name is unchanged by `strip`, so it is never blank |
| TableParse.HeaderNaming | scraper/ecourts_scraper.py:222-226 | there is one name per header cell, with `th` cells preferred over `td` cells; a cell with visible text is named by its stripped text and a blank one by `col{position}`; no name is blank or unstripped |
| TableParse.RowRecordKeys | scraper/ecourts_scraper.py:232-235 | a row's dict holds exactly the keys of its cells: the header at each position, or `col{i+1}` past the headers |
| TableParse.RowRecordValues | scraper/ecourts_scraper.py:233-235 | under each key the dict holds the stripped text of the last cell with that key (later duplicates overwrite earlier ones) |
| TableParse.DataRows | scraper/ecourts_scraper.py:228-231 | the rows kept are rows of the table that have `td` cells, and every row with `td` cells is kept |
| TableParse.DataRowsAppend | scraper/ecourts_scraper.py:228-231 | the kept rows stay in table order: the kept rows of two consecutive stretches are those of the first, then those of the second |
| TableParse.RecordsAreDataRows | scraper/ecourts_scraper.py:228-236 | there is one record per row with `td` cells, in table order; the header row and cell-less rows are skipped |
| TableParse.RecordsNonEmpty | scraper/ecourts_scraper.py:229-236 | no record is an empty dict |
| TableParse.RowDict | scraper/ecourts_scraper.py:232-235 | the cell loop builds exactly the row's dict, each cell stored under its key |
| TableParse.ParseTable | scraper/ecourts_scraper.py:211-237 | the nested loops return `[]` for a table with no rows, and otherwise the records of the rows after the header row |
| FormNavigator.FindAndSelectOption | scraper/ecourts_scraper.py:114-124 | clicks the first option whose stripped lower-cased text contains the stripped lower-cased target; reports none exactly when no option matches; an empty or `None` target never clicks |
| FormNavigator.ScanField | scraper/ecourts_scraper.py:138-168 | the field's candidate ids are tried in order; the first id that is located (and is a `<select>` for the state field), and whose click does not raise, settles the field; there is no result exactly when no id settles |
| FormNavigator.ProceedButtonFrom | scraper/ecourts_scraper.py:170-176 | selects the first button whose ASCII-lower-cased text contains "proceed", "submit" or "ok", or none when no button does |
| FormNavigator.TryAutoFillPopup | scraper/ecourts_scraper.py:126-178 | each of the three fields is scanned in turn; the result is true exactly when at least one field can be settled; the proceed button clicked is the first matching one |
| TableWait.FirstInPoll | scraper/ecourts_scraper.py:195-205 | within one poll, the result is the table of the first selector whose table has a row or cannot be read, or none when no selector yields one |
| TableWait.FoundTableIsFirstHit | scraper/ecourts_scraper.py:193-208 | the table found is the first acceptable one, by poll and then by selector order; a timeout happens exactly when no poll finds one |
| TableWait.WaitForTable | scraper/ecourts_scraper.py:180-208 | the polling loops return the first acceptable table among the polls that fit in the timeout, or the timeout |
| Export.AllKeysExact | scraper/utils.py:29-31 | a key is in the union exactly when some record has it |
| Export.ListOfSet | scraper/utils.py:32 | `list(set)` lists every member of the set once and nothing else |
| Export.KeyUnion | scraper/utils.py:69-73 | the column list is duplicate-free and holds exactly the keys of all records |
| Export.SaveCsv | scraper/utils.py:19-43 | nothing is written for no records; otherwise the fields are the union of keys, without duplicates; there is one row per record, each with every field, holding the record's value or "" |
| Export.NormalizeKeepsValues | scraper/utils.py:35-37 | widening a record loses no key and changes no value |
| Export.MaxCharsFloor | scraper/utils.py:91 | `int(col_width // 6)` is the floor: that many 6-point characters per column fit in the usable width `width - 80`, and one more per column would not |
| Export.PyStop | scraper/utils.py:93 | the stop index Python uses for `value[:stop]` lies within the value |
| Export.TruncateFits | scraper/utils.py:91-93 | with a budget of at least 3, a longer value becomes its first `max_chars - 3` characters plus "...", exactly `max_chars` long; a value within budget is kept |
| Export.TruncateNarrow | scraper/utils.py:91-93 | with a budget under 3, the negative slice keeps all but `3 - max_chars` characters and appends "...", so the text gets no shorter |
| Export.DrawHeaderBand | scraper/utils.py:77-82 | the header loop appends the band of upper-cased headers, one per column, at the cursor |
| Export.DrawRow | scraper/utils.py:86-95 | the cell loop appends one cell per column at the cursor: the value with newlines replaced and then truncated |
| Export.DrawRowStep | scraper/utils.py:86-107 | one pass of the row loop appends the row's cells, plus a page break and a fresh header band when the cursor drops below 60, and moves the cursor accordingly |
| Export.DrawRows | scraper/utils.py:85-107 | the row loop appends exactly the layout of all records from the starting cursor |
| Export.RowsOpsSnoc | scraper/utils.py:85-107 | adding a record appends its operations at the cursor the earlier records leave; the layout of the earlier records does not change |
| Export.TrailingHeaderPage | scraper/utils.py:96-109 | when the last record trips the page break, the document ends with a page that holds only the header band |
| Export.CellsAboveBottom | scraper/utils.py:96-99 | if the first row of each page starts at or above the bottom margin, no cell is drawn below it |
| Export.RowOpsTexts | scraper/utils.py:86-107 | one record contributes exactly its truncated values, column by column, whether or not a page break follows |
| Export.RowsOpsTexts | scraper/utils.py:85-107 | the cells drawn are every record's truncated values, record by record, however the pages break |
| Export.PageBreakRedrawsHeader | scraper/utils.py:97-106 | every page break is immediately followed by the header band at the top of the new page |
| Export.LayoutTexts | scraper/utils.py:54-107 | the cells of the whole document are every record's truncated values, record by record and column by column |
| Export.LayoutBands | scraper/utils.py:76-106 | every page break in the whole document is immediately followed by the header band |
| Export.LayoutAboveBottom | scraper/utils.py:54-99 | on a page at least 190 points tall (A4 is 841), no cell of the document falls below the bottom margin |
| Export.GeneratePdf | scraper/utils.py:45-110 | no records give the title, timestamp and "No data available." page; otherwise the columns are the duplicate-free union of keys and the document is the full layout; no columns at all is the `ZeroDivisionError` |
| Pipeline.PartShape | scraper/ecourts_scraper.py:278-280 | each file-name part is a non-empty run of word characters: the default for `None` or "", and otherwise the argument's letters and digits, in order |
| Pipeline.JoinKeepsName | scraper/ecourts_scraper.py:282-284 | `os.path.join(dir, name)` ends with `name` |
| Pipeline.ExportPaths | scraper/ecourts_scraper.py:282-284 | the three exports of a relative base name get the directory part, the base name and their own extension, and the three paths are pairwise distinct |
| Pipeline.OutputPaths | scraper/ecourts_scraper.py:278-284 | the base name of a query starts with a word character; each of the three paths is, as text, the directory part followed by the base name and its own extension; the three paths are pairwise distinct |
| Pipeline.ParsedDataHasKeys | scraper/ecourts_scraper.py:277-286 | parsed records always have a key, so the PDF export of a parsed table never divides by zero columns |
| Pipeline.ExportTable | scraper/ecourts_scraper.py:277-290 | a readable table's records are parsed and named after the sanitised query; the PDF is the layout of the records (or the no-data page); the CSV is absent for no records, and otherwise has the duplicate-free union of keys as fields and one widened row per record, in order |
| Pipeline.GeneratePdfForDate | scraper/ecourts_scraper.py:239-290 | waits are 90 s then a 30 s retry on the manual branch, and a single 30 s on the auto-filled branch; no table gives the empty result; an unreadable table propagates the exception; otherwise the outcome is what the export step produces for the table's rows: the parsed records, the paths, the PDF layout and the CSV with one widened row per record |

## Left out

- Browser control is not modelled: the Selenium sessions, attaching to or
  launching Chrome, `open_page`, `close` and the 1.2 s / 2 s sleeps.
  Those are I/O; the page and the polls are inputs instead.
- Time is not modelled. A wait with timeout `t` is taken to make at most
  `t` polls, one per second.
- The explicit waits inside `try_auto_fill_popup` are not modelled. Each
  is reduced to the located or not located outcome recorded in the page map.
- The `try`/`except` around `try_auto_fill_popup` is not modelled. Every
  step in it is already guarded, so the model never raises there.
- Files are not written. The model gives what would be written: the CSV
  fields and rows, and the PDF canvas operations. The JSON file holds the
  records themselves. CSV quoting and JSON formatting are not modelled.
- Export.GeneratePdf: column x positions, fonts and the centred title's x
  are not modelled. The timestamp is `DrawTimestamp` without its clock
  text.
- Export.GeneratePdf: page geometry is in whole points (A4 595 x 841).
  ReportLab's fractional sizes give the same truncation budget and the
  same page-break decisions, because the budget is a floor
  (Export.MaxCharsFloor) and the cursor only moves by whole points.
- PyText.Lower / PyText.Upper: only ASCII letters change case, where
  Python's `str.lower`/`str.upper` is full Unicode. The XPath `translate`
  in the proceed-button search is ASCII in the source too.
- PyText.Sanitize: word characters are ASCII letters, digits and `_`.
  Python's `\w` on `str` is Unicode, so a query with non-ASCII letters
  keeps them in Python but has them replaced by `_` here.
- Record is a map, so dict insertion order is not modelled. That order
  only affects the JSON key order. The CSV and PDF column order comes
  from `list(set(...))`, which Python leaves unspecified; so does the model.
- `streamlit_app.py` and `scraper/dcourts_scraper.py` are not part of this
  model: a UI front end and a stub.
- Join follows POSIX `os.path.join`. Windows drive and backslash rules are
  not modelled.
- Pipeline.OutputPaths: the paths are related as text only. The date goes
  into the file name as given, without sanitising. A date holding `/..`
  would name a file outside the download directory once the path is
  resolved. Path resolution is not modelled. The one caller,
  `streamlit_app.py:37`, passes a `%Y-%m-%d` date.
- Pipeline.GeneratePdfForDate: the table is read only once. `parse_table`
  is taken to see exactly the rows `wait_for_table` saw. A table whose
  `tr` lookup raised during the wait is taken to raise again when
  `parse_table` repeats the lookup. In the browser these are separate
  calls, as are the `.text` reads, and each may succeed or fail on its
  own. The model does not capture a table that changes or recovers
  between the wait and the parse.

## Behaviour of the code worth knowing

- The PDF's pages do not all hold the same number of rows. On A4 the
  first page holds 47 rows and each later page holds 51.
- When the last record trips the page break, a final page holding only
  the header band is saved (Export.TrailingHeaderPage).
- An empty record list still writes the JSON file, holding an empty list.
  The CSV file is not written, yet its path is still returned
  (Pipeline.GeneratePdfForDate keeps `csvFile` as `None` beside the path).
- With 29 or more columns on A4 the truncation budget falls below 3. The
  negative slice bound then counts from the end of the value. A long
  value keeps all but `3 - max_chars` of its characters and gains "...",
  so it ends up no shorter (Export.TruncateNarrow). The model keeps this
  behaviour as written.
- The docstring of `try_auto_fill_popup` says it returns true when a
  proceed button was clicked. The code returns only whether a field was
  filled, and the model follows the code (FormNavigator.TryAutoFillPopup).
- Sanitising is not injective. For example, "A B" and "A_B" give the same
  file-name part, so two such queries write the same files.

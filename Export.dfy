/** The exporters of `scraper/utils.py`: `save_csv` (union of keys, rows
    normalised to it) and `generate_pdf` (a title, a timestamp, then a
    header band and one line per record, with truncation and page breaks).
    File writing is replaced by the value that would be written: the CSV
    field list and rows, and the PDF as the list of canvas operations. */
module Export {
  import opened PyText
  import opened TableParse

  predicate NoDup(s: seq<string>) {
    forall i, j :: 0 <= i < j < |s| ==> s[i] != s[j]
  }

  // ------------------------------------------------------- union of keys

  /** Every key that occurs in some record. */
  ghost function AllKeys(data: seq<Record>): set<string> {
    if data == [] then {} else AllKeys(data[..|data| - 1]) + data[|data| - 1].Keys
  }

  /** A key is in the union exactly when some record has it. */
  lemma {:induction false} AllKeysExact(data: seq<Record>)
    ensures forall k :: k in AllKeys(data) <==> exists i :: 0 <= i < |data| && k in data[i]
  {
    if data != [] {
      var n := |data| - 1;
      AllKeysExact(data[..n]);
      assert forall i :: 0 <= i < n ==> data[..n][i] == data[i];
    }
  }

  /** `list(s)` for a set: a duplicate-free listing of it. Python's iteration
      order over a set is unspecified, so the order chosen here is too. */
  method ListOfSet(s: set<string>) returns (r: seq<string>)
    ensures NoDup(r)
    ensures forall x :: x in r <==> x in s
  {
    r := [];
    var rest := s;
    while rest != {}
      invariant rest <= s
      invariant forall x :: x in r <==> x in s - rest
      invariant NoDup(r)
      decreases rest
    {
      var x :| x in rest;
      assert x !in r;
      r := r + [x];
      rest := rest - {x};
    }
  }

  /** The key-union loop shared by `save_csv` and `generate_pdf`. */
  method KeyUnion(data: seq<Record>) returns (keys: seq<string>)
    ensures NoDup(keys)
    ensures forall k :: k in keys <==> k in AllKeys(data)
  {
    var all: set<string> := {};
    var i := 0;
    while i < |data|
      invariant 0 <= i <= |data|
      invariant all == AllKeys(data[..i])
    {
      assert data[..i + 1][..i] == data[..i];
      all := all + data[i].Keys;
      i := i + 1;
    }
    assert data[..i] == data;
    keys := ListOfSet(all);
  }

  // ------------------------------------------------------------ save_csv

  /** The CSV that would be written: the header row and the data rows. */
  datatype CsvFile = CsvFile(fields: seq<string>, rows: seq<Record>)

  /** `{k: row.get(k, "") for k in keys}`. */
  function NormalizeRow(row: Record, keys: seq<string>): Record {
    map k | k in keys :: if k in row then row[k] else ""
  }

  /** `save_csv`: nothing for no records; otherwise every record is widened
      to the union of all keys, a missing value becoming "". */
  method SaveCsv(data: seq<Record>) returns (file: Option<CsvFile>)
    ensures file.None? <==> data == []
    ensures file.Some? ==> NoDup(file.value.fields)
    ensures file.Some? ==> forall k :: k in file.value.fields <==> k in AllKeys(data)
    ensures file.Some? ==> |file.value.rows| == |data|
    ensures file.Some? ==> forall i :: 0 <= i < |data| ==>
      && file.value.rows[i].Keys == AllKeys(data)
      && forall k :: k in file.value.rows[i] ==>
           file.value.rows[i][k] == (if k in data[i] then data[i][k] else "")
  {
    if data == [] {
      return None;
    }
    var keys := KeyUnion(data);
    var normalized: seq<Record> := [];
    var i := 0;
    while i < |data|
      invariant 0 <= i <= |data|
      invariant |normalized| == i
      invariant forall j :: 0 <= j < i ==> normalized[j] == NormalizeRow(data[j], keys)
    {
      normalized := normalized + [NormalizeRow(data[i], keys)];
      i := i + 1;
    }
    return Some(CsvFile(keys, normalized));
  }

  /** Widening loses nothing: every value of the original record is in the
      normalised row under the same key. */
  lemma NormalizeKeepsValues(data: seq<Record>, keys: seq<string>, i: nat)
    requires i < |data|
    requires forall k :: k in keys <==> k in AllKeys(data)
    ensures forall k :: k in data[i] ==> k in NormalizeRow(data[i], keys) && NormalizeRow(data[i], keys)[k] == data[i][k]
  {
    AllKeysExact(data);
  }

  // -------------------------------------------------------- generate_pdf

  /** One canvas operation. Columns are given by index: column `c` is drawn
      at `40 + c * col_width`. `y` is the cursor in whole points. */
  datatype Op =
    | DrawTitle(y: int, text: string)
    | DrawTimestamp(y: int)
    | DrawNoData(y: int)
    | DrawHeader(col: nat, y: int, text: string)
    | DrawCell(col: nat, y: int, text: string)
    | ShowPage

  const MarginX: int := 40
  const TopGap: int := 60
  const BottomMargin: int := 60
  const RowStep: int := 14
  const HeaderStep: int := 16

  /** `int(col_width // 6)` with `col_width = (width - 2 * margin_x) / columns`. */
  function MaxChars(width: int, columns: nat): int
    requires columns > 0
  {
    (width - 2 * MarginX) / (6 * columns)
  }

  /** The budget is the largest number of 6-point characters that fit in a
      column: `columns` columns of that many characters fit in the usable
      width, and one more character per column would not. */
  lemma MaxCharsFloor(width: int, columns: nat)
    requires columns > 0
    ensures 6 * columns * MaxChars(width, columns) <= width - 2 * MarginX
    ensures width - 2 * MarginX < 6 * columns * (MaxChars(width, columns) + 1)
  {
    var d := 6 * columns;
    var m := MaxChars(width, columns);
    assert width - 2 * MarginX == d * m + (width - 2 * MarginX) % d;
    assert d * (m + 1) == d * m + d;
  }

  /** The stop index that Python's `value[:stop]` uses. */
  function PyStop(stop: int, len: nat): (r: nat)
    ensures r <= len
  {
    if stop < 0 then (if len + stop < 0 then 0 else len + stop)
    else if stop > len then len else stop
  }

  /** The wrap rule: a value longer than `maxChars` becomes
      `value[:maxChars - 3] + "..."`. */
  function Truncate(value: string, maxChars: int): string {
    if |value| > maxChars then value[..PyStop(maxChars - 3, |value|)] + "..." else value
  }

  /** With a budget of at least three characters, a long value is cut to its
      first `maxChars - 3` characters plus the ellipsis, so it fits. */
  lemma TruncateFits(value: string, maxChars: int)
    requires maxChars >= 3
    ensures |Truncate(value, maxChars)| <= maxChars || Truncate(value, maxChars) == value
    ensures |value| > maxChars ==>
      Truncate(value, maxChars) == value[..maxChars - 3] + "..." && |Truncate(value, maxChars)| == maxChars
    ensures |value| <= maxChars ==> Truncate(value, maxChars) == value
  {
  }

  /** With a budget under three characters the negative slice bound counts
      from the end: the value keeps all but `3 - maxChars` of its characters
      and gains the ellipsis, so it ends up no shorter than it was. */
  lemma TruncateNarrow(value: string, maxChars: int)
    requires maxChars < 3 && |value| > maxChars
    ensures var kept := if |value| + maxChars - 3 < 0 then 0 else |value| + maxChars - 3;
      Truncate(value, maxChars) == value[..kept] + "..."
    ensures 0 <= maxChars ==> |Truncate(value, maxChars)| >= |value|
  {
  }

  /** The text drawn for column `h` of `row`. */
  function CellText(row: Record, h: string, maxChars: int): string {
    Truncate(ReplaceNewlines(if h in row then row[h] else ""), maxChars)
  }

  /** The header band drawn at height `y`: each header upper-cased. */
  function HeaderBand(headers: seq<string>, y: int): (r: seq<Op>)
    ensures |r| == |headers|
  {
    seq(|headers|, i requires 0 <= i < |headers| => DrawHeader(i, y, Upper(headers[i])))
  }

  /** The cells of one record drawn at height `y`. */
  function RowCells(row: Record, headers: seq<string>, maxChars: int, y: int): (r: seq<Op>)
    ensures |r| == |headers|
  {
    seq(|headers|, i requires 0 <= i < |headers| => DrawCell(i, y, CellText(row, headers[i], maxChars)))
  }

  /** Whether drawing a row at cursor `y` leaves the cursor below the
      bottom margin, so that a new page follows it. */
  predicate BreaksAfter(y: int) {
    y - RowStep < BottomMargin
  }

  /** The cursor after a row drawn at `y`: one line lower, or just under
      the repeated header band of a fresh page. */
  function NextY(height: int, y: int): int {
    if BreaksAfter(y) then height - TopGap - HeaderStep else y - RowStep
  }

  /** The operations for one record drawn at `y`: its cells, then, when the
      cursor falls below the bottom margin, a page break and the header
      band at the top of the new page. */
  function RowOps(row: Record, headers: seq<string>, maxChars: int, height: int, y: int): seq<Op> {
    RowCells(row, headers, maxChars, y) +
    if BreaksAfter(y) then [ShowPage] + HeaderBand(headers, height - TopGap) else []
  }

  /** The operations for `rows` when the cursor stands at `y`. */
  function RowsOps(rows: seq<Record>, headers: seq<string>, maxChars: int, height: int, y: int): seq<Op>
    decreases |rows|
  {
    if rows == [] then []
    else RowOps(rows[0], headers, maxChars, height, y) + RowsOps(rows[1..], headers, maxChars, height, NextY(height, y))
  }

  /** The document for records `data` with columns `headers`. */
  function Layout(data: seq<Record>, headers: seq<string>, title: string, width: int, height: int): seq<Op>
    requires |headers| > 0
  {
    [DrawTitle(height - TopGap, title), DrawTimestamp(height - TopGap - 24)] +
    HeaderBand(headers, height - TopGap - 54) +
    RowsOps(data, headers, MaxChars(width, |headers|), height, height - TopGap - 54 - HeaderStep)
  }

  /** The document when there are no records. */
  function EmptyLayout(title: string, height: int): seq<Op> {
    [DrawTitle(height - TopGap, title), DrawTimestamp(height - TopGap - 24), DrawNoData(height - TopGap - 54)]
  }

  // ------------------------------------------------- properties of the layout

  /** The cursor at which the row `n` places after the one at `y` is drawn. */
  function CursorAfter(n: nat, height: int, y: int): int {
    if n == 0 then y else CursorAfter(n - 1, height, NextY(height, y))
  }

  /** Appending a record appends its operations, drawn at the cursor the
      earlier records leave: the layout of a prefix never changes. */
  lemma {:induction false} RowsOpsSnoc(rows: seq<Record>, row: Record, headers: seq<string>, maxChars: int, height: int, y: int)
    ensures RowsOps(rows + [row], headers, maxChars, height, y) ==
      RowsOps(rows, headers, maxChars, height, y) + RowOps(row, headers, maxChars, height, CursorAfter(|rows|, height, y))
  {
    if rows != [] {
      assert (rows + [row])[1..] == rows[1..] + [row];
      RowsOpsSnoc(rows[1..], row, headers, maxChars, height, NextY(height, y));
    }
  }

  /** When the cursor drops below the bottom margin right after the last
      record, the document ends with a page break followed by a page that
      holds only the header band. */
  lemma TrailingHeaderPage(rows: seq<Record>, row: Record, headers: seq<string>, maxChars: int, height: int, y: int)
    requires BreaksAfter(CursorAfter(|rows|, height, y))
    ensures var ops := RowsOps(rows + [row], headers, maxChars, height, y);
      var tail := [ShowPage] + HeaderBand(headers, height - TopGap);
      |ops| >= |tail| && ops[|ops| - |tail|..] == tail
  {
    RowsOpsSnoc(rows, row, headers, maxChars, height, y);
  }

  /** Every cell is drawn at or above the bottom margin, provided the first
      row and the first row of a fresh page are. */
  lemma {:induction false} CellsAboveBottom(rows: seq<Record>, headers: seq<string>, maxChars: int, height: int, y: int)
    requires y >= BottomMargin && height - TopGap - HeaderStep >= BottomMargin
    ensures forall op :: op in RowsOps(rows, headers, maxChars, height, y) && op.DrawCell? ==> op.y >= BottomMargin
  {
    if rows != [] {
      CellsAboveBottom(rows[1..], headers, maxChars, height, NextY(height, y));
    }
  }

  /** The texts of the cells drawn, in drawing order. */
  function CellTexts(ops: seq<Op>): seq<string> {
    if ops == [] then []
    else (if ops[0].DrawCell? then [ops[0].text] else []) + CellTexts(ops[1..])
  }

  lemma {:induction false} CellTextsAppend(a: seq<Op>, b: seq<Op>)
    ensures CellTexts(a + b) == CellTexts(a) + CellTexts(b)
  {
    if a == [] {
      assert a + b == b;
    } else {
      assert (a + b)[0] == a[0];
      assert (a + b)[1..] == a[1..] + b;
      CellTextsAppend(a[1..], b);
    }
  }

  lemma {:induction false} NoCells(ops: seq<Op>)
    requires forall op :: op in ops ==> !op.DrawCell?
    ensures CellTexts(ops) == []
  {
    if ops != [] {
      NoCells(ops[1..]);
    }
  }

  /** The texts of one record's cells, column by column. */
  function RowTexts(row: Record, headers: seq<string>, maxChars: int): (r: seq<string>)
    ensures |r| == |headers|
  {
    seq(|headers|, i requires 0 <= i < |headers| => CellText(row, headers[i], maxChars))
  }

  /** The texts of all records' cells, record by record. */
  function AllTexts(rows: seq<Record>, headers: seq<string>, maxChars: int): seq<string> {
    if rows == [] then [] else RowTexts(rows[0], headers, maxChars) + AllTexts(rows[1..], headers, maxChars)
  }

  lemma {:induction false} CellTextsOfCells(ops: seq<Op>)
    requires forall op :: op in ops ==> op.DrawCell?
    ensures CellTexts(ops) == seq(|ops|, i requires 0 <= i < |ops| => ops[i].text)
  {
    if ops != [] {
      CellTextsOfCells(ops[1..]);
    }
  }

  /** The cells of one record, whether or not a page break follows. */
  lemma RowOpsTexts(row: Record, headers: seq<string>, maxChars: int, height: int, y: int)
    ensures CellTexts(RowOps(row, headers, maxChars, height, y)) == RowTexts(row, headers, maxChars)
  {
    var cells := RowCells(row, headers, maxChars, y);
    var brk: seq<Op> := if BreaksAfter(y) then [ShowPage] + HeaderBand(headers, height - TopGap) else [];
    CellTextsAppend(cells, brk);
    CellTextsOfCells(cells);
    NoCells(brk);
  }

  /** Page breaks only interleave header bands: the cells drawn are exactly
      every record's truncated values, record by record and column by
      column, wherever the pages break. */
  lemma {:induction false} RowsOpsTexts(rows: seq<Record>, headers: seq<string>, maxChars: int, height: int, y: int)
    ensures CellTexts(RowsOps(rows, headers, maxChars, height, y)) == AllTexts(rows, headers, maxChars)
  {
    if rows != [] {
      var next := NextY(height, y);
      CellTextsAppend(RowOps(rows[0], headers, maxChars, height, y), RowsOps(rows[1..], headers, maxChars, height, next));
      RowOpsTexts(rows[0], headers, maxChars, height, y);
      RowsOpsTexts(rows[1..], headers, maxChars, height, next);
    }
  }

  /** Whether every page break in `ops` is immediately followed by `band`. */
  predicate BandFollowsBreaks(ops: seq<Op>, band: seq<Op>) {
    forall k :: 0 <= k < |ops| && ops[k] == ShowPage ==>
      k + 1 + |band| <= |ops| && ops[k + 1..k + 1 + |band|] == band
  }

  lemma BandFollowsAppend(a: seq<Op>, b: seq<Op>, band: seq<Op>)
    requires BandFollowsBreaks(a, band) && BandFollowsBreaks(b, band)
    ensures BandFollowsBreaks(a + b, band)
  {
    var ops := a + b;
    forall k | 0 <= k < |ops| && ops[k] == ShowPage
      ensures k + 1 + |band| <= |ops| && ops[k + 1..k + 1 + |band|] == band
    {
      if k < |a| {
        assert a[k] == ShowPage;
        assert ops[k + 1..k + 1 + |band|] == a[k + 1..k + 1 + |band|];
      } else {
        var k' := k - |a|;
        assert b[k'] == ShowPage;
        assert ops[k + 1..k + 1 + |band|] == b[k' + 1..k' + 1 + |band|];
      }
    }
  }

  /** A record's operations end with the header band after their break. */
  lemma RowOpsBand(row: Record, headers: seq<string>, maxChars: int, height: int, y: int)
    ensures BandFollowsBreaks(RowOps(row, headers, maxChars, height, y), HeaderBand(headers, height - TopGap))
  {
    var cells := RowCells(row, headers, maxChars, y);
    var band := HeaderBand(headers, height - TopGap);
    var ops := RowOps(row, headers, maxChars, height, y);
    if BreaksAfter(y) {
      assert ops == cells + [ShowPage] + band;
      forall k | 0 <= k < |ops| && ops[k] == ShowPage
        ensures k + 1 + |band| <= |ops| && ops[k + 1..k + 1 + |band|] == band
      {
        assert k == |cells|;
      }
    } else {
      assert ops == cells;
    }
  }

  /** After every page break the header band is drawn again at the top of
      the new page. */
  lemma {:induction false} PageBreakRedrawsHeader(rows: seq<Record>, headers: seq<string>, maxChars: int, height: int, y: int)
    ensures BandFollowsBreaks(RowsOps(rows, headers, maxChars, height, y), HeaderBand(headers, height - TopGap))
  {
    if rows != [] {
      RowOpsBand(rows[0], headers, maxChars, height, y);
      PageBreakRedrawsHeader(rows[1..], headers, maxChars, height, NextY(height, y));
      BandFollowsAppend(RowOps(rows[0], headers, maxChars, height, y),
        RowsOps(rows[1..], headers, maxChars, height, NextY(height, y)), HeaderBand(headers, height - TopGap));
    }
  }

  /** The document is its heading (title, timestamp, first header band)
      followed by the rows' operations. */
  lemma LayoutSplit(data: seq<Record>, headers: seq<string>, title: string, width: int, height: int)
    requires |headers| > 0
    ensures var top := [DrawTitle(height - TopGap, title), DrawTimestamp(height - TopGap - 24)] + HeaderBand(headers, height - TopGap - 54);
      && (forall op :: op in top ==> !op.DrawCell? && op != ShowPage)
      && Layout(data, headers, title, width, height) ==
         top + RowsOps(data, headers, MaxChars(width, |headers|), height, height - TopGap - 54 - HeaderStep)
  {
  }

  /** The cells of the whole document hold every record's truncated values,
      record by record and column by column. */
  lemma LayoutTexts(data: seq<Record>, headers: seq<string>, title: string, width: int, height: int)
    requires |headers| > 0
    ensures CellTexts(Layout(data, headers, title, width, height)) == AllTexts(data, headers, MaxChars(width, |headers|))
  {
    var top := [DrawTitle(height - TopGap, title), DrawTimestamp(height - TopGap - 24)] + HeaderBand(headers, height - TopGap - 54);
    var body := RowsOps(data, headers, MaxChars(width, |headers|), height, height - TopGap - 54 - HeaderStep);
    LayoutSplit(data, headers, title, width, height);
    NoCells(top);
    CellTextsAppend(top, body);
    RowsOpsTexts(data, headers, MaxChars(width, |headers|), height, height - TopGap - 54 - HeaderStep);
  }

  /** Every page break of the whole document is followed by the header
      band. */
  lemma LayoutBands(data: seq<Record>, headers: seq<string>, title: string, width: int, height: int)
    requires |headers| > 0
    ensures BandFollowsBreaks(Layout(data, headers, title, width, height), HeaderBand(headers, height - TopGap))
  {
    var top := [DrawTitle(height - TopGap, title), DrawTimestamp(height - TopGap - 24)] + HeaderBand(headers, height - TopGap - 54);
    var body := RowsOps(data, headers, MaxChars(width, |headers|), height, height - TopGap - 54 - HeaderStep);
    LayoutSplit(data, headers, title, width, height);
    assert BandFollowsBreaks(top, HeaderBand(headers, height - TopGap));
    PageBreakRedrawsHeader(data, headers, MaxChars(width, |headers|), height, height - TopGap - 54 - HeaderStep);
    BandFollowsAppend(top, body, HeaderBand(headers, height - TopGap));
  }

  /** On a page at least 190 points tall (A4 is 841) no cell of the
      document is drawn below the bottom margin. */
  lemma LayoutAboveBottom(data: seq<Record>, headers: seq<string>, title: string, width: int, height: int)
    requires |headers| > 0 && height >= 190
    ensures forall op :: op in Layout(data, headers, title, width, height) && op.DrawCell? ==> op.y >= BottomMargin
  {
    LayoutSplit(data, headers, title, width, height);
    CellsAboveBottom(data, headers, MaxChars(width, |headers|), height, height - TopGap - 54 - HeaderStep);
  }

  /** The header-band loop (drawn once on the first page and again after
      every page break). */
  method DrawHeaderBand(ops: seq<Op>, headers: seq<string>, y: int) returns (ops': seq<Op>)
    ensures ops' == ops + HeaderBand(headers, y)
  {
    ops' := ops;
    var j := 0;
    while j < |headers|
      invariant 0 <= j <= |headers|
      invariant ops' == ops + HeaderBand(headers, y)[..j]
    {
      assert HeaderBand(headers, y)[..j + 1] == HeaderBand(headers, y)[..j] + [DrawHeader(j, y, Upper(headers[j]))];
      ops' := ops' + [DrawHeader(j, y, Upper(headers[j]))];
      j := j + 1;
    }
    assert HeaderBand(headers, y)[..j] == HeaderBand(headers, y);
  }

  /** The cell loop for one record (lines drawn left to right at `y`). */
  method DrawRow(ops: seq<Op>, row: Record, headers: seq<string>, maxChars: int, y: int) returns (ops': seq<Op>)
    ensures ops' == ops + RowCells(row, headers, maxChars, y)
  {
    ops' := ops;
    var j := 0;
    while j < |headers|
      invariant 0 <= j <= |headers|
      invariant ops' == ops + RowCells(row, headers, maxChars, y)[..j]
    {
      var value := ReplaceNewlines(if headers[j] in row then row[headers[j]] else "");
      if |value| > maxChars {
        value := value[..PyStop(maxChars - 3, |value|)] + "...";
      }
      assert value == CellText(row, headers[j], maxChars);
      assert RowCells(row, headers, maxChars, y)[..j + 1] ==
        RowCells(row, headers, maxChars, y)[..j] + [DrawCell(j, y, value)];
      ops' := ops' + [DrawCell(j, y, value)];
      j := j + 1;
    }
    assert RowCells(row, headers, maxChars, y)[..j] == RowCells(row, headers, maxChars, y);
  }

  /** One pass of the row loop: the record's cells, then the page break
      when the cursor has dropped below the bottom margin. */
  method DrawRowStep(ops: seq<Op>, row: Record, headers: seq<string>, maxChars: int, height: int, y: int)
    returns (ops': seq<Op>, y': int)
    ensures ops' == ops + RowOps(row, headers, maxChars, height, y)
    ensures y' == NextY(height, y)
  {
    ops' := DrawRow(ops, row, headers, maxChars, y);
    y' := y - RowStep;
    if y' < BottomMargin {
      ops' := ops' + [ShowPage];
      y' := height - TopGap;
      ops' := DrawHeaderBand(ops', headers, y');
      y' := y' - HeaderStep;
      assert ops' == ops + (RowCells(row, headers, maxChars, y) + ([ShowPage] + HeaderBand(headers, height - TopGap)));
    } else {
      assert ops' == ops + (RowCells(row, headers, maxChars, y) + []);
    }
  }

  /** The row loop of `generate_pdf`, from cursor `y` on. */
  method DrawRows(ops: seq<Op>, data: seq<Record>, headers: seq<string>, maxChars: int, height: int, y: int)
    returns (ops': seq<Op>)
    ensures ops' == ops + RowsOps(data, headers, maxChars, height, y)
  {
    ops' := ops;
    var cursor := y;
    var i := 0;
    while i < |data|
      invariant 0 <= i <= |data|
      invariant ops' + RowsOps(data[i..], headers, maxChars, height, cursor) == ops + RowsOps(data, headers, maxChars, height, y)
    {
      assert data[i..][1..] == data[i + 1..];
      ghost var before := ops';
      ghost var step := RowOps(data[i], headers, maxChars, height, cursor);
      ghost var rest := RowsOps(data[i + 1..], headers, maxChars, height, NextY(height, cursor));
      assert RowsOps(data[i..], headers, maxChars, height, cursor) == step + rest;
      ops', cursor := DrawRowStep(ops', data[i], headers, maxChars, height, cursor);
      assert ops' + rest == before + (step + rest);
      i := i + 1;
    }
    assert data[i..] == [];
    assert data[0..] == data;
  }

  /** `generate_pdf`: returns the column order it chose and the operations
      drawn; `None` is the `ZeroDivisionError` raised when the records are
      not empty but have no keys at all. The page is `width` x `height`
      points (A4 is 595 x 841 in whole points). */
  method GeneratePdf(data: seq<Record>, title: string, width: int, height: int)
    returns (headers: seq<string>, doc: Option<seq<Op>>)
    ensures data == [] ==> headers == [] && doc == Some(EmptyLayout(title, height))
    ensures data != [] ==> NoDup(headers) && forall k :: k in headers <==> k in AllKeys(data)
    ensures data != [] ==> (doc.None? <==> headers == [])
    ensures data != [] && headers != [] ==> doc == Some(Layout(data, headers, title, width, height))
  {
    var y := height - TopGap;
    var ops := [DrawTitle(y, title)];
    y := y - 24;
    ops := ops + [DrawTimestamp(y)];
    y := y - 30;
    if data == [] {
      ops := ops + [DrawNoData(y)];
      assert ops == EmptyLayout(title, height);
      return [], Some(ops);
    }
    headers := KeyUnion(data);
    if |headers| == 0 {
      return headers, None;
    }
    var maxChars := MaxChars(width, |headers|);
    ghost var top := ops;
    assert top == [DrawTitle(height - TopGap, title), DrawTimestamp(height - TopGap - 24)];
    ops := DrawHeaderBand(ops, headers, y);
    ghost var band := HeaderBand(headers, height - TopGap - 54);
    y := y - HeaderStep;
    ops := DrawRows(ops, data, headers, maxChars, height, y);
    assert ops == top + band + RowsOps(data, headers, maxChars, height, height - TopGap - 54 - HeaderStep);
    return headers, Some(ops);
  }
}

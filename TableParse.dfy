/** The table extractor, `ECourtsScraper.parse_table`: a rendered results
    table, seen as its `tr` rows, becomes one column-name -> text record per
    data row. */
module TableParse {
  import opened PyText

  /** One `tr` element: the texts of its `th` children and of its `td`
      children, in document order, as the browser reports them. */
  datatype Row = Row(th: seq<string>, td: seq<string>)

  /** A scraped record (a Python dict from column name to cell text). */
  type Record = map<string, string>

  // ------------------------------------------------------------ header row

  /** The first row's `th` cells, or its `td` cells when it has no `th`. */
  function HeaderCells(first: Row): seq<string> {
    if first.th != [] then first.th else first.td
  }

  /** The name of the header cell at 1-based position `pos`. */
  function HeaderName(text: string, pos: nat): string {
    if Strip(text) != [] then Strip(text) else ColName(pos)
  }

  /** The column names taken from the first row. */
  function Headers(first: Row): seq<string> {
    var cells := HeaderCells(first);
    seq(|cells|, i requires 0 <= i < |cells| => HeaderName(cells[i], i + 1))
  }

  /** Header naming: one name per header cell, `th` cells taking precedence
      over `td` cells; a cell with visible text is named by that stripped
      text, a blank one by its 1-based placeholder; and so no name is blank. */
  lemma HeaderNaming(first: Row)
    ensures |Headers(first)| == (if first.th != [] then |first.th| else |first.td|)
    ensures forall i :: 0 <= i < |Headers(first)| ==>
      var text := HeaderCells(first)[i];
      && (Strip(text) != [] ==> Headers(first)[i] == Strip(text))
      && (Strip(text) == [] ==> Headers(first)[i] == ColName(i + 1))
      && Strip(Headers(first)[i]) == Headers(first)[i] != []
  {
    var hs := Headers(first);
    forall i | 0 <= i < |hs|
      ensures Strip(hs[i]) == hs[i] != []
    {
      var text := HeaderCells(first)[i];
      if Strip(text) != [] {
        StripIdempotent(text);
      } else {
        ColNameNotBlank(i + 1);
      }
    }
  }

  // --------------------------------------------------------------- records

  /** The key of the 0-based cell `i`: its header, or `col{i+1}` past the
      last header. */
  function CellKey(headers: seq<string>, i: nat): string {
    if i < |headers| then headers[i] else ColName(i + 1)
  }

  /** The record of one data row: its cells stored left to right, each under
      its key, a later cell overwriting an earlier one with the same key. */
  function RowRecord(headers: seq<string>, cells: seq<string>): Record {
    if cells == [] then map[]
    else RowRecord(headers, cells[..|cells| - 1])[CellKey(headers, |cells| - 1) := Strip(cells[|cells| - 1])]
  }

  /** Whether no cell after `j` has the same key as cell `j`. */
  predicate LastWithKey(headers: seq<string>, cells: seq<string>, j: nat) {
    forall j' :: j < j' < |cells| ==> CellKey(headers, j') != CellKey(headers, j)
  }

  /** A row record holds exactly the keys of its cells. */
  lemma {:induction false} RowRecordKeys(headers: seq<string>, cells: seq<string>)
    ensures forall k :: k in RowRecord(headers, cells) <==>
      exists j :: 0 <= j < |cells| && CellKey(headers, j) == k
  {
    if cells != [] {
      var n := |cells| - 1;
      RowRecordKeys(headers, cells[..n]);
      assert |cells[..n]| == n;
    }
  }

  /** Under each key a row record holds the stripped text of the last cell
      carrying that key: a later duplicate overwrites an earlier one. */
  lemma {:induction false} RowRecordValues(headers: seq<string>, cells: seq<string>, j: nat)
    requires j < |cells| && LastWithKey(headers, cells, j)
    ensures CellKey(headers, j) in RowRecord(headers, cells)
    ensures RowRecord(headers, cells)[CellKey(headers, j)] == Strip(cells[j])
  {
    var n := |cells| - 1;
    if j < n {
      var init := cells[..n];
      assert init[j] == cells[j];
      assert LastWithKey(headers, init, j) by {
        forall j' | j < j' < |init| ensures CellKey(headers, j') != CellKey(headers, j) {
          assert j' < |cells|;
        }
      }
      RowRecordValues(headers, init, j);
      assert CellKey(headers, n) != CellKey(headers, j);
    }
  }

  /** Rows that have at least one `td` cell, in order. */
  function DataRows(rows: seq<Row>): (r: seq<Row>)
    ensures |r| <= |rows|
    ensures forall k :: 0 <= k < |r| ==> r[k].td != [] && r[k] in rows
    ensures forall k :: 0 <= k < |rows| && rows[k].td != [] ==> rows[k] in r
  {
    if rows == [] then []
    else if rows[0].td == [] then DataRows(rows[1..])
    else [rows[0]] + DataRows(rows[1..])
  }

  /** Filtering keeps the table order: the data rows of two consecutive
      stretches of rows are those of the first, then those of the second. */
  lemma {:induction false} DataRowsAppend(a: seq<Row>, b: seq<Row>)
    ensures DataRows(a + b) == DataRows(a) + DataRows(b)
  {
    if a == [] {
      assert a + b == b;
    } else {
      assert (a + b)[0] == a[0];
      assert (a + b)[1..] == a[1..] + b;
      DataRowsAppend(a[1..], b);
    }
  }

  /** The records of `rows` under `headers`; rows without `td` cells are
      skipped. */
  function Records(headers: seq<string>, rows: seq<Row>): seq<Record> {
    if rows == [] then []
    else if rows[0].td == [] then Records(headers, rows[1..])
    else [RowRecord(headers, rows[0].td)] + Records(headers, rows[1..])
  }

  /** What `parse_table` returns for a table with the given rows. */
  function TableRecords(rows: seq<Row>): seq<Record> {
    if rows == [] then [] else Records(Headers(rows[0]), rows[1..])
  }

  /** One record per data row, in the data rows' order. */
  lemma {:induction false} RecordsAreDataRows(headers: seq<string>, rows: seq<Row>)
    ensures |Records(headers, rows)| == |DataRows(rows)|
    ensures forall k :: 0 <= k < |DataRows(rows)| ==>
      Records(headers, rows)[k] == RowRecord(headers, DataRows(rows)[k].td)
  {
    if rows != [] {
      RecordsAreDataRows(headers, rows[1..]);
      if rows[0].td != [] {
        assert DataRows(rows) == [rows[0]] + DataRows(rows[1..]);
        assert Records(headers, rows) == [RowRecord(headers, rows[0].td)] + Records(headers, rows[1..]);
      } else {
        assert DataRows(rows) == DataRows(rows[1..]);
        assert Records(headers, rows) == Records(headers, rows[1..]);
      }
    }
  }

  /** Every record of a parsed table has at least one key: a row is only
      turned into a record when it has a cell. */
  lemma {:induction false} RecordsNonEmpty(headers: seq<string>, rows: seq<Row>)
    ensures forall k :: 0 <= k < |Records(headers, rows)| ==> Records(headers, rows)[k] != map[]
  {
    if rows != [] {
      RecordsNonEmpty(headers, rows[1..]);
      var cells := rows[0].td;
      if cells != [] {
        assert CellKey(headers, |cells| - 1) in RowRecord(headers, cells);
      }
    }
  }

  lemma RecordsUnfold(headers: seq<string>, rows: seq<Row>, k: nat)
    requires k < |rows|
    ensures Records(headers, rows[k..]) ==
      (if rows[k].td == [] then [] else [RowRecord(headers, rows[k].td)]) + Records(headers, rows[k + 1..])
  {
    assert rows[k..][1..] == rows[k + 1..];
  }

  lemma RowRecordUnfold(headers: seq<string>, cells: seq<string>, i: nat)
    requires i < |cells|
    ensures RowRecord(headers, cells[..i + 1]) ==
      RowRecord(headers, cells[..i])[CellKey(headers, i) := Strip(cells[i])]
  {
    assert cells[..i + 1][..i] == cells[..i];
  }

  /** The inner loop of `parse_table`: the dict of one row, built cell by
      cell. */
  method RowDict(headers: seq<string>, cols: seq<string>) returns (rowd: Record)
    ensures rowd == RowRecord(headers, cols)
  {
    rowd := map[];
    var i := 0;
    while i < |cols|
      invariant 0 <= i <= |cols|
      invariant rowd == RowRecord(headers, cols[..i])
    {
      RowRecordUnfold(headers, cols, i);
      var key := if i < |headers| then headers[i] else ColName(i + 1);
      rowd := rowd[key := Strip(cols[i])];
      i := i + 1;
    }
    assert cols[..i] == cols;
  }

  /** `parse_table`: walks the rows after the first, building each data
      row's record cell by cell. */
  method ParseTable(rows: seq<Row>) returns (data: seq<Record>)
    ensures rows == [] ==> data == []
    ensures data == TableRecords(rows)
  {
    data := [];
    if rows == [] {
      return;
    }
    var headers := Headers(rows[0]);
    var k := 1;
    while k < |rows|
      invariant 1 <= k <= |rows|
      invariant data + Records(headers, rows[k..]) == Records(headers, rows[1..])
    {
      RecordsUnfold(headers, rows, k);
      var cols := rows[k].td;
      if cols != [] {
        var rowd := RowDict(headers, cols);
        ghost var rest := Records(headers, rows[k + 1..]);
        assert data + [rowd] + rest == data + ([rowd] + rest);
        data := data + [rowd];
      }
      k := k + 1;
    }
    assert rows[k..] == [];
  }
}

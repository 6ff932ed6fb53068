/**
  The upload handler of app.py (`upload_pdf`, POST branch). For each
  uploaded file in turn: refuse a name that does not end in ".pdf"; name the
  target table after the document's first paragraph; drop and re-create that
  table; rebuild every recognized table as a dense grid from its cell list;
  insert each grid row after the header as one inventory record; after each
  insert, embed every row still without an embedding and store the Spanish
  translation on every row with the inserted row's description.

  The document-recognition result, the embedding and translation services
  and the store's conversion of text to INTEGER are inputs.
 */
module Ingest {
  import opened Wrappers
  import opened Text
  import opened Store

  /** One recognized cell: zero-based position and its text. */
  datatype CellRecord = CellRecord(rowIndex: nat, columnIndex: nat, content: string)

  /** One recognized table: declared dimensions and its cells, in any order. */
  datatype RecognizedTable = RecognizedTable(rowCount: nat, columnCount: nat, cells: seq<CellRecord>)

  /** What document recognition returns for one file: paragraph texts in
      reading order and the recognized tables. */
  datatype Document = Document(paragraphs: seq<string>, tables: seq<RecognizedTable>)

  /** An uploaded file and the recognition result for its bytes. */
  datatype UploadedFile = UploadedFile(filename: string, document: Document)

  /** A grid entry: the integer sentinel `0` the grid starts with, or a cell's text. */
  datatype Cell = Sentinel | Content(text: string)

  /** The exceptions that end a request. */
  datatype Error =
    | NoParagraph            // `result.paragraphs[0]` on an empty list
    | CellOutOfRange         // a cell index outside the declared grid
    | TooFewColumns          // `row[k]` for k >= column_count
    | NotAnInteger(text: string)  // the store refuses text for an INTEGER column
    | DuplicateKey           // a UNIQUE constraint violated by the INSERT

  /** What the request returns: success.html, failure.html, or an exception. */
  datatype Response = SuccessPage | FailurePage | Crash(error: Error)

  /** The services the handler calls, as functions of their input. */
  datatype Services = Services(
    embed: string -> Vector,
    translate: string -> string,
    toInteger: string -> Option<int>)

  predicate IsPdfName(filename: string) {
    EndsWith(filename, ".pdf")
  }

  // ---------------------------------------------------------------- table name

  /** The table name: the first paragraph with every space replaced by an
      underscore; same length, no space left, every other character kept. */
  function TableName(paragraph: string): (name: string)
    ensures |name| == |paragraph|
    ensures forall i :: 0 <= i < |name| ==> name[i] != ' '
    ensures forall i :: 0 <= i < |name| && paragraph[i] != ' ' ==> name[i] == paragraph[i]
    ensures forall i :: 0 <= i < |name| && paragraph[i] == ' ' ==> name[i] == '_'
  {
    seq(|paragraph|, i requires 0 <= i < |paragraph| => if paragraph[i] == ' ' then '_' else paragraph[i])
  }

  /** Two paragraphs give the same table name exactly when they agree
      position by position up to exchanging spaces and underscores: distinct
      paragraphs such as "Bellevue Warehouse" and "Bellevue_Warehouse"
      overwrite the same table. */
  lemma TableNameCollision(p: string, q: string)
    ensures TableName(p) == TableName(q) <==>
      |p| == |q| && forall i :: 0 <= i < |p| ==>
        p[i] == q[i] || (p[i] in {' ', '_'} && q[i] in {' ', '_'})
  {
    if |p| == |q| && forall i :: 0 <= i < |p| ==> p[i] == q[i] || (p[i] in {' ', '_'} && q[i] in {' ', '_'}) {
      assert forall i :: 0 <= i < |p| ==> TableName(p)[i] == TableName(q)[i];
    }
    if TableName(p) == TableName(q) {
      forall i | 0 <= i < |p|
        ensures p[i] == q[i] || (p[i] in {' ', '_'} && q[i] in {' ', '_'})
      {
        assert TableName(p)[i] == TableName(q)[i];
      }
    }
  }

  // ------------------------------------------------------ grid reconstruction

  predicate At(cell: CellRecord, r: nat, c: nat) {
    cell.rowIndex == r && cell.columnIndex == c
  }

  /** The entry at (r, c) after writing the cells in list order over a grid
      of sentinels. */
  function LastWrite(cells: seq<CellRecord>, r: nat, c: nat): Cell {
    if cells == [] then Sentinel
    else if At(cells[|cells| - 1], r, c) then Content(cells[|cells| - 1].content)
    else LastWrite(cells[..|cells| - 1], r, c)
  }

  /** Last write wins: the entry is the sentinel exactly when no cell has
      that position, and otherwise the text of the last cell that has it. */
  lemma {:induction false} LastWriteWins(cells: seq<CellRecord>, r: nat, c: nat)
    ensures LastWrite(cells, r, c) == Sentinel <==> forall k :: 0 <= k < |cells| ==> !At(cells[k], r, c)
    ensures forall k :: 0 <= k < |cells| && At(cells[k], r, c)
                        && (forall k' :: k < k' < |cells| ==> !At(cells[k'], r, c))
                        ==> LastWrite(cells, r, c) == Content(cells[k].content)
  {
    if cells != [] {
      var init := cells[..|cells| - 1];
      LastWriteWins(init, r, c);
      assert forall k :: 0 <= k < |init| ==> init[k] == cells[k];
    }
  }

  predicate InBounds(t: RecognizedTable) {
    forall k :: 0 <= k < |t.cells| ==> t.cells[k].rowIndex < t.rowCount && t.cells[k].columnIndex < t.columnCount
  }

  /** The grid of a recognized table: `row_count` rows of `column_count`
      entries each. */
  function Reconstruct(t: RecognizedTable): (grid: seq<seq<Cell>>)
    ensures |grid| == t.rowCount
    ensures forall r :: 0 <= r < |grid| ==> |grid[r]| == t.columnCount
    ensures forall r, c :: 0 <= r < t.rowCount && 0 <= c < t.columnCount ==> grid[r][c] == LastWrite(t.cells, r, c)
  {
    seq(t.rowCount, r requires 0 <= r < t.rowCount =>
      seq(t.columnCount, c requires 0 <= c < t.columnCount => LastWrite(t.cells, r, c)))
  }

  /** The nested loop that builds `matrix`: a grid of sentinels, then each
      cell written at its position in list order. `ok` is false when a cell
      lies outside the declared dimensions (the IndexError). */
  method BuildGrid(t: RecognizedTable) returns (grid: array2<Cell>, ok: bool)
    ensures grid.Length0 == t.rowCount && grid.Length1 == t.columnCount
    ensures ok == InBounds(t)
    ensures ok ==> forall r, c :: 0 <= r < t.rowCount && 0 <= c < t.columnCount ==>
      grid[r, c] == Reconstruct(t)[r][c]
  {
    grid := new Cell[t.rowCount, t.columnCount]((_, _) => Sentinel);
    var k := 0;
    while k < |t.cells|
      invariant 0 <= k <= |t.cells|
      invariant grid.Length0 == t.rowCount && grid.Length1 == t.columnCount
      invariant forall i :: 0 <= i < k ==> t.cells[i].rowIndex < t.rowCount && t.cells[i].columnIndex < t.columnCount
      invariant forall r, c :: 0 <= r < t.rowCount && 0 <= c < t.columnCount ==>
        grid[r, c] == LastWrite(t.cells[..k], r, c)
    {
      var cell := t.cells[k];
      if cell.rowIndex >= t.rowCount || cell.columnIndex >= t.columnCount {
        return grid, false;
      }
      grid[cell.rowIndex, cell.columnIndex] := Content(cell.content);
      assert t.cells[..k + 1][..k] == t.cells[..k];
      k := k + 1;
    }
    assert t.cells[..k] == t.cells;
    ok := true;
  }

  // ----------------------------------------------------------- record mapping

  /** A grid entry as a TEXT column receives it: the sentinel `0` becomes "0". */
  function TextOf(cell: Cell): string {
    match cell
    case Sentinel => Decimal(0)
    case Content(s) => s
  }

  /** A grid entry as an INTEGER column receives it. */
  function IntegerOf(cell: Cell, toInteger: string -> Option<int>): Option<int> {
    match cell
    case Sentinel => Some(0)
    case Content(s) => toInteger(s)
  }

  /** A data row as the nine positional INSERT parameters `row[0]..row[8]`:
      it fails exactly when the row has fewer than nine entries or one of
      the INTEGER columns (4, 6, 7, 8) refuses its entry, and otherwise
      column k holds entry k. */
  function RecordOf(row: seq<Cell>, toInteger: string -> Option<int>): (r: Result<Record, Error>)
    ensures r == Failure(TooFewColumns) <==> |row| < 9
    ensures r.Success? <==> |row| >= 9 && forall k :: k in {4, 6, 7, 8} ==> IntegerOf(row[k], toInteger).Some?
    ensures r.Success? ==>
      && r.value.inventoryId == TextOf(row[0]) && r.value.name == TextOf(row[1])
      && r.value.description == TextOf(row[2]) && r.value.unitPrice == TextOf(row[3])
      && Some(r.value.quantityInStock) == IntegerOf(row[4], toInteger)
      && r.value.inventoryValue == TextOf(row[5])
      && Some(r.value.reorderLevel) == IntegerOf(row[6], toInteger)
      && Some(r.value.reorderTimeInDays) == IntegerOf(row[7], toInteger)
      && Some(r.value.quantityInReorder) == IntegerOf(row[8], toInteger)
  {
    if |row| < 9 then Failure(TooFewColumns)
    else if IntegerOf(row[4], toInteger).None? then Failure(NotAnInteger(TextOf(row[4])))
    else if IntegerOf(row[6], toInteger).None? then Failure(NotAnInteger(TextOf(row[6])))
    else if IntegerOf(row[7], toInteger).None? then Failure(NotAnInteger(TextOf(row[7])))
    else if IntegerOf(row[8], toInteger).None? then Failure(NotAnInteger(TextOf(row[8])))
    else Success(Record(
      TextOf(row[0]), TextOf(row[1]), TextOf(row[2]), TextOf(row[3]),
      IntegerOf(row[4], toInteger).value, TextOf(row[5]),
      IntegerOf(row[6], toInteger).value, IntegerOf(row[7], toInteger).value,
      IntegerOf(row[8], toInteger).value))
  }

  /** Entries beyond column 8 never reach the table. */
  lemma RecordOfIgnoresExtraColumns(row: seq<Cell>, toInteger: string -> Option<int>)
    requires |row| >= 9
    ensures RecordOf(row, toInteger) == RecordOf(row[..9], toInteger)
  {
  }

  // ------------------------------------------------------- ingest of one file

  /** One iteration of the row loop: INSERT the row (an error on a clash),
      run the embedding pass, then store the translation of `row[2]` on
      every row with that description. */
  function IngestRow(rows: seq<Row>, row: seq<Cell>, svc: Services): Result<seq<Row>, Error> {
    match RecordOf(row, svc.toInteger)
    case Failure(e) => Failure(e)
    case Success(rec) =>
      if Conflicts(rows, rec) then Failure(DuplicateKey)
      else
        var english := TextOf(row[2]);
        Success(TranslateWhereDescription(EmbedNulls(rows + [Fresh(rec)], svc.embed), english, svc.translate(english)))
  }

  /** The row loop over rows 1 .. n-1 of a grid (row 0 is the header). */
  function IngestGrid(rows: seq<Row>, grid: seq<seq<Cell>>, n: nat, svc: Services): Result<seq<Row>, Error>
    requires n <= |grid|
  {
    if n <= 1 then Success(rows)
    else match IngestGrid(rows, grid, n - 1, svc)
      case Failure(e) => Failure(e)
      case Success(r) => IngestRow(r, grid[n - 1], svc)
  }

  /** One recognized table: rebuild its grid, then run the row loop over all of it. */
  function IngestTable(rows: seq<Row>, t: RecognizedTable, svc: Services): Result<seq<Row>, Error> {
    if !InBounds(t) then Failure(CellOutOfRange)
    else IngestGrid(rows, Reconstruct(t), t.rowCount, svc)
  }

  /** The table loop: every recognized table in order, into the same table. */
  function IngestTables(rows: seq<Row>, ts: seq<RecognizedTable>, svc: Services): Result<seq<Row>, Error> {
    if ts == [] then Success(rows)
    else match IngestTables(rows, ts[..|ts| - 1], svc)
      case Failure(e) => Failure(e)
      case Success(r) => IngestTable(r, ts[|ts| - 1], svc)
  }

  /** The whole POST request over the committed store: files are processed in
      order; a file whose name does not end in ".pdf" ends the request with
      the failure page; an exception ends it too, leaving the committed
      state as of the last COMMIT (for a failing document: its table
      dropped and re-created empty). */
  function UploadFiles(store: map<string, seq<Row>>, files: seq<UploadedFile>, svc: Services)
    : (Response, map<string, seq<Row>>)
    decreases |files|
  {
    if files == [] then (SuccessPage, store)
    else
      var f := files[0];
      if !IsPdfName(f.filename) then (FailurePage, store)
      else if f.document.paragraphs == [] then (Crash(NoParagraph), store)
      else
        var name := TableName(f.document.paragraphs[0]);
        match IngestTables([], f.document.tables, svc)
        case Failure(e) => (Crash(e), store[name := []])
        case Success(rows) => UploadFiles(store[name := rows], files[1..], svc)
  }

  // ---------------------------------------------------- uncommitted statements

  /** The rows the session holds after the row loop over rows 1 .. n-1,
      whether or not it failed: a failing row adds nothing and ends the
      loop, so they are the rows the last successful row left. When the
      loop succeeds they are its result. */
  function GridPending(rows: seq<Row>, grid: seq<seq<Cell>>, n: nat, svc: Services): (p: seq<Row>)
    requires n <= |grid|
    ensures IngestGrid(rows, grid, n, svc).Success? ==> p == IngestGrid(rows, grid, n, svc).value
  {
    if n <= 1 then rows
    else match IngestGrid(rows, grid, n - 1, svc)
      case Failure(_) => GridPending(rows, grid, n - 1, svc)
      case Success(r) =>
        match IngestRow(r, grid[n - 1], svc)
        case Failure(_) => r
        case Success(next) => next
  }

  /** The rows the session holds after one recognized table, whether or
      not it failed: a table with a cell out of range adds nothing. */
  function TablePending(rows: seq<Row>, t: RecognizedTable, svc: Services): (p: seq<Row>)
    ensures IngestTable(rows, t, svc).Success? ==> p == IngestTable(rows, t, svc).value
  {
    if !InBounds(t) then rows
    else GridPending(rows, Reconstruct(t), t.rowCount, svc)
  }

  /** The rows the session holds after the table loop, whether or not it
      failed: the tables before the failing one, then what the failing one
      left. When the loop succeeds they are its result. */
  function TablesPending(rows: seq<Row>, ts: seq<RecognizedTable>, svc: Services): (p: seq<Row>)
    ensures IngestTables(rows, ts, svc).Success? ==> p == IngestTables(rows, ts, svc).value
  {
    if ts == [] then rows
    else match IngestTables(rows, ts[..|ts| - 1], svc)
      case Failure(_) => TablesPending(rows, ts[..|ts| - 1], svc)
      case Success(r) => TablePending(r, ts[|ts| - 1], svc)
  }

  /** The tables the session sees when the request ends, committed or not:
      after an exception in a document's table loop, its table holds the
      rows that loop issued since the re-creation was committed. */
  function UploadPending(store: map<string, seq<Row>>, files: seq<UploadedFile>, svc: Services)
    : map<string, seq<Row>>
    decreases |files|
  {
    if files == [] then store
    else
      var f := files[0];
      if !IsPdfName(f.filename) || f.document.paragraphs == [] then store
      else
        var name := TableName(f.document.paragraphs[0]);
        match IngestTables([], f.document.tables, svc)
        case Failure(_) => store[name := TablesPending([], f.document.tables, svc)]
        case Success(rows) => UploadPending(store[name := rows], files[1..], svc)
  }

  // ------------------------------------------------------------- properties

  /** The rows a grid's data rows map to, or None if one of them does not map. */
  function DataRecords(grid: seq<seq<Cell>>, n: nat, toInteger: string -> Option<int>): (r: Option<seq<Record>>)
    requires n <= |grid|
    ensures r.Some? ==> |r.value| == if n == 0 then 0 else n - 1
    ensures r.Some? ==> forall i :: 0 <= i < |r.value| ==> RecordOf(grid[i + 1], toInteger) == Success(r.value[i])
  {
    if n <= 1 then Some([])
    else match DataRecords(grid, n - 1, toInteger)
      case None => None
      case Some(recs) =>
        match RecordOf(grid[n - 1], toInteger)
        case Failure(_) => None
        case Success(rec) => Some(recs + [rec])
  }

  /** The records a recognized table contributes: one per row after the
      header, in row order. */
  function TableRecords(t: RecognizedTable, toInteger: string -> Option<int>): Option<seq<Record>> {
    if !InBounds(t) then None else DataRecords(Reconstruct(t), t.rowCount, toInteger)
  }

  /** The records of all recognized tables of a document, table after table. */
  function DocumentRecords(ts: seq<RecognizedTable>, toInteger: string -> Option<int>): Option<seq<Record>> {
    if ts == [] then Some([])
    else match DocumentRecords(ts[..|ts| - 1], toInteger)
      case None => None
      case Some(recs) =>
        match TableRecords(ts[|ts| - 1], toInteger)
        case None => None
        case Some(more) => Some(recs + more)
  }

  /** Every ingested row keeps the table's constraints and its two
      enrichments: an embedding on every row, and on every row the
      translation of its own description. */
  predicate Enriched(rows: seq<Row>, svc: Services) {
    UniqueKeys(rows) && AllEmbedded(rows) && AllTranslated(rows, svc.translate)
  }

  /** One row iteration appends exactly the mapped record and keeps the
      table enriched. */
  lemma IngestRowAppends(rows: seq<Row>, row: seq<Cell>, svc: Services)
    requires IngestRow(rows, row, svc).Success?
    ensures RecordOf(row, svc.toInteger).Success?
    ensures RecordsOf(IngestRow(rows, row, svc).value) == RecordsOf(rows) + [RecordOf(row, svc.toInteger).value]
    ensures Enriched(rows, svc) ==> Enriched(IngestRow(rows, row, svc).value, svc)
  {
    var rec := RecordOf(row, svc.toInteger).value;
    var inserted := rows + [Fresh(rec)];
    var r := IngestRow(rows, row, svc).value;
    assert RecordsOf(r) == RecordsOf(inserted);
    assert RecordsOf(inserted) == RecordsOf(rows) + [rec];
    if Enriched(rows, svc) {
      InsertKeepsUnique(rows, rec);
      assert UniqueKeys(inserted);
      forall i, j | 0 <= i < j < |r|
        ensures r[i].record.inventoryId != r[j].record.inventoryId && r[i].record.name != r[j].record.name
      {
        assert r[i].record == inserted[i].record && r[j].record == inserted[j].record;
      }
    }
  }

  /** The row loop over a grid appends, in row order, one record per data
      row, never the header, and keeps the table enriched. */
  lemma {:induction false} IngestGridAppends(rows: seq<Row>, grid: seq<seq<Cell>>, n: nat, svc: Services)
    requires n <= |grid| && IngestGrid(rows, grid, n, svc).Success?
    ensures DataRecords(grid, n, svc.toInteger).Some?
    ensures RecordsOf(IngestGrid(rows, grid, n, svc).value) == RecordsOf(rows) + DataRecords(grid, n, svc.toInteger).value
    ensures Enriched(rows, svc) ==> Enriched(IngestGrid(rows, grid, n, svc).value, svc)
  {
    if n > 1 {
      IngestGridAppends(rows, grid, n - 1, svc);
      var r := IngestGrid(rows, grid, n - 1, svc).value;
      IngestRowAppends(r, grid[n - 1], svc);
    }
  }

  /** Each recognized table contributes exactly `row_count - 1` rows (none
      for an empty table), in row order, appended to the same table; the
      header row is never inserted. The table stays enriched. */
  lemma IngestTableAppends(rows: seq<Row>, t: RecognizedTable, svc: Services)
    requires IngestTable(rows, t, svc).Success?
    ensures TableRecords(t, svc.toInteger).Some?
    ensures |TableRecords(t, svc.toInteger).value| == if t.rowCount == 0 then 0 else t.rowCount - 1
    ensures forall i :: 0 <= i < |TableRecords(t, svc.toInteger).value| ==>
      RecordOf(Reconstruct(t)[i + 1], svc.toInteger) == Success(TableRecords(t, svc.toInteger).value[i])
    ensures RecordsOf(IngestTable(rows, t, svc).value) == RecordsOf(rows) + TableRecords(t, svc.toInteger).value
    ensures Enriched(rows, svc) ==> Enriched(IngestTable(rows, t, svc).value, svc)
  {
    IngestGridAppends(rows, Reconstruct(t), t.rowCount, svc);
  }

  lemma IngestTableRecords(rows: seq<Row>, t: RecognizedTable, svc: Services)
    requires IngestTable(rows, t, svc).Success?
    ensures TableRecords(t, svc.toInteger).Some?
    ensures RecordsOf(IngestTable(rows, t, svc).value) == RecordsOf(rows) + TableRecords(t, svc.toInteger).value
  {
    IngestGridAppends(rows, Reconstruct(t), t.rowCount, svc);
  }

  lemma {:induction false} IngestTablesRecords(rows: seq<Row>, ts: seq<RecognizedTable>, svc: Services)
    requires IngestTables(rows, ts, svc).Success?
    ensures DocumentRecords(ts, svc.toInteger).Some?
    ensures RecordsOf(IngestTables(rows, ts, svc).value) == RecordsOf(rows) + DocumentRecords(ts, svc.toInteger).value
  {
    if ts != [] {
      var init, t := ts[..|ts| - 1], ts[|ts| - 1];
      assert IngestTables(rows, init, svc).Success?;
      IngestTablesRecords(rows, init, svc);
      var r := IngestTables(rows, init, svc).value;
      assert IngestTables(rows, ts, svc) == IngestTable(r, t, svc);
      IngestTableRecords(r, t, svc);
      var before, more := DocumentRecords(init, svc.toInteger).value, TableRecords(t, svc.toInteger).value;
      assert DocumentRecords(ts, svc.toInteger) == Some(before + more);
      var last := IngestTable(r, t, svc).value;
      assert RecordsOf(last) == (RecordsOf(rows) + before) + more;
      assert (RecordsOf(rows) + before) + more == RecordsOf(rows) + (before + more);
    }
  }

  lemma {:induction false} IngestTablesEnriched(rows: seq<Row>, ts: seq<RecognizedTable>, svc: Services)
    requires IngestTables(rows, ts, svc).Success? && Enriched(rows, svc)
    ensures Enriched(IngestTables(rows, ts, svc).value, svc)
  {
    if ts != [] {
      var init, t := ts[..|ts| - 1], ts[|ts| - 1];
      assert IngestTables(rows, init, svc).Success?;
      IngestTablesEnriched(rows, init, svc);
      var r := IngestTables(rows, init, svc).value;
      assert IngestTables(rows, ts, svc) == IngestTable(r, t, svc);
      IngestTableAppends(r, t, svc);
    }
  }

  /** The table loop appends every recognized table's records in document
      order and keeps the table enriched. */
  lemma IngestTablesAppends(rows: seq<Row>, ts: seq<RecognizedTable>, svc: Services)
    requires IngestTables(rows, ts, svc).Success?
    ensures DocumentRecords(ts, svc.toInteger).Some?
    ensures RecordsOf(IngestTables(rows, ts, svc).value) == RecordsOf(rows) + DocumentRecords(ts, svc.toInteger).value
    ensures Enriched(rows, svc) ==> Enriched(IngestTables(rows, ts, svc).value, svc)
  {
    IngestTablesRecords(rows, ts, svc);
    if Enriched(rows, svc) {
      IngestTablesEnriched(rows, ts, svc);
    }
  }

  /** Replace, not merge: after a successful upload of one PDF, its table
      holds exactly the records of the document's data rows, in order, every
      one embedded and translated; all other tables are as they were. */
  lemma UploadReplacesTable(store: map<string, seq<Row>>, f: UploadedFile, svc: Services)
    requires IsPdfName(f.filename) && f.document.paragraphs != []
    requires IngestTables([], f.document.tables, svc).Success?
    ensures var name := TableName(f.document.paragraphs[0]);
      var after := UploadFiles(store, [f], svc);
      && after.0 == SuccessPage
      && after.1.Keys == store.Keys + {name}
      && (forall n :: n in store && n != name ==> after.1[n] == store[n])
      && DocumentRecords(f.document.tables, svc.toInteger).Some?
      && RecordsOf(after.1[name]) == DocumentRecords(f.document.tables, svc.toInteger).value
      && Enriched(after.1[name], svc)
  {
    var name := TableName(f.document.paragraphs[0]);
    var rows := IngestTables([], f.document.tables, svc).value;
    IngestTablesAppends([], f.document.tables, svc);
    assert Enriched([], svc);
    assert [f][0] == f && [f][1..] == [];
    assert UploadFiles(store, [f], svc) == UploadFiles(store[name := rows], [], svc);
    assert UploadFiles(store, [f], svc) == (SuccessPage, store[name := rows]);
  }

  /** Files are handled one after another: the request over `a + b` is the
      request over `a`, followed by `b` only if `a` reached the success page. */
  lemma {:induction false} UploadFilesAppend(store: map<string, seq<Row>>, a: seq<UploadedFile>, b: seq<UploadedFile>, svc: Services)
    ensures UploadFiles(store, a + b, svc) ==
      var first := UploadFiles(store, a, svc);
      if first.0 == SuccessPage then UploadFiles(first.1, b, svc) else first
    decreases |a|
  {
    if a != [] {
      assert (a + b)[0] == a[0] && (a + b)[1..] == a[1..] + b;
      var f := a[0];
      if IsPdfName(f.filename) && f.document.paragraphs != [] {
        var name := TableName(f.document.paragraphs[0]);
        match IngestTables([], f.document.tables, svc)
        case Failure(e) =>
        case Success(rows) => UploadFilesAppend(store[name := rows], a[1..], b, svc);
      }
    } else {
      assert a + b == b;
    }
  }

  /** Processing stops at the first file whose name does not end in ".pdf":
      the response is never the success page, the files after it are never
      looked at, and the committed state is the one the files before it left. */
  lemma UploadStopsAtNonPdf(store: map<string, seq<Row>>, files: seq<UploadedFile>, k: nat, svc: Services)
    requires k < |files| && !IsPdfName(files[k].filename)
    ensures var before := UploadFiles(store, files[..k], svc);
      UploadFiles(store, files, svc) == if before.0 == SuccessPage then (FailurePage, before.1) else before
  {
    assert files == files[..k] + files[k..];
    UploadFilesAppend(store, files[..k], files[k..], svc);
  }

  /** What a failed row loop leaves pending is what a successful shorter
      run of the same loop returns: the rows before the failing one went
      through in full, and the failing one added nothing. */
  lemma {:induction false} GridPendingIsPrefix(rows: seq<Row>, grid: seq<seq<Cell>>, n: nat, svc: Services)
    requires n <= |grid|
    ensures exists k :: 0 <= k <= n && IngestGrid(rows, grid, k, svc) == Success(GridPending(rows, grid, n, svc))
  {
    if n <= 1 {
      assert IngestGrid(rows, grid, n, svc) == Success(GridPending(rows, grid, n, svc));
    } else {
      match IngestGrid(rows, grid, n - 1, svc)
      case Failure(_) =>
        GridPendingIsPrefix(rows, grid, n - 1, svc);
        var k :| 0 <= k <= n - 1 && IngestGrid(rows, grid, k, svc) == Success(GridPending(rows, grid, n - 1, svc));
        assert IngestGrid(rows, grid, k, svc) == Success(GridPending(rows, grid, n, svc));
      case Success(r) =>
        match IngestRow(r, grid[n - 1], svc)
        case Failure(_) =>
          assert IngestGrid(rows, grid, n - 1, svc) == Success(GridPending(rows, grid, n, svc));
        case Success(next) =>
          assert IngestGrid(rows, grid, n, svc) == Success(GridPending(rows, grid, n, svc));
    }
  }

  /** The session and the committed state at the end of a request: equal
      unless the request ended in an exception, and even then they hold
      the same tables and differ in at most one of them, the failing
      document's, which is committed empty. */
  lemma {:induction false} UploadPendingCommitted(store: map<string, seq<Row>>, files: seq<UploadedFile>, svc: Services)
    ensures var after := UploadFiles(store, files, svc);
      var pending := UploadPending(store, files, svc);
      && (!after.0.Crash? ==> pending == after.1)
      && pending.Keys == after.1.Keys
      && (forall a :: a in pending && pending[a] != after.1[a] ==> after.1[a] == [])
      && (forall a, b :: a in pending && b in pending && pending[a] != after.1[a] && pending[b] != after.1[b] ==> a == b)
    decreases |files|
  {
    if files != [] {
      var f := files[0];
      if IsPdfName(f.filename) && f.document.paragraphs != [] {
        var name := TableName(f.document.paragraphs[0]);
        match IngestTables([], f.document.tables, svc)
        case Failure(e) =>
        case Success(rows) => UploadPendingCommitted(store[name := rows], files[1..], svc);
      }
    }
  }

  // ------------------------------------------------------ the request handler

  /** Once a row fails, later rows change neither the outcome nor the
      rows left pending. */
  lemma {:induction false} IngestGridFailureSticks(rows: seq<Row>, grid: seq<seq<Cell>>, n: nat, m: nat, svc: Services)
    requires n <= m <= |grid| && IngestGrid(rows, grid, n, svc).Failure?
    ensures IngestGrid(rows, grid, m, svc) == IngestGrid(rows, grid, n, svc)
    ensures GridPending(rows, grid, m, svc) == GridPending(rows, grid, n, svc)
    decreases m
  {
    if m > n {
      IngestGridFailureSticks(rows, grid, n, m - 1, svc);
    }
  }

  /** Once a table fails, later tables change neither the outcome nor the
      rows left pending. */
  lemma {:induction false} IngestTablesFailureSticks(rows: seq<Row>, ts: seq<RecognizedTable>, j: nat, svc: Services)
    requires j <= |ts| && IngestTables(rows, ts[..j], svc).Failure?
    ensures IngestTables(rows, ts, svc) == IngestTables(rows, ts[..j], svc)
    ensures TablesPending(rows, ts, svc) == TablesPending(rows, ts[..j], svc)
    decreases |ts| - j
  {
    if j < |ts| {
      assert ts[..j + 1][..j] == ts[..j];
      IngestTablesFailureSticks(rows, ts, j + 1, svc);
    } else {
      assert ts[..j] == ts;
    }
  }

  /** One pass of the row loop body: the INSERT of `row[0..8]`, the
      embedding pass and the description-matched translation update. `error`
      is None exactly when `IngestRow` succeeds, and then the named table
      holds its result. */
  method InsertGridRow(db: Database, name: string, row: seq<Cell>, svc: Services) returns (error: Option<Error>)
    requires db.Valid() && name in db.tables
    modifies db
    ensures db.Valid() && db.committed == old(db.committed)
    ensures var expected := IngestRow(old(db.tables)[name], row, svc);
      && (expected.Success? <==> error.None?)
      && (expected.Failure? ==> error == Some(expected.error) && db.tables == old(db.tables))
      && (expected.Success? ==> db.tables == old(db.tables)[name := expected.value])
  {
    match RecordOf(row, svc.toInteger)
    case Failure(e) =>
      return Some(e);
    case Success(rec) =>
      var inserted := db.Insert(name, rec);
      if !inserted {
        return Some(DuplicateKey);
      }
      db.EmbedWhereNull(name, svc.embed);
      var english := TextOf(row[2]);
      var spanish := svc.translate(english);
      db.SetSpanishWhereDescription(name, english, spanish);
      return None;
  }

  /** `matrix[row_index]`: row `r` of the built grid, which is row `r` of
      the table's reconstruction. */
  method ReadRow(grid: array2<Cell>, r: nat, t: RecognizedTable) returns (row: seq<Cell>)
    requires r < grid.Length0 == t.rowCount && grid.Length1 == t.columnCount
    requires forall a, b :: 0 <= a < t.rowCount && 0 <= b < t.columnCount ==> grid[a, b] == Reconstruct(t)[a][b]
    ensures row == Reconstruct(t)[r]
  {
    row := seq(grid.Length1, c requires 0 <= c < grid.Length1 reads grid => grid[r, c]);
  }

  /** Row `r` of the row loop, on top of the rows before it: the named
      table holds what the loop over rows 1 .. r leaves pending and nothing
      else changed; on an error that is the table as it was, and the error
      is the one `IngestGrid` ends with. */
  method InsertNextRow(db: Database, name: string, row: seq<Cell>, r: nat, ghost g: seq<seq<Cell>>,
                       ghost start: seq<Row>, ghost before: map<string, seq<Row>>, svc: Services)
    returns (error: Option<Error>)
    requires 1 <= r < |g| && row == g[r]
    requires db.Valid() && name in db.tables && db.tables == before[name := db.tables[name]]
    requires IngestGrid(start, g, r, svc) == Success(db.tables[name])
    modifies db
    ensures db.Valid() && db.committed == old(db.committed)
    ensures name in db.tables && db.tables == before[name := GridPending(start, g, r + 1, svc)]
    ensures var expected := IngestGrid(start, g, r + 1, svc);
      && (expected.Success? <==> error.None?)
      && (expected.Failure? ==> error == Some(expected.error) && db.tables == old(db.tables))
      && (expected.Success? ==> expected.value == db.tables[name])
  {
    ghost var prior := db.tables[name];
    assert IngestGrid(start, g, r + 1, svc) == IngestRow(prior, row, svc);
    error := InsertGridRow(db, name, row, svc);
    if error.None? {
      UpdateTwice(before, name, prior, IngestRow(prior, row, svc).value);
    } else {
      assert GridPending(start, g, r + 1, svc) == prior;
      UpdateTwice(before, name, prior, prior);
    }
  }

  /** The row loop of one recognized table (`for row_index in range(1,
      len(matrix))`), after its grid is built: `error` is None exactly when
      `IngestTable` succeeds, and then the named table holds its result; on
      an error it holds the rows issued before the failing row. */
  method InsertTableRows(db: Database, name: string, t: RecognizedTable, svc: Services) returns (error: Option<Error>)
    requires db.Valid() && name in db.tables
    modifies db
    ensures db.Valid() && db.committed == old(db.committed)
    ensures var expected := IngestTable(old(db.tables)[name], t, svc);
      && (expected.Success? <==> error.None?)
      && (expected.Failure? ==> error == Some(expected.error))
      && (expected.Success? ==> db.tables == old(db.tables)[name := expected.value])
    ensures db.tables == old(db.tables)[name := TablePending(old(db.tables)[name], t, svc)]
  {
    ghost var start := db.tables[name];
    ghost var g := Reconstruct(t);
    var grid, ok := BuildGrid(t);
    if !ok {
      return Some(CellOutOfRange);
    }
    ghost var before := db.tables;
    assert before[name := start] == before;
    var r := 1;
    while r < grid.Length0
      invariant 1 <= r && grid.Length0 == |g|
      invariant db.Valid() && db.committed == old(db.committed) && name in db.tables
      invariant db.tables == before[name := db.tables[name]]
      invariant IngestGrid(start, g, if r <= |g| then r else |g|, svc) == Success(db.tables[name])
      invariant forall a, b :: 0 <= a < t.rowCount && 0 <= b < t.columnCount ==> grid[a, b] == g[a][b]
    {
      var row := ReadRow(grid, r, t);
      error := InsertNextRow(db, name, row, r, g, start, before, svc);
      if error.Some? {
        IngestGridFailureSticks(start, g, r + 1, |g|, svc);
        return;
      }
      r := r + 1;
    }
    error := None;
  }

  /** Table `j` of the table loop, on top of the tables before it: the
      named table holds what the loop over tables 0 .. j leaves pending and
      nothing else changed; on an error the error is the one `IngestTables`
      ends with. */
  method InsertNextTable(db: Database, name: string, ts: seq<RecognizedTable>, j: nat,
                         ghost start: seq<Row>, ghost before: map<string, seq<Row>>, svc: Services)
    returns (error: Option<Error>)
    requires j < |ts|
    requires db.Valid() && name in db.tables && db.tables == before[name := db.tables[name]]
    requires IngestTables(start, ts[..j], svc) == Success(db.tables[name])
    modifies db
    ensures db.Valid() && db.committed == old(db.committed)
    ensures name in db.tables && db.tables == before[name := TablesPending(start, ts[..j + 1], svc)]
    ensures var expected := IngestTables(start, ts[..j + 1], svc);
      && (expected.Success? <==> error.None?)
      && (expected.Failure? ==> error == Some(expected.error))
      && (expected.Success? ==> expected.value == db.tables[name])
  {
    ghost var prior := db.tables[name];
    assert ts[..j + 1][..j] == ts[..j] && ts[..j + 1][j] == ts[j];
    assert IngestTables(start, ts[..j + 1], svc) == IngestTable(prior, ts[j], svc);
    error := InsertTableRows(db, name, ts[j], svc);
    assert TablesPending(start, ts[..j + 1], svc) == TablePending(prior, ts[j], svc);
    UpdateTwice(before, name, prior, TablePending(prior, ts[j], svc));
  }

  /** The table loop of one document (`for table in result.tables`), into
      the named table: `error` is None exactly when `IngestTables` succeeds,
      and then the named table holds its result; on an error it holds the
      rows issued before the failing row. */
  method InsertDocumentTables(db: Database, name: string, ts: seq<RecognizedTable>, svc: Services)
    returns (error: Option<Error>)
    requires db.Valid() && name in db.tables
    modifies db
    ensures db.Valid() && db.committed == old(db.committed)
    ensures var expected := IngestTables(old(db.tables)[name], ts, svc);
      && (expected.Success? <==> error.None?)
      && (expected.Failure? ==> error == Some(expected.error))
      && (expected.Success? ==> db.tables == old(db.tables)[name := expected.value])
    ensures db.tables == old(db.tables)[name := TablesPending(old(db.tables)[name], ts, svc)]
  {
    ghost var start := db.tables[name];
    ghost var before := db.tables;
    assert before[name := start] == before;
    var j := 0;
    while j < |ts|
      invariant 0 <= j <= |ts|
      invariant db.Valid() && db.committed == old(db.committed) && name in db.tables
      invariant db.tables == before[name := db.tables[name]]
      invariant IngestTables(start, ts[..j], svc) == Success(db.tables[name])
      invariant db.tables[name] == TablesPending(start, ts[..j], svc)
    {
      error := InsertNextTable(db, name, ts, j, start, before, svc);
      if error.Some? {
        IngestTablesFailureSticks(start, ts, j + 1, svc);
        return;
      }
      j := j + 1;
    }
    assert ts[..j] == ts;
    error := None;
  }

  /** `DROP TABLE IF EXISTS` then `CREATE TABLE`, each committed: the
      table is empty in both the session and the committed state. */
  method RecreateTable(db: Database, name: string)
    requires db.Valid() && db.tables == db.committed
    modifies db
    ensures db.Valid() && db.tables == db.committed
    ensures db.committed == old(db.committed)[name := []]
  {
    ghost var before := db.committed;
    db.DropTable(name);
    db.Commit();
    db.CreateTable(name);
    db.Commit();
    assert db.committed == before[name := []];
  }

  /** One PDF's table: DROP and CREATE it (each committed), ingest every
      recognized table into it, then COMMIT. On an error the committed
      state holds the table empty, as the second COMMIT left it, and the
      session holds the rows issued before the failing row. */
  method ReplaceTable(db: Database, name: string, ts: seq<RecognizedTable>, svc: Services)
    returns (error: Option<Error>)
    requires db.Valid() && db.tables == db.committed
    modifies db
    ensures db.Valid()
    ensures match IngestTables([], ts, svc)
      case Failure(e) => error == Some(e) && db.committed == old(db.committed)[name := []]
      case Success(rows) => error == None && db.committed == old(db.committed)[name := rows] && db.tables == db.committed
    ensures db.tables == old(db.committed)[name := TablesPending([], ts, svc)]
  {
    ghost var before := db.committed;
    RecreateTable(db, name);
    error := InsertDocumentTables(db, name, ts, svc);
    if error.Some? {
      return;
    }
    db.Commit();
    assert db.committed == before[name := IngestTables([], ts, svc).value];
  }

  /** The POST branch of `upload_pdf` against a database session: the
      response and the committed state are those of `UploadFiles`, and the
      session's tables are `UploadPending`. */
  method UploadPdf(db: Database, files: seq<UploadedFile>, svc: Services) returns (response: Response)
    requires db.Valid() && db.tables == db.committed
    modifies db
    ensures db.Valid()
    ensures (response, db.committed) == UploadFiles(old(db.committed), files, svc)
    ensures !response.Crash? ==> db.tables == db.committed
    ensures db.tables == UploadPending(old(db.committed), files, svc)
  {
    var i := 0;
    while i < |files|
      invariant 0 <= i <= |files|
      invariant db.Valid() && db.tables == db.committed
      invariant UploadFiles(old(db.committed), files, svc) == UploadFiles(db.committed, files[i..], svc)
      invariant UploadPending(old(db.committed), files, svc) == UploadPending(db.committed, files[i..], svc)
    {
      var file := files[i];
      assert files[i..][0] == file && files[i..][1..] == files[i + 1..];
      if !IsPdfName(file.filename) {
        return FailurePage;
      }
      var doc := file.document;
      if doc.paragraphs == [] {
        return Crash(NoParagraph);
      }
      var name := TableName(doc.paragraphs[0]);
      var error := ReplaceTable(db, name, doc.tables, svc);
      if error.Some? {
        return Crash(error.value);
      }
      i := i + 1;
    }
    return SuccessPage;
  }
}

/** CachedSqlTableModel: an in-memory copy of one SQL table's rows behind a
    table view. Rows are appended to the cache at once and written back later
    as one multi-row INSERT; a SELECT replaces the whole cache.

    The object is an immutable `Model` value and every member function of the
    class is a function from the old value to the new one. Signals are
    appended to `events`. Every answer of the database is an input: the reply
    to a prepare or exec call, the cursor a SELECT yields, and the driver's
    escaping and formatting functions. */
module CachedSqlTableModel {
  import opened SqlTypes
  import opened SqlText
  import opened InsertValues

  /** Qt::DisplayRole */
  const DisplayRole: int := 0

  /** QSqlTableModel::EditStrategy */
  datatype EditStrategy = OnFieldChange | OnRowChange | OnManualSubmit

  /** What the model emits, in order. The first four are the view
      notifications of QAbstractItemModel; `SubmitAllScheduled` marks a flush
      handed to a worker thread; the last two are the class's own signals. */
  datatype Event =
    | BeginInsertRows(first: int, last: int)
    | EndInsertRows
    | BeginResetModel
    | EndResetModel
    | SubmitAllScheduled
    | RowsInserted(first: int, last: int)
    | InsertionFailed

  /** QModelIndex: valid when row and column are non-negative and it belongs
      to a model. */
  datatype ModelIndex = ModelIndex(row: int, column: int, hasModel: bool)

  predicate IsValid(index: ModelIndex)
  {
    index.row >= 0 && index.column >= 0 && index.hasModel
  }

  /** The object's state. `commitBeginRow` is the first row not yet written
      back, -1 when there is none. */
  datatype Model = Model(
    cache: seq<Record>,
    commitBeginRow: int,
    editStrategy: EditStrategy,
    columnCount: nat,
    lastError: SqlError,
    templateRecord: Record,
    tableName: string,
    filter: string,
    events: seq<Event>)

  /** A write-back: the state after it, the statement it sent, and whether
      exec succeeded. */
  datatype Flush = Flush(after: Model, statement: string, ok: bool)

  /** A freshly constructed model, with the initial values of its fields. */
  function Init(): (m: Model)
    ensures RowCount(m) == 0 && ColumnCount(m) == 0
    ensures m.commitBeginRow == -1 && PendingRows(m.cache, m.commitBeginRow) == []
    ensures m.editStrategy == OnRowChange
    ensures m.lastError == NoError && m.events == []
  {
    Model([], -1, OnRowChange, 0, NoError, Record([]), "", "", [])
  }

  function RowCount(m: Model): int
  {
    |m.cache|
  }

  function ColumnCount(m: Model): int
  {
    m.columnCount
  }

  /** The cell at `index` for the display role. Nothing is read for an
      invalid index, a row past the cache or another role. The column is not
      checked against the column count: a column outside the row's own
      fields reads as an invalid value. */
  function Data(m: Model, index: ModelIndex, role: int): (v: Value)
    ensures v != Invalid ==> IsValid(index) && index.row < RowCount(m) && role == DisplayRole
    ensures v != Invalid ==> 0 <= index.column < Count(m.cache[index.row])
    ensures IsValid(index) && index.row < RowCount(m) && role == DisplayRole
            && index.column < Count(m.cache[index.row])
            ==> v == m.cache[index.row].fields[index.column].value
  {
    if !IsValid(index) || index.row >= |m.cache| || role != DisplayRole then Invalid
    else ValueAt(m.cache[index.row], index.column)
  }

  /** Whether an edit under this strategy triggers submitAll. */
  predicate FlushesOnChange(s: EditStrategy)
  {
    s == OnRowChange || s == OnFieldChange
  }

  /** submitAll: hands insertPendingRows to a worker thread. The write-back
      itself is the separate step `InsertPendingRows`. */
  function SubmitAll(m: Model): (r: Model)
    ensures r.cache == m.cache && r.commitBeginRow == m.commitBeginRow
    ensures |r.events| == |m.events| + 1
    ensures r.events[..|m.events|] == m.events && r.events[|m.events|] == SubmitAllScheduled
    ensures r.(events := m.events) == m
  {
    m.(events := m.events + [SubmitAllScheduled])
  }

  /** insertRecord: appends the record, announces it to the view, opens the
      pending range at the new row if none is open, and schedules a
      write-back under the OnRowChange and OnFieldChange strategies. The
      record is taken as it is: nothing checks it against the columns. */
  function InsertRecord(m: Model, record: Record): (r: Model)
    ensures RowCount(r) == RowCount(m) + 1
    ensures r.cache[..|m.cache|] == m.cache && r.cache[|m.cache|] == record
    ensures m.commitBeginRow == -1 ==> r.commitBeginRow == RowCount(r) - 1
    ensures m.commitBeginRow != -1 ==> r.commitBeginRow == m.commitBeginRow
    ensures |r.events| >= |m.events| + 2 && r.events[..|m.events|] == m.events
    ensures r.events[|m.events|..|m.events| + 2] == [BeginInsertRows(|m.cache|, |m.cache| + 1), EndInsertRows]
    ensures |r.events| == |m.events| + 3 <==> FlushesOnChange(m.editStrategy)
    ensures FlushesOnChange(m.editStrategy) ==> r.events[|r.events| - 1] == SubmitAllScheduled
    ensures !FlushesOnChange(m.editStrategy) ==> |r.events| == |m.events| + 2
    ensures forall i :: |m.events| <= i < |r.events| ==> !r.events[i].RowsInserted? && !r.events[i].InsertionFailed?
    ensures r.(cache := m.cache, commitBeginRow := m.commitBeginRow, events := m.events) == m
  {
    var n := |m.cache|;
    var appended := m.(cache := m.cache + [record],
                       events := m.events + [BeginInsertRows(n, n + 1), EndInsertRows]);
    var withPending := if appended.commitBeginRow == -1 then appended.(commitBeginRow := n) else appended;
    if FlushesOnChange(withPending.editStrategy) then SubmitAll(withPending) else withPending
  }

  /** The SELECT text: the escaped table name and the filter clause after a
      single space. The text is not trimmed. */
  function SelectStatement(d: Driver, m: Model): string
  {
    "SELECT * FROM " + d.escapeTableName(m.tableName) + " " + m.filter
  }

  /** A SELECT: the state after it and the statement it prepared. */
  datatype Query = Query(after: Model, statement: string)

  /** select: prepares the SELECT text and records a failed prepare (a
      failed exec is not recorded). A cursor that did not become active
      leaves the rows, the template and the column count alone. An active one
      replaces the template with its record and the cache with its rows, in
      cursor order, and resets the view. The pending start is not touched
      either way. */
  function Select(d: Driver, m: Model, prepare: Reply, cursor: Cursor): (q: Query)
    ensures q.statement == SelectStatement(d, m)
    ensures prepare.Failed? ==> q.after.lastError == prepare.error
    ensures prepare.Succeeded? ==> q.after.lastError == m.lastError
    ensures !cursor.active ==> q.after.(lastError := m.lastError) == m
    ensures cursor.active ==> q.after.cache == cursor.rows && q.after.templateRecord == cursor.header
    ensures cursor.active ==> ColumnCount(q.after) == Count(cursor.header)
    ensures cursor.active ==> q.after.events == m.events + [BeginResetModel, EndResetModel]
    ensures q.after.commitBeginRow == m.commitBeginRow && q.after.editStrategy == m.editStrategy
    ensures q.after.tableName == m.tableName && q.after.filter == m.filter
  {
    var statement := SelectStatement(d, m);
    var prepared := if prepare.Failed? then m.(lastError := prepare.error) else m;
    if !cursor.active then Query(prepared, statement)
    else Query(prepared.(templateRecord := cursor.header,
                         columnCount := Count(cursor.header),
                         cache := cursor.rows,
                         events := prepared.events + [BeginResetModel, EndResetModel]),
               statement)
  }

  /** The statement text up to the VALUES list. */
  function InsertPrefix(d: Driver, m: Model): string
  {
    "INSERT INTO " + d.escapeTableName(m.tableName) + " VALUES"
  }

  /** The whole INSERT statement for the pending rows. */
  function InsertStatement(d: Driver, m: Model): string
  {
    InsertValuesText(d, PendingRows(m.cache, m.commitBeginRow), m.columnCount, InsertPrefix(d, m))
  }

  /** insertPendingRows, run as one step: builds the INSERT for the pending
      rows, records a failed prepare and still executes. A failed exec sets
      the last error and emits insertionFailed; a successful one emits
      rowsInserted(commitBeginRow, rowCount - 1). Rows and pending start stay
      as they are in both cases. */
  function InsertPendingRows(d: Driver, m: Model, prepare: Reply, exec: Reply): (f: Flush)
    ensures f.ok <==> exec.Succeeded?
    ensures f.statement == InsertStatement(d, m)
    ensures f.after.cache == m.cache && f.after.commitBeginRow == m.commitBeginRow
    ensures f.after.(lastError := m.lastError, events := m.events) == m
    ensures !f.ok ==> f.after.lastError == exec.error && f.after.events == m.events + [InsertionFailed]
    ensures f.ok ==> f.after.events == m.events + [RowsInserted(m.commitBeginRow, RowCount(m) - 1)]
    ensures f.ok && prepare.Failed? ==> f.after.lastError == prepare.error
    ensures f.ok && prepare.Succeeded? ==> f.after.lastError == m.lastError
  {
    var statement := InsertStatement(d, m);
    var prepared := if prepare.Failed? then m.(lastError := prepare.error) else m;
    if exec.Failed? then
      Flush(prepared.(lastError := exec.error, events := prepared.events + [InsertionFailed]), statement, false)
    else
      Flush(prepared.(events := prepared.events + [RowsInserted(m.commitBeginRow, |m.cache| - 1)]), statement, true)
  }

  /** setFilter: stores the clause with "WHERE " in front. */
  function SetFilter(m: Model, filter: string): (r: Model)
    ensures GetFilter(r) == "WHERE " + filter
    ensures r.(filter := m.filter) == m
  {
    m.(filter := "WHERE " + filter)
  }

  function GetFilter(m: Model): string
  {
    m.filter
  }

  function SetTableName(m: Model, name: string): (r: Model)
    ensures GetTableName(r) == name
    ensures r.(tableName := m.tableName) == m
  {
    m.(tableName := name)
  }

  function GetTableName(m: Model): string
  {
    m.tableName
  }

  /** record(): the template of the last active SELECT. */
  function TemplateRecord(m: Model): Record
  {
    m.templateRecord
  }

  function LastError(m: Model): SqlError
  {
    m.lastError
  }

  /** A cell read is the value fieldValuesFromRecord lists for that row and column. */
  lemma DataReadsFieldValues(m: Model, index: ModelIndex)
    requires IsValid(index) && index.row < RowCount(m) && index.column < Count(m.cache[index.row])
    ensures Data(m, index, DisplayRole) == FieldValues(m.cache[index.row])[index.column]
  {
  }

  /** rowCount is the number of rows data() can show: every row below it reads
      its cached record, and every row at or past it reads nothing. */
  lemma RowCountBoundsData(m: Model, index: ModelIndex, role: int)
    ensures index.row >= RowCount(m) ==> Data(m, index, role) == Invalid
    ensures IsValid(index) && index.row < RowCount(m) && role == DisplayRole
            ==> Data(m, index, role) == ValueAt(m.cache[index.row], index.column)
  {
  }

  /** Reads are bounded by the row's own fields, not by the column count: a
      row wider than the column count shows its extra fields. */
  lemma DataIgnoresColumnCount(m: Model, index: ModelIndex)
    requires IsValid(index) && index.row < RowCount(m)
    requires ColumnCount(m) <= index.column < Count(m.cache[index.row])
    ensures Data(m, index, DisplayRole) == m.cache[index.row].fields[index.column].value
  {
  }

  /** After insertRecord the new last row reads back the supplied values,
      earlier rows read as before, and the column count is unchanged. */
  lemma ReadsAfterInsert(m: Model, record: Record, index: ModelIndex, role: int)
    ensures ColumnCount(InsertRecord(m, record)) == ColumnCount(m)
    ensures index.row < RowCount(m) ==> Data(InsertRecord(m, record), index, role) == Data(m, index, role)
    ensures IsValid(index) && index.row == RowCount(m) && role == DisplayRole
            ==> Data(InsertRecord(m, record), index, role) == ValueAt(record, index.column)
  {
    var r := InsertRecord(m, record);
    if index.row < RowCount(m) && IsValid(index) {
      assert r.cache[index.row] == m.cache[index.row];
    }
  }

  /** The pending start stays a row index: if it was unset or at most the row
      count, after insertRecord it points at a row of the cache. */
  lemma InsertKeepsPendingStartInRange(m: Model, record: Record)
    requires m.commitBeginRow == -1 || 0 <= m.commitBeginRow <= RowCount(m)
    ensures 0 <= InsertRecord(m, record).commitBeginRow < RowCount(InsertRecord(m, record))
  {
  }

  /** insertRecord announces two rows, [n, n + 1], while the cache grows by one. */
  lemma InsertAnnouncesOneRowTooMany(m: Model, record: Record)
    ensures var e := InsertRecord(m, record).events[|m.events|];
            e.BeginInsertRows? && e.last - e.first + 1 == 2
    ensures RowCount(InsertRecord(m, record)) - RowCount(m) == 1
  {
    var r := InsertRecord(m, record);
    assert r.events[|m.events|] == r.events[|m.events|..|m.events| + 2][0];
  }

  /** With no pending range, or a start at or past the end, the write-back
      has no tuple to send and the statement loses the final S of VALUES. */
  lemma NothingPendingDropsLastLetter(d: Driver, m: Model)
    requires m.commitBeginRow < 0 || m.commitBeginRow >= RowCount(m)
    ensures InsertStatement(d, m) == "INSERT INTO " + d.escapeTableName(m.tableName) + " VALUE"
  {
    var esc := d.escapeTableName(m.tableName);
    assert InsertPrefix(d, m) == ("INSERT INTO " + esc + " VALUE") + ['S'];
  }

  /** A successful write-back leaves the pending start where it was, so the
      next write-back after another insertRecord sends the rows just reported
      as inserted once more, followed by the new one. */
  lemma WriteBackResendsWrittenRows(d: Driver, m: Model, prepare: Reply, record: Record)
    requires 0 <= m.commitBeginRow < RowCount(m)
    ensures var f := InsertPendingRows(d, m, prepare, Succeeded);
            var next := InsertRecord(f.after, record);
            f.ok && f.after.events[|f.after.events| - 1] == RowsInserted(m.commitBeginRow, RowCount(m) - 1)
            && PendingRows(next.cache, next.commitBeginRow) == PendingRows(m.cache, m.commitBeginRow) + [record]
  {
    var f := InsertPendingRows(d, m, prepare, Succeeded);
    var next := InsertRecord(f.after, record);
    assert next.cache == m.cache + [record];
    assert next.cache[m.commitBeginRow..] == m.cache[m.commitBeginRow..] + [record];
  }

  /** select does not move the pending start. When the reload brings fewer
      rows than the start, a record inserted afterwards is never pending:
      the next write-back sends no tuple at all. */
  lemma ReloadStrandsLaterInserts(d: Driver, m: Model, prepare: Reply, cursor: Cursor, record: Record)
    requires cursor.active && m.commitBeginRow > |cursor.rows|
    ensures var next := InsertRecord(Select(d, m, prepare, cursor).after, record);
            RowCount(next) == |cursor.rows| + 1 && next.cache[|cursor.rows|] == record
            && PendingRows(next.cache, next.commitBeginRow) == []
  {
  }

  /** The SELECT that select prepares after setFilter(f) ends in " WHERE "
      and f; without a filter it ends in the space before the (empty) clause,
      since nothing trims it. */
  lemma SelectStatementFilter(d: Driver, m: Model, clause: string, prepare: Reply, cursor: Cursor)
    ensures Select(d, SetFilter(m, clause), prepare, cursor).statement
         == "SELECT * FROM " + d.escapeTableName(m.tableName) + " WHERE " + clause
    ensures m.filter == "" ==> var q := Select(d, m, prepare, cursor).statement;
                               |q| > 0 && q[|q| - 1] == ' '
  {
  }
}

# CachedSqlTableModel in Dafny

A model of `CachedSqlTableModel`, the write-caching table model of the
CachedSqlTable application. The class keeps every row of one SQL table in
memory for a Qt table view. `select` loads the whole table. `insertRecord`
appends a row to the cache at once and hands a write-back to a worker
thread. That write-back (`insertPendingRows`) sends all rows from the
pending start `commitBeginRow` to the end of the cache as one multi-row
`INSERT ... VALUES(..),(..)` and reports the outcome through the signals
`rowsInserted(first, last)` and `insertionFailed()`.

The model is functional. The object's fields form an immutable `Model`
value: the row cache, `commitBeginRow` (-1 for "none"), the edit strategy,
the column count, the template record, the last error, the table name, the
filter clause, and a log of emitted events. Each member function of the
class is a function from the old value to the new one. Everything the
database decides is an input:

- the driver's table-name escaping and literal formatting (`Driver`);
- the reply to each prepare and exec call (`Reply`);
- the cursor a SELECT yields (`Cursor`).

Files:

- `sql_types.dfy` (`SqlTypes`): values, fields, records, errors, replies,
  cursors and the driver, plus `fieldNamesFromRecord` and
  `fieldValuesFromRecord`.
- `sql_text.dfy` (`SqlText`): a comma-joined list, the same list with a comma
  after every element, and cutting off the last character.
- `insert_values.dfy` (`InsertValues`): `generateInsertValues`. It is written
  as the source's two nested loops and proved equal to a reference text: the
  tuples joined by commas.
- `cached_model.dfy` (`CachedSqlTableModel`): the state and every operation,
  with lemmas about single calls.
- `model_runs.dfy` (`ModelRuns`): arbitrary sequences of calls and
  write-backs, and what holds along them.

Behaviour the model reproduces as written:

- `insertRecord` announces rows `[n, n+1]` to the view although it adds one
  row (`InsertAnnouncesOneRowTooMany`).
- A successful write-back does not clear `commitBeginRow`. The next
  write-back therefore sends every row since the first insert again
  (`WriteBackResendsWrittenRows`).
- `select` does not touch `commitBeginRow`. After a reload the pending rows
  still start at the old index. Rows inserted later that land below it are
  never written back (`ReloadStrandsLaterInserts`). Rows at or past it are
  sent, and that includes rows the reload itself brought in, which are sent
  again (`ModelRuns.ReloadThenInsertsPending`).
- With nothing pending, the final truncation removes the `S` of `VALUES`
  (`NothingPendingDropsLastLetter`).
- Before any successful `select` the column count is 0, and every tuple is
  `()` (`TupleWithoutColumns`).

Things the code does not do, so the model does not do them either:

- `insertRecord` has no schema check.
- A write-back has no single-flight guard and no reset of the pending range.
- `select` records a failed prepare but not a failed exec.
- `data` bounds the column by the row's own fields, not by `columnCount`
  (`DataIgnoresColumnCount`).

## Model

| member | source | states |
|---|---|---|
| SqlTypes.FieldNames | CachedSqlTableModel.cpp:13-21 | one name per field of the record, in field order |
| SqlTypes.FieldValues | CachedSqlTableModel.cpp:23-32 | one value per field of the record, in field order |
| SqlTypes.NamesAndValuesRebuildRecord | CachedSqlTableModel.cpp:13-32 | zipping the field names with the field values gives back the record |
| SqlText.DropTrailingSep | CachedSqlTableModel.cpp:130-132 | appending "tuple," per row and then cutting off one character leaves the tuples joined by commas, with no trailing comma |
| InsertValues.FormattedFieldsAre | CachedSqlTableModel.cpp:124-128 | the inner loop's texts are the driver's formatting of fields 0 to k-1, one each |
| InsertValues.TupleFields | CachedSqlTableModel.cpp:123-130 | with at least one column, a tuple has exactly columnCount field texts: the first columnCount-1 are formatted by the driver and the last is the plain string of its value |
| InsertValues.TupleWithoutColumns | CachedSqlTableModel.cpp:124-129 | with a column count of 0 the inner loop does not run, the last value is out of range, and the tuple is "()" |
| InsertValues.TuplesAre | CachedSqlTableModel.cpp:120-131 | there is one tuple per pending row, and the i-th tuple belongs to the i-th row |
| InsertValues.AppendTuple | CachedSqlTableModel.cpp:123-130 | the inner loop appends "(", the field texts joined by commas, and then ")," |
| InsertValues.GenerateInsertValues | CachedSqlTableModel.cpp:117-133 | the loop over the pending rows gives the prefix followed by their tuples joined by commas. With no pending rows (start -1 or past the end) it gives the prefix minus its last character |
| CachedSqlTableModel.Init | CachedSqlTableModel.h:50-58 | a fresh model has no rows, column count 0, no pending start (-1) and so no pending rows, strategy OnRowChange, no error and no events |
| CachedSqlTableModel.Data | CachedSqlTableModel.cpp:97-105 | a non-empty value only for a valid index, a row inside the cache and the display role; then it is the row's value at that column, and it is invalid when the column is outside the row's fields |
| CachedSqlTableModel.DataReadsFieldValues | CachedSqlTableModel.cpp:97-105 | a displayed cell is the value fieldValuesFromRecord lists for that row and column |
| CachedSqlTableModel.DataIgnoresColumnCount | CachedSqlTableModel.cpp:99-104 | a column at or past columnCount still reads the row's field when the row has it |
| CachedSqlTableModel.SubmitAll | CachedSqlTableModel.cpp:60-63 | submitAll changes no rows and no pending start; it only schedules one write-back |
| CachedSqlTableModel.InsertRecord | CachedSqlTableModel.cpp:41-58 | the row count grows by one, earlier rows are unchanged and the last row is the record. The pending start moves to the new row only if it was -1. Rows [n, n+1] are announced. A write-back is scheduled iff the strategy is OnRowChange or OnFieldChange. No write-back signal is emitted and nothing else changes |
| CachedSqlTableModel.ReadsAfterInsert | CachedSqlTableModel.cpp:97-115 | after insertRecord the new row reads the supplied values, earlier rows read as before, and the column count is unchanged |
| CachedSqlTableModel.InsertKeepsPendingStartInRange | CachedSqlTableModel.cpp:47-50 | if the pending start was -1 or at most the row count, afterwards 0 <= start < rowCount |
| CachedSqlTableModel.InsertAnnouncesOneRowTooMany | CachedSqlTableModel.cpp:43-46 | the announced range covers two rows while the cache grows by one |
| CachedSqlTableModel.RowCountBoundsData | CachedSqlTableModel.cpp:97-110 | rowCount is the number of readable rows: a row below it reads its cached record at the column, a row at or past it reads nothing |
| CachedSqlTableModel.Select | CachedSqlTableModel.cpp:65-95 | the statement prepared is the SELECT text for the table and filter. A failed prepare sets the last error. An inactive cursor changes nothing else. An active one makes the cache exactly the cursor rows in order, the template the cursor's record and the column count its field count, and emits a reset. The pending start is never touched |
| CachedSqlTableModel.ReloadStrandsLaterInserts | CachedSqlTableModel.cpp:81-94 | after a reload to fewer rows than the pending start, an inserted record is in the cache but not among the pending rows |
| CachedSqlTableModel.InsertPendingRows | CachedSqlTableModel.cpp:145-170 | it sends the INSERT for the pending rows and returns whether exec succeeded. A failed exec sets the error from exec and emits insertionFailed. A successful one emits rowsInserted(commitBeginRow, rowCount-1) and keeps any prepare error. Cache and pending start are unchanged |
| CachedSqlTableModel.NothingPendingDropsLastLetter | CachedSqlTableModel.cpp:120-132 | with the pending start -1 or past the end, the statement is "INSERT INTO <table> VALUE" |
| CachedSqlTableModel.WriteBackResendsWrittenRows | CachedSqlTableModel.cpp:158-169 | after a successful write-back and one more insert, the pending rows are the rows just reported as inserted plus the new record |
| CachedSqlTableModel.SetFilter | CachedSqlTableModel.cpp:135-143 | getFilter afterwards returns "WHERE " followed by the clause; nothing else changes |
| CachedSqlTableModel.SelectStatementFilter | CachedSqlTableModel.cpp:67-75 | the statement select prepares after setFilter(f) is "SELECT * FROM <table> WHERE f"; without a filter it ends in an untrimmed space |
| CachedSqlTableModel.SetTableName | CachedSqlTableModel.cpp:192-200 | getTableName returns the name just set; nothing else changes |
| ModelRuns.StepKeepsInvariant | CachedSqlTableModel.h:54-58 | every call and write-back keeps the pending start at -1 or above, the column count equal to the template's field count, and the strategy OnRowChange |
| ModelRuns.RunKeepsInvariant | CachedSqlTableModel.h:54-58 | the same over any sequence of calls and write-backs |
| ModelRuns.EveryInsertSchedulesWriteBack | CachedSqlTableModel.h:55 | in every state reachable from a fresh model, insertRecord schedules a write-back, because no setter changes the strategy |
| ModelRuns.PendingStartNeverMoves | CachedSqlTableModel.cpp:47-50 | once the pending start is set, no sequence of calls or write-backs changes it |
| ModelRuns.ReachableColumnCount | CachedSqlTableModel.cpp:112-115 | in every reachable state columnCount is the field count of the current template record, whatever rows were inserted or loaded |
| ModelRuns.ColumnCountNeedsActiveSelect | CachedSqlTableModel.cpp:81-87 | without a select whose cursor became active, the column count never changes, so a fresh model keeps reporting 0 |
| ModelRuns.InsertsAppend | CachedSqlTableModel.cpp:41-50 | a sequence of inserts appends exactly the records, in order. It opens the pending range at the first of them only if none was open |
| ModelRuns.InsertsArePending | CachedSqlTableModel.cpp:41-58 | starting with nothing pending, the pending rows after the inserts are exactly the inserted records |
| ModelRuns.ReloadThenInsertsPending | CachedSqlTableModel.cpp:81-94 | after an active reload and any inserts, the cache is the cursor rows followed by the records, and the pending rows are those from the old pending start on |
| ModelRuns.InsertEventsAppend | CachedSqlTableModel.cpp:41-58 | inserts only append events, and none of them is rowsInserted or insertionFailed |
| ModelRuns.LoadInsertThreeWriteBack | CachedSqlTableModel.cpp:145-170 | after loading two rows, inserting three and a successful write-back: five rows, row 4 reads the third record, and the success signal is rowsInserted(2, 4), with no failure signal |

## Left out

- The worker thread of `submitAll` (`QtConcurrent::run`). A write-back is one atomic step. `ModelRuns.Op` lets a write-back happen at any point of a run, whether or not one was scheduled. This over-approximates when the worker runs, and the code does not serialise the worker against the owner thread.
- The driver's identifier escaping and literal formatting, prepare and exec, and the contents of cursors. These are foreign Qt/driver calls and are inputs to the model.
- The view's reaction to `beginInsertRows`, `endInsertRows`, `beginResetModel` and `endResetModel`. Only the emitted events are recorded.
- `setRecord`: it is declared in the header but never defined.
- `database` and `setDatabase`: the connection handle is not modelled. The driver is passed to each operation that uses it.
- `lastError` and `record`: plain getters, written as `LastError` and `TemplateRecord` without contracts.
- QVariant types other than integers and text, and their `toString` renderings.
- SqlTypes.Field: the field's type and its null flag (`QSqlField::type`, `isNull`) are not modelled. `Driver.formatValue` sees only the name and the value, so it must format two fields with equal name and value alike, where a real driver may switch on type and nullness. A typed null is `Invalid` and prints as the empty string.
- The 32-bit width of `int`. `rowCount`'s `static_cast<int>` and a cache of more than 2^31 - 1 rows are not modelled. The cast of `commitBeginRow` to `size_t` is modelled only as "a negative start is past every row".
- `mainwindow.cpp` and `mainwindow.h`: window construction and connection setup.

/** Sequences of calls on one CachedSqlTableModel. Each call is atomic; a
    write-back scheduled by submitAll runs as its own step whenever the
    worker gets to it, so appends and write-backs interleave freely. */
module ModelRuns {
  import opened SqlTypes
  import opened InsertValues
  import opened CachedSqlTableModel

  /** One call from outside, or the worker's write-back, with the database's
      answers for it. */
  datatype Op =
    | Insert(record: Record)
    | Submit
    | WriteBack(d: Driver, prepare: Reply, exec: Reply)
    | Reload(d: Driver, prepare: Reply, cursor: Cursor)
    | Filter(clause: string)
    | Table(name: string)

  function Step(m: Model, op: Op): Model
  {
    match op
    case Insert(record) => InsertRecord(m, record)
    case Submit => SubmitAll(m)
    case WriteBack(d, prepare, exec) => InsertPendingRows(d, m, prepare, exec).after
    case Reload(d, prepare, cursor) => Select(d, m, prepare, cursor).after
    case Filter(clause) => SetFilter(m, clause)
    case Table(name) => SetTableName(m, name)
  }

  function Run(m: Model, ops: seq<Op>): Model
    decreases |ops|
  {
    if |ops| == 0 then m else Run(Step(m, ops[0]), ops[1..])
  }

  function Inserts(records: seq<Record>): (ops: seq<Op>)
    ensures |ops| == |records|
    ensures forall i :: 0 <= i < |records| ==> ops[i] == Insert(records[i])
  {
    seq(|records|, i requires 0 <= i < |records| => Insert(records[i]))
  }

  /** What holds of every state a fresh model can reach: the pending start is
      -1 or a non-negative index, the column count is the template's field
      count, and the edit strategy is still OnRowChange (there is no setter). */
  predicate Invariant(m: Model)
  {
    && m.commitBeginRow >= -1
    && ColumnCount(m) == Count(m.templateRecord)
    && m.editStrategy == OnRowChange
  }

  lemma StepKeepsInvariant(m: Model, op: Op)
    requires Invariant(m)
    ensures Invariant(Step(m, op))
  {
  }

  lemma {:induction false} RunKeepsInvariant(m: Model, ops: seq<Op>)
    requires Invariant(m)
    ensures Invariant(Run(m, ops))
    decreases |ops|
  {
    if |ops| > 0 {
      StepKeepsInvariant(m, ops[0]);
      RunKeepsInvariant(Step(m, ops[0]), ops[1..]);
    }
  }

  /** Every state reached from a fresh model schedules a write-back on every
      insertRecord. */
  lemma EveryInsertSchedulesWriteBack(ops: seq<Op>, record: Record)
    ensures var m := Run(Init(), ops);
            var r := InsertRecord(m, record);
            |r.events| == |m.events| + 3 && r.events[|r.events| - 1] == SubmitAllScheduled
  {
    RunKeepsInvariant(Init(), ops);
  }

  /** Once a pending start is set, no call and no write-back moves it. */
  lemma {:induction false} PendingStartNeverMoves(m: Model, ops: seq<Op>)
    requires m.commitBeginRow != -1
    ensures Run(m, ops).commitBeginRow == m.commitBeginRow
    decreases |ops|
  {
    if |ops| > 0 {
      PendingStartNeverMoves(Step(m, ops[0]), ops[1..]);
    }
  }

  /** Without a SELECT whose cursor became active the column count never
      changes; from a fresh model it stays 0. */
  lemma {:induction false} ColumnCountNeedsActiveSelect(m: Model, ops: seq<Op>)
    requires forall i :: 0 <= i < |ops| && ops[i].Reload? ==> !ops[i].cursor.active
    ensures ColumnCount(Run(m, ops)) == ColumnCount(m)
    decreases |ops|
  {
    if |ops| > 0 {
      ColumnCountNeedsActiveSelect(Step(m, ops[0]), ops[1..]);
    }
  }

  /** A run of insertRecord calls appends exactly the supplied records, in
      order, and opens the pending range at the first of them if none was
      open. */
  lemma {:induction false} InsertsAppend(m: Model, records: seq<Record>)
    ensures Run(m, Inserts(records)).cache == m.cache + records
    ensures Run(m, Inserts(records)).commitBeginRow
         == if m.commitBeginRow == -1 && |records| > 0 then |m.cache| else m.commitBeginRow
    decreases |records|
  {
    if |records| > 0 {
      var next := InsertRecord(m, records[0]);
      assert Inserts(records)[1..] == Inserts(records[1..]);
      assert Run(m, Inserts(records)) == Run(next, Inserts(records[1..]));
      InsertsAppend(next, records[1..]);
      assert next.cache == m.cache + [records[0]];
      assert m.cache + [records[0]] + records[1..] == m.cache + records;
    }
  }

  /** Starting with nothing pending, after a run of inserts the pending rows
      are exactly the inserted records. */
  lemma InsertsArePending(m: Model, records: seq<Record>)
    requires m.commitBeginRow == -1
    ensures var r := Run(m, Inserts(records));
            PendingRows(r.cache, r.commitBeginRow) == records
  {
    InsertsAppend(m, records);
    var r := Run(m, Inserts(records));
    if |records| > 0 {
      assert r.cache[|m.cache|..] == records;
    }
  }

  /** select keeps the pending start, so after a reload the rows inserted
      later are pending only from that old start on: inserts landing below it
      are never written back, and rows at or past it are sent, including any
      the reload itself brought in. */
  lemma ReloadThenInsertsPending(d: Driver, m: Model, prepare: Reply, cursor: Cursor, records: seq<Record>)
    requires cursor.active && m.commitBeginRow >= 0
    ensures var r := Run(Select(d, m, prepare, cursor).after, Inserts(records));
            && r.cache == cursor.rows + records
            && PendingRows(r.cache, r.commitBeginRow) == PendingRows(cursor.rows + records, m.commitBeginRow)
  {
    InsertsAppend(Select(d, m, prepare, cursor).after, records);
  }

  /** In every state reachable from a fresh model, columnCount reports the
      field count of the template the last active SELECT described, however
      many rows were inserted or reloaded. */
  lemma ReachableColumnCount(ops: seq<Op>)
    ensures ColumnCount(Run(Init(), ops)) == Count(TemplateRecord(Run(Init(), ops)))
  {
    RunKeepsInvariant(Init(), ops);
  }

  /** A table of two rows is loaded, three records are inserted and the
      write-back succeeds: five rows, the last reads the third record, and
      the success signal covers rows 2 to 4. */
  lemma LoadInsertThreeWriteBack(d: Driver, header: Record, r0: Record, r1: Record,
                                 a: Record, b: Record, c: Record, column: nat)
    ensures var loaded := Select(d, Init(), Succeeded, Cursor(true, header, [r0, r1])).after;
            var appended := Run(loaded, Inserts([a, b, c]));
            var f := InsertPendingRows(d, appended, Succeeded, Succeeded);
            && RowCount(appended) == 5
            && Data(appended, ModelIndex(4, column, true), DisplayRole) == ValueAt(c, column)
            && PendingRows(appended.cache, appended.commitBeginRow) == [a, b, c]
            && f.ok
            && f.after.events[|f.after.events| - 1] == RowsInserted(2, 4)
            && InsertionFailed !in f.after.events
  {
    var loaded := Select(d, Init(), Succeeded, Cursor(true, header, [r0, r1])).after;
    InsertsAppend(loaded, [a, b, c]);
    InsertsArePending(loaded, [a, b, c]);
    var appended := Run(loaded, Inserts([a, b, c]));
    assert appended.cache == [r0, r1, a, b, c];
    InsertEventsAppend(loaded, [a, b, c]);
    assert loaded.events == [BeginResetModel, EndResetModel];
    var f := InsertPendingRows(d, appended, Succeeded, Succeeded);
    assert f.after.events == appended.events + [RowsInserted(2, 4)];
    forall i | 0 <= i < |f.after.events|
      ensures f.after.events[i] != InsertionFailed
    {
      if i < |loaded.events| {
        assert appended.events[i] == appended.events[..|loaded.events|][i];
      }
    }
  }

  /** Inserts only append events, and none of them is a write-back signal. */
  lemma {:induction false} InsertEventsAppend(m: Model, records: seq<Record>)
    ensures var r := Run(m, Inserts(records));
            |r.events| >= |m.events| && r.events[..|m.events|] == m.events
            && forall i :: |m.events| <= i < |r.events| ==> !r.events[i].RowsInserted? && !r.events[i].InsertionFailed?
    decreases |records|
  {
    if |records| > 0 {
      var next := InsertRecord(m, records[0]);
      assert Inserts(records)[1..] == Inserts(records[1..]);
      assert Run(m, Inserts(records)) == Run(next, Inserts(records[1..]));
      InsertEventsAppend(next, records[1..]);
      var r := Run(next, Inserts(records[1..]));
      assert r.events[..|m.events|] == r.events[..|next.events|][..|m.events|];
      forall i | |m.events| <= i < |r.events|
        ensures !r.events[i].RowsInserted? && !r.events[i].InsertionFailed?
      {
        if i < |next.events| {
          assert r.events[i] == r.events[..|next.events|][i] == next.events[i];
        }
      }
    }
  }
}

/** The VALUES list of the batched INSERT (generateInsertValues): one
    parenthesised tuple per pending row, in row order, separated by commas. */
module InsertValues {
  import opened SqlTypes
  import opened SqlText

  /** The rows [commitBeginRow, |cache|). None when the start is unset (-1) or
      lies at or past the end of the cache. */
  function PendingRows(cache: seq<Record>, commitBeginRow: int): seq<Record>
  {
    if 0 <= commitBeginRow < |cache| then cache[commitBeginRow..] else []
  }

  /** The driver-formatted texts of the first `k` fields of `r`. */
  function FormattedFields(d: Driver, r: Record, k: int): seq<string>
    decreases k
  {
    if k <= 0 then [] else FormattedFields(d, r, k - 1) + [d.formatValue(FieldAt(r, k - 1))]
  }

  /** The field texts of one tuple: the first columnCount - 1 fields formatted
      by the driver, then the plain string of the value at columnCount - 1. */
  function FieldTexts(d: Driver, r: Record, columnCount: int): seq<string>
  {
    FormattedFields(d, r, columnCount - 1) + [ToText(ValueAt(r, columnCount - 1))]
  }

  function TupleText(d: Driver, r: Record, columnCount: int): string
  {
    "(" + Join(FieldTexts(d, r, columnCount), ',') + ")"
  }

  /** One tuple per row, in row order. */
  function Tuples(d: Driver, rows: seq<Record>, columnCount: int): seq<string>
    decreases |rows|
  {
    if |rows| == 0 then []
    else Tuples(d, rows[..|rows| - 1], columnCount) + [TupleText(d, rows[|rows| - 1], columnCount)]
  }

  /** The first `k` field texts are the driver's formatting of fields 0 to k - 1. */
  lemma {:induction false} FormattedFieldsAre(d: Driver, r: Record, k: int)
    ensures |FormattedFields(d, r, k)| == if k < 0 then 0 else k
    ensures forall i :: 0 <= i < |FormattedFields(d, r, k)| ==>
      FormattedFields(d, r, k)[i] == d.formatValue(FieldAt(r, i))
    decreases k
  {
    if k > 0 {
      FormattedFieldsAre(d, r, k - 1);
    }
  }

  /** There is one tuple per row, and the i-th tuple is the i-th row's. */
  lemma {:induction false} TuplesAre(d: Driver, rows: seq<Record>, columnCount: int)
    ensures |Tuples(d, rows, columnCount)| == |rows|
    ensures forall i :: 0 <= i < |rows| ==> Tuples(d, rows, columnCount)[i] == TupleText(d, rows[i], columnCount)
    decreases |rows|
  {
    if |rows| > 0 {
      TuplesAre(d, rows[..|rows| - 1], columnCount);
    }
  }

  /** The statement text once the VALUES list for `rows` has been added to
      `prefix`: the tuples joined by commas, or, with no rows, the prefix with
      its last character cut off. */
  function InsertValuesText(d: Driver, rows: seq<Record>, columnCount: int, prefix: string): string
  {
    if |rows| == 0 then DropLast(prefix) else prefix + Join(Tuples(d, rows, columnCount), ',')
  }

  /** With a column count of at least one, a tuple holds exactly that many
      fields: the formatted leading fields and the plain last value. */
  lemma TupleFields(d: Driver, r: Record, columnCount: int)
    requires columnCount >= 1
    ensures |FieldTexts(d, r, columnCount)| == columnCount
    ensures forall i :: 0 <= i < columnCount - 1 ==>
      FieldTexts(d, r, columnCount)[i] == d.formatValue(FieldAt(r, i))
    ensures FieldTexts(d, r, columnCount)[columnCount - 1] == ToText(ValueAt(r, columnCount - 1))
  {
    FormattedFieldsAre(d, r, columnCount - 1);
  }

  /** Before any column count is known (0), every tuple is the empty "()". */
  lemma TupleWithoutColumns(d: Driver, r: Record, columnCount: int)
    requires columnCount <= 0
    ensures TupleText(d, r, columnCount) == "()"
  {
    assert FieldTexts(d, r, columnCount) == [""];
  }

  /** One more formatted field extends the terminated list by that field and a comma. */
  lemma FormattedStep(d: Driver, r: Record, i: nat)
    ensures Terminated(FormattedFields(d, r, i + 1), ',')
         == Terminated(FormattedFields(d, r, i), ',') + d.formatValue(FieldAt(r, i)) + ","
  {
    var text := d.formatValue(FieldAt(r, i));
    assert FormattedFields(d, r, i + 1) == FormattedFields(d, r, i) + [text];
    TerminatedSnoc(FormattedFields(d, r, i), text, ',');
  }

  /** The terminated leading fields followed by the last value's text is the
      joined field list of the tuple. */
  lemma TupleBody(d: Driver, r: Record, columnCount: int, i: nat)
    requires i == if columnCount < 1 then 0 else columnCount - 1
    ensures Terminated(FormattedFields(d, r, i), ',') + ToText(ValueAt(r, columnCount - 1))
         == Join(FieldTexts(d, r, columnCount), ',')
  {
    assert FormattedFields(d, r, i) == FormattedFields(d, r, columnCount - 1);
    JoinSnoc(FormattedFields(d, r, i), ToText(ValueAt(r, columnCount - 1)), ',');
  }

  /** Parentheses around the joined field texts, then a comma. */
  lemma CloseTuple(d: Driver, r: Record, columnCount: int, s0: string, body: string)
    requires body == Join(FieldTexts(d, r, columnCount), ',')
    ensures s0 + "(" + body + ")," == s0 + TupleText(d, r, columnCount) + ","
  {
    assert ")," == ")" + ",";
  }

  /** The inner loop of generateInsertValues: appends one row's tuple and the
      comma after it. */
  method AppendTuple(d: Driver, record: Record, columnCount: int, s0: string) returns (s: string)
    ensures s == s0 + TupleText(d, record, columnCount) + ","
  {
    var body := "";
    var i := 0;
    while i < columnCount - 1
      invariant 0 <= i <= if columnCount < 1 then 0 else columnCount - 1
      invariant body == Terminated(FormattedFields(d, record, i), ',')
    {
      FormattedStep(d, record, i);
      body := body + d.formatValue(FieldAt(record, i)) + ",";
      i := i + 1;
    }
    TupleBody(d, record, columnCount, i);
    body := body + ToText(ValueAt(record, columnCount - 1));
    CloseTuple(d, record, columnCount, s0, body);
    s := s0 + "(" + body + "),";
  }

  /** The tuple list of one more row ends with that row's tuple. */
  lemma TuplesSnoc(d: Driver, rows: seq<Record>, r: Record, columnCount: int)
    ensures Tuples(d, rows + [r], columnCount) == Tuples(d, rows, columnCount) + [TupleText(d, r, columnCount)]
  {
    assert (rows + [r])[..|rows|] == rows;
  }

  /** One more row extends the terminated tuple list by its tuple and a comma. */
  lemma TuplesStep(d: Driver, cache: seq<Record>, start: nat, i: nat, columnCount: int)
    requires start <= i < |cache|
    ensures Terminated(Tuples(d, cache[start..i + 1], columnCount), ',')
         == Terminated(Tuples(d, cache[start..i], columnCount), ',') + TupleText(d, cache[i], columnCount) + ","
  {
    assert cache[start..i + 1] == cache[start..i] + [cache[i]];
    TuplesSnoc(d, cache[start..i], cache[i], columnCount);
    TerminatedSnoc(Tuples(d, cache[start..i], columnCount), TupleText(d, cache[i], columnCount), ',');
  }

  /** Cutting the last character off the terminated tuples of the rows from
      `start` on gives the reference text for the pending rows. */
  lemma FinishValues(d: Driver, cache: seq<Record>, commitBeginRow: int, start: nat, columnCount: int,
                     prefix: string)
    requires start == if commitBeginRow < 0 || commitBeginRow > |cache| then |cache| else commitBeginRow
    ensures DropLast(prefix + Terminated(Tuples(d, cache[start..], columnCount), ','))
         == InsertValuesText(d, PendingRows(cache, commitBeginRow), columnCount, prefix)
  {
    assert cache[start..] == PendingRows(cache, commitBeginRow);
    if start < |cache| {
      DropTrailingSep(prefix, Tuples(d, cache[start..], columnCount), ',');
    } else {
      assert prefix + Terminated(Tuples(d, cache[start..], columnCount), ',') == prefix;
    }
  }

  /** generateInsertValues: appends a tuple and a comma for every pending row,
      then cuts off the last character. With pending rows that is the trailing
      comma; with none it is the last character of `prefix`. */
  method GenerateInsertValues(d: Driver, cache: seq<Record>, commitBeginRow: int, columnCount: int,
                              prefix: string) returns (s: string)
    ensures s == InsertValuesText(d, PendingRows(cache, commitBeginRow), columnCount, prefix)
  {
    // The loop starts at static_cast<size_t>(commitBeginRow), which for -1 is
    // SIZE_MAX; a start at or past the end runs no iteration, as |cache| does.
    var start: int := if commitBeginRow < 0 || commitBeginRow > |cache| then |cache| else commitBeginRow;
    var values := "";
    var i := start;
    while i < |cache|
      invariant start <= i <= |cache|
      invariant values == Terminated(Tuples(d, cache[start..i], columnCount), ',')
    {
      TuplesStep(d, cache, start, i, columnCount);
      values := AppendTuple(d, cache[i], columnCount, values);
      i := i + 1;
    }
    assert cache[start..i] == cache[start..];
    FinishValues(d, cache, commitBeginRow, start, columnCount, prefix);
    s := DropLast(prefix + values);
  }
}

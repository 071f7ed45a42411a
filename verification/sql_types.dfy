/** Stand-ins for the Qt SQL values the cache handles: cell values (QVariant),
    fields and records (QSqlField, QSqlRecord), errors (QSqlError), the
    replies of a statement's prepare and exec steps, a forward-only cursor and
    the two driver calls the cache makes. Together with the two record helpers
    of CachedSqlTableModel.cpp. */
module SqlTypes {

  /** A cell value. `Invalid` is the default-constructed QVariant, which every
      read returns for "no value". Only integers and text are distinguished. */
  datatype Value = Invalid | Int(n: int) | Text(s: string)

  datatype Field = Field(name: string, value: Value)

  /** A row of the table, or the column template: fields in column order. */
  datatype Record = Record(fields: seq<Field>)

  /** The most recent failure of the backing store; `NoError` before any. */
  datatype SqlError = NoError | DbError(text: string)

  /** What the backing store answered to one prepare or exec call. */
  datatype Reply = Succeeded | Failed(error: SqlError)

  /** An executed SELECT: whether it became active, the record describing its
      columns, and the rows it yields in order. */
  datatype Cursor = Cursor(active: bool, header: Record, rows: seq<Record>)

  /** The driver's identifier escaping (for table names) and literal
      formatting: foreign code, so any functions at all. */
  datatype Driver = Driver(escapeTableName: string -> string, formatValue: Field -> string)

  /** QSqlRecord::count */
  function Count(r: Record): nat
  {
    |r.fields|
  }

  /** QSqlRecord::value(i): an invalid value when `i` is out of range. */
  function ValueAt(r: Record, i: int): Value
  {
    if 0 <= i < |r.fields| then r.fields[i].value else Invalid
  }

  /** QSqlRecord::field(i): an empty field when `i` is out of range. */
  function FieldAt(r: Record, i: int): Field
  {
    if 0 <= i < |r.fields| then r.fields[i] else Field("", Invalid)
  }

  /** QVariant::toString: empty for an invalid value, decimal for an integer. */
  function ToText(v: Value): string
  {
    match v
    case Invalid => ""
    case Int(n) => if n < 0 then "-" + Digits(-n) else Digits(n)
    case Text(s) => s
  }

  function Digits(n: nat): string
  {
    var d := "0123456789"[n % 10];
    if n < 10 then [d] else Digits(n / 10) + [d]
  }

  /** fieldNamesFromRecord: the column names, one per field, in order. */
  function FieldNames(r: Record): (names: seq<string>)
    ensures |names| == Count(r)
    ensures forall i :: 0 <= i < |names| ==> names[i] == FieldAt(r, i).name
    decreases |r.fields|
  {
    if |r.fields| == 0 then []
    else FieldNames(Record(r.fields[..|r.fields| - 1])) + [r.fields[|r.fields| - 1].name]
  }

  /** fieldValuesFromRecord: the values, one per field, in order. */
  function FieldValues(r: Record): (values: seq<Value>)
    ensures |values| == Count(r)
    ensures forall i :: 0 <= i < |values| ==> values[i] == ValueAt(r, i)
    decreases |r.fields|
  {
    if |r.fields| == 0 then []
    else FieldValues(Record(r.fields[..|r.fields| - 1])) + [r.fields[|r.fields| - 1].value]
  }

  function Zip(names: seq<string>, values: seq<Value>): Record
    requires |names| == |values|
  {
    Record(seq(|names|, i requires 0 <= i < |names| => Field(names[i], values[i])))
  }

  /** The names and the values of a record together lose nothing: zipping them
      gives the record back. */
  lemma NamesAndValuesRebuildRecord(r: Record)
    ensures Zip(FieldNames(r), FieldValues(r)) == r
  {
    var z := Zip(FieldNames(r), FieldValues(r));
    assert forall i :: 0 <= i < |r.fields| ==> z.fields[i] == r.fields[i];
  }
}

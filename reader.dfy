/** The query code of `SensorDataReader`. Both drafts of the class
    (database/data_access.py and logger/data_access.py) hold the same five
    queries and the same `_row_to_dict`; they differ only in which
    `SensorDatabase` class they import. So the queries are written once here,
    parametrised by that class's attributes (`ClassAttrs`) and by the tables
    of the open file (`Catalog`). */
module Reader {
  import opened Base
  import opened Collation
  import opened Tables

  /** A dictionary built by `_row_to_dict`: column name to value. */
  type Record = map<string, SqlValue>

  /** The class attributes of the imported `SensorDatabase` class, by name. */
  type ClassAttrs = map<string, string>

  /** The tables of the open database file, by name. */
  type Catalog = map<string, seq<Row>>

  const SENSOR_COLUMNS: seq<string> := ["timestamp", "lux", "temperature", "humidity"]
  const CELL_COLUMNS: seq<string> := ["timestamp", "cell_id", "voltage", "current", "power"]

  /** `SensorDatabase.<name>`: AttributeError when the class does not define it. */
  function Attr(attrs: ClassAttrs, name: string): Result<string>
  {
    if name in attrs then Ok(attrs[name]) else Err(MissingAttribute(name))
  }

  /** `SELECT * FROM <name>`: OperationalError when the file holds no such table. */
  function Select(catalog: Catalog, name: string): Result<seq<Row>>
  {
    if name in catalog then Ok(catalog[name]) else Err(NoSuchTable(name))
  }

  /** `r` is what subscripting `row` at 0, 1, ... yields for the keys `columns`:
      TypeError for None, IndexError for a short tuple, otherwise a dict whose
      keys are `columns` and whose value at `columns[k]` is `row[k]`. */
  predicate MapsByPosition(row: Option<seq<SqlValue>>, columns: seq<string>, r: Result<Record>)
  {
    && (row.None? ==> r == Err(NoneNotSubscriptable))
    && (row.Some? && |row.value| < |columns| ==> r == Err(TupleIndexOutOfRange))
    && (row.Some? && |row.value| >= |columns| ==>
          && r.Ok?
          && r.value.Keys == (set c | c in columns)
          && forall k :: 0 <= k < |columns| ==> r.value[columns[k]] == row.value[k])
  }

  /** `_row_to_dict(row, table_type)`. */
  function RowToDict(row: Option<seq<SqlValue>>, tableType: string): (r: Result<Record>)
    ensures tableType == "sensor" ==> MapsByPosition(row, SENSOR_COLUMNS, r)
    ensures tableType == "cell" ==> MapsByPosition(row, CELL_COLUMNS, r)
    ensures tableType != "sensor" && tableType != "cell" ==> r == Ok(map[])
  {
    if tableType == "sensor" then
      if row.None? then Err(NoneNotSubscriptable)
      else if |row.value| < 4 then Err(TupleIndexOutOfRange)
      else
        var t := row.value;
        Ok(map["timestamp" := t[0], "lux" := t[1], "temperature" := t[2], "humidity" := t[3]])
    else if tableType == "cell" then
      if row.None? then Err(NoneNotSubscriptable)
      else if |row.value| < 5 then Err(TupleIndexOutOfRange)
      else
        var t := row.value;
        Ok(map["timestamp" := t[0], "cell_id" := t[1], "voltage" := t[2], "current" := t[3], "power" := t[4]])
    else
      Ok(map[])
  }

  /** The `table_type` the queries pass for a row of each table. */
  function RowType(row: Row): string
  {
    if row.Sensor? then "sensor" else "cell"
  }

  /** The dictionary a stored row becomes. */
  function RecordOf(row: Row): Record
  {
    var r := RowToDict(Some(Tuple(row)), RowType(row));
    assert r.Ok?;
    r.value
  }

  function Records(rows: seq<Row>): seq<Record>
  {
    seq(|rows|, i requires 0 <= i < |rows| => RecordOf(rows[i]))
  }

  function ColumnsOf(row: Row): seq<string>
  {
    if row.Sensor? then SENSOR_COLUMNS else CELL_COLUMNS
  }

  lemma RecordOfByPosition(row: Row)
    ensures |Tuple(row)| == |ColumnsOf(row)|
    ensures RecordOf(row).Keys == set c | c in ColumnsOf(row)
    ensures forall k :: 0 <= k < |ColumnsOf(row)| ==> RecordOf(row)[ColumnsOf(row)[k]] == Tuple(row)[k]
  {
    var r := RowToDict(Some(Tuple(row)), RowType(row));
    assert MapsByPosition(Some(Tuple(row)), ColumnsOf(row), r);
  }

  lemma TupleInjective(a: Row, b: Row)
    requires Tuple(a) == Tuple(b)
    ensures a == b
  {
    var t := Tuple(a);
    assert |t| == 4 <==> a.Sensor?;
    assert |t| == 4 <==> b.Sensor?;
    assert t[0] == Text(a.timestamp) == Text(b.timestamp);
  }

  /** The dictionary keeps every column: distinct rows give distinct dictionaries. */
  lemma RecordOfInjective(a: Row, b: Row)
    requires RecordOf(a) == RecordOf(b)
    ensures a == b
  {
    RecordOfByPosition(a);
    RecordOfByPosition(b);
    assert "cell_id" in CELL_COLUMNS && "cell_id" !in SENSOR_COLUMNS;
    assert a.Sensor? <==> "cell_id" !in RecordOf(a).Keys;
    assert b.Sensor? <==> "cell_id" !in RecordOf(b).Keys;
    var cols := ColumnsOf(a);
    assert cols == ColumnsOf(b);
    forall k | 0 <= k < |cols| ensures Tuple(a)[k] == Tuple(b)[k] {
      assert Tuple(a)[k] == RecordOf(a)[cols[k]];
    }
    assert Tuple(a) == Tuple(b);
    TupleInjective(a, b);
  }

  /** `[self._row_to_dict(row, row_type) for row in rows]`: raises at the first
      row that cannot be mapped; when every row is of `rowType`, nothing is
      raised and the list holds one dictionary per row, in order. */
  function MapRowToDict(rows: seq<Row>, rowType: string): (r: Result<seq<Record>>)
    ensures (forall i :: 0 <= i < |rows| ==> RowType(rows[i]) == rowType) ==> r == Ok(Records(rows))
  {
    if |rows| == 0 then
      assert Records(rows) == [];
      Ok([])
    else
      var head :- RowToDict(Some(Tuple(rows[0])), rowType);
      var tail :- MapRowToDict(rows[1..], rowType);
      assert Records(rows) == [RecordOf(rows[0])] + Records(rows[1..]);
      Ok([head] + tail)
  }

  // ------------------------------------------------------------ the queries

  /** `get_all_data`: every row of the sensor table as a dictionary. */
  function GetAllData(attrs: ClassAttrs, catalog: Catalog): Result<seq<Record>>
  {
    var name :- Attr(attrs, "_SENSOR_TABLE");
    var rows :- Select(catalog, name);
    MapRowToDict(rows, "sensor")
  }

  /** `get_all_dssc_data`: every row of the cell table as a dictionary. */
  function GetAllDsscData(attrs: ClassAttrs, catalog: Catalog): Result<seq<Record>>
  {
    var name :- Attr(attrs, "_CELL_OUTPUT_TABLE");
    var rows :- Select(catalog, name);
    MapRowToDict(rows, "cell")
  }

  /** The guard both filtered queries run first; yields the `table_type` to map rows with. */
  function CheckTable(attrs: ClassAttrs, table: string): Result<string>
  {
    var sensor :- Attr(attrs, "_SENSOR_TABLE");
    var cell :- Attr(attrs, "_CELL_OUTPUT_TABLE");
    if table != sensor && table != cell then Err(InvalidTable)
    else Ok(if table == sensor then "sensor" else "cell")
  }

  function TupleOf(row: Option<Row>): Option<seq<SqlValue>>
  {
    match row
    case None => None
    case Some(r) => Some(Tuple(r))
  }

  /** `get_latest_entry(table)`, as written: `fetchone()` yields None on an
      empty table and `_row_to_dict` then subscripts it. */
  function GetLatestEntry(attrs: ClassAttrs, catalog: Catalog, table: string): Result<Record>
  {
    var rowType :- CheckTable(attrs, table);
    var rows :- Select(catalog, table);
    RowToDict(TupleOf(Latest(rows)), rowType)
  }

  /** `get_latest_entry(table)` as its docstring promises: None on an empty table. */
  function LatestEntryOrNone(attrs: ClassAttrs, catalog: Catalog, table: string): Result<Option<Record>>
  {
    var rowType :- CheckTable(attrs, table);
    var rows :- Select(catalog, table);
    match Latest(rows)
    case None => Ok(None)
    case Some(row) =>
      var record :- RowToDict(Some(Tuple(row)), rowType);
      Ok(Some(record))
  }

  /** `get_data_between(table, start, end)`. */
  function GetDataBetween(attrs: ClassAttrs, catalog: Catalog, table: string, start: string, end: string)
    : Result<seq<Record>>
  {
    var rowType :- CheckTable(attrs, table);
    var rows :- Select(catalog, table);
    MapRowToDict(SortByTimestamp(Between(rows, start, end)), rowType)
  }

  // ------------------------------------------------------- what they answer

  /** The class names both tables, the names differ, and the file holds both
      tables, each with its kind of rows under its primary key. */
  predicate ValidCatalog(attrs: ClassAttrs, catalog: Catalog)
  {
    && "_SENSOR_TABLE" in attrs && "_CELL_OUTPUT_TABLE" in attrs
    && attrs["_SENSOR_TABLE"] != attrs["_CELL_OUTPUT_TABLE"]
    && attrs["_SENSOR_TABLE"] in catalog && attrs["_CELL_OUTPUT_TABLE"] in catalog
    && SensorTable(catalog[attrs["_SENSOR_TABLE"]])
    && CellTable(catalog[attrs["_CELL_OUTPUT_TABLE"]])
  }

  predicate KnownTable(attrs: ClassAttrs, table: string)
    requires "_SENSOR_TABLE" in attrs && "_CELL_OUTPUT_TABLE" in attrs
  {
    table == attrs["_SENSOR_TABLE"] || table == attrs["_CELL_OUTPUT_TABLE"]
  }

  /** `records` answers `WHERE timestamp BETWEEN start AND end ORDER BY timestamp ASC`
      on `rows`: they are the dictionaries of an ascending arrangement of
      exactly the rows with `start <= timestamp <= end`, each as often as stored. */
  ghost predicate RangeAnswer(records: seq<Record>, rows: seq<Row>, start: string, end: string)
  {
    exists ordered: seq<Row> ::
      && Ascending(ordered)
      && (forall x :: multiset(ordered)[x] == if InRange(x, start, end) then multiset(rows)[x] else 0)
      && records == Records(ordered)
  }

  /** Any table name other than the two the class names is refused with
      ValueError, whatever the file holds: the guard runs before any query. */
  lemma UnknownTableRejected(attrs: ClassAttrs, catalog: Catalog, table: string, start: string, end: string)
    requires "_SENSOR_TABLE" in attrs && "_CELL_OUTPUT_TABLE" in attrs
    requires !KnownTable(attrs, table)
    ensures GetLatestEntry(attrs, catalog, table) == Err(InvalidTable)
    ensures LatestEntryOrNone(attrs, catalog, table) == Err(InvalidTable)
    ensures GetDataBetween(attrs, catalog, table, start, end) == Err(InvalidTable)
  {
  }

  /** `table` is one of the two names the class gives, the file holds it, and
      each of its rows is of the kind the queries map it as. Unlike
      `ValidCatalog` this asks nothing of keys, nor of the other table. */
  predicate TypedTable(attrs: ClassAttrs, catalog: Catalog, table: string)
  {
    && "_SENSOR_TABLE" in attrs && "_CELL_OUTPUT_TABLE" in attrs
    && KnownTable(attrs, table) && table in catalog
    && forall i :: 0 <= i < |catalog[table]| ==>
         RowType(catalog[table][i]) == if table == attrs["_SENSOR_TABLE"] then "sensor" else "cell"
  }

  lemma ValidCatalogTyped(attrs: ClassAttrs, catalog: Catalog, table: string)
    requires ValidCatalog(attrs, catalog) && KnownTable(attrs, table)
    ensures TypedTable(attrs, catalog, table)
  {
  }

  lemma TableRowsHaveType(attrs: ClassAttrs, catalog: Catalog, table: string)
    requires TypedTable(attrs, catalog, table)
    ensures CheckTable(attrs, table).Ok?
    ensures forall i :: 0 <= i < |catalog[table]| ==> RowType(catalog[table][i]) == CheckTable(attrs, table).value
  {
  }

  /** Every row an ascending arrangement of the selected rows holds comes from the table. */
  lemma ArrangedRowsHaveType(rows: seq<Row>, start: string, end: string, rowType: string)
    requires forall i :: 0 <= i < |rows| ==> RowType(rows[i]) == rowType
    ensures forall i :: 0 <= i < |SortByTimestamp(Between(rows, start, end))| ==>
              RowType(SortByTimestamp(Between(rows, start, end))[i]) == rowType
  {
    var selected := Between(rows, start, end);
    var ordered := SortByTimestamp(selected);
    BetweenSelects(rows, start, end);
    SortIsAscendingPermutation(selected);
    forall i | 0 <= i < |ordered| ensures RowType(ordered[i]) == rowType {
      var x := ordered[i];
      assert x in multiset(ordered);
      assert multiset(rows)[x] > 0;
      assert x in rows;
    }
  }

  /** `get_data_between` on either table answers the inclusive range query in ascending order. */
  lemma DataBetweenAnswers(attrs: ClassAttrs, catalog: Catalog, table: string, start: string, end: string)
    requires TypedTable(attrs, catalog, table)
    ensures GetDataBetween(attrs, catalog, table, start, end).Ok?
    ensures RangeAnswer(GetDataBetween(attrs, catalog, table, start, end).value, catalog[table], start, end)
  {
    var rows := catalog[table];
    var selected := Between(rows, start, end);
    var ordered := SortByTimestamp(selected);
    TableRowsHaveType(attrs, catalog, table);
    var rowType := CheckTable(attrs, table).value;
    ArrangedRowsHaveType(rows, start, end, rowType);
    assert MapRowToDict(ordered, rowType) == Ok(Records(ordered));
    BetweenSelects(rows, start, end);
    SortIsAscendingPermutation(selected);
    assert GetDataBetween(attrs, catalog, table, start, end) == Ok(Records(ordered));
  }

  /** `get_latest_entry` on a non-empty table returns the dictionary of a
      stored row whose timestamp no other row exceeds. */
  lemma LatestEntryAnswers(attrs: ClassAttrs, catalog: Catalog, table: string)
    requires TypedTable(attrs, catalog, table)
    requires |catalog[table]| > 0
    ensures GetLatestEntry(attrs, catalog, table).Ok?
    ensures exists row :: row in catalog[table] && GetLatestEntry(attrs, catalog, table).value == RecordOf(row) &&
                          forall i :: 0 <= i < |catalog[table]| ==> Le(catalog[table][i].timestamp, row.timestamp)
  {
    var rows := catalog[table];
    LatestIsMaximum(rows);
    TableRowsHaveType(attrs, catalog, table);
    var row := Latest(rows).value;
    assert GetLatestEntry(attrs, catalog, table).value == RecordOf(row);
  }

  /** As written, `get_latest_entry` on an empty table raises TypeError
      instead of returning the None its docstring promises. */
  lemma LatestEntryOnEmptyTableRaises(attrs: ClassAttrs, catalog: Catalog, table: string)
    requires TypedTable(attrs, catalog, table)
    requires catalog[table] == []
    ensures GetLatestEntry(attrs, catalog, table) == Err(NoneNotSubscriptable)
  {
  }

  /** The corrected query: None exactly on an empty table, otherwise the
      dictionary of a stored row with the largest timestamp. */
  lemma LatestEntryOrNoneAnswers(attrs: ClassAttrs, catalog: Catalog, table: string)
    requires TypedTable(attrs, catalog, table)
    ensures LatestEntryOrNone(attrs, catalog, table).Ok?
    ensures LatestEntryOrNone(attrs, catalog, table).value.None? <==> catalog[table] == []
    ensures LatestEntryOrNone(attrs, catalog, table).value.Some? ==>
              exists row :: row in catalog[table] &&
                LatestEntryOrNone(attrs, catalog, table).value.value == RecordOf(row) &&
                forall i :: 0 <= i < |catalog[table]| ==> Le(catalog[table][i].timestamp, row.timestamp)
  {
    var rows := catalog[table];
    LatestIsMaximum(rows);
    TableRowsHaveType(attrs, catalog, table);
    if rows != [] {
      var row := Latest(rows).value;
      assert LatestEntryOrNone(attrs, catalog, table).value.value == RecordOf(row);
    }
  }

  /** `get_all_data` and `get_all_dssc_data` return one dictionary per stored
      row of their table (in the model, in stored order). */
  lemma AllDataAnswers(attrs: ClassAttrs, catalog: Catalog)
    requires ValidCatalog(attrs, catalog)
    ensures GetAllData(attrs, catalog) == Ok(Records(catalog[attrs["_SENSOR_TABLE"]]))
    ensures GetAllDsscData(attrs, catalog) == Ok(Records(catalog[attrs["_CELL_OUTPUT_TABLE"]]))
  {
  }
}

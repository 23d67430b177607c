/** `SensorDatabase` of database/db.py: the main store. Two keyed tables,
    `sensor_data` (primary key `timestamp`) and `cell_output` (primary key
    `(timestamp, cell_id)`), held as row sequences that the insert methods
    extend by one row or leave alone when SQLite refuses the row. */
module Database {
  import opened Base
  import opened Tables
  import Reader

  const DEFAULT_DB_PATH: string := "sensor_data.db"
  const SENSOR_TABLE: string := "sensor_data"
  const CELL_OUTPUT_TABLE: string := "cell_output"

  /** The class attributes of `SensorDatabase`, as `SensorDataReader` looks them up. */
  const CLASS_ATTRS: Reader.ClassAttrs :=
    map["_DEFAULT_DB_PATH" := DEFAULT_DB_PATH,
        "_SENSOR_TABLE" := SENSOR_TABLE,
        "_CELL_OUTPUT_TABLE" := CELL_OUTPUT_TABLE]

  /** `get_sensor_table_name()`: the table the class attribute `_SENSOR_TABLE` names. */
  function GetSensorTableName(): (name: string)
    ensures Reader.Attr(CLASS_ATTRS, "_SENSOR_TABLE") == Ok(name)
    ensures name != GetCellOutputTableName()
  {
    SENSOR_TABLE
  }

  /** `get_cell_output_table_name()`: the table the class attribute `_CELL_OUTPUT_TABLE` names. */
  function GetCellOutputTableName(): (name: string)
    ensures Reader.Attr(CLASS_ATTRS, "_CELL_OUTPUT_TABLE") == Ok(name)
  {
    CELL_OUTPUT_TABLE
  }

  /** `db_path or _DEFAULT_DB_PATH`: None and the empty string are both falsy. */
  function ResolvePath(dbPath: Option<string>): (path: string)
    ensures dbPath.Some? && dbPath.value != "" ==> path == dbPath.value
    ensures dbPath.None? || dbPath.value == "" ==> path == CLASS_ATTRS["_DEFAULT_DB_PATH"]
    ensures path != ""
  {
    if dbPath.Some? && dbPath.value != "" then dbPath.value else DEFAULT_DB_PATH
  }

  // ------------------------------------------------------------------ _setup

  /** The file's tables may only hold what this schema lets in. */
  predicate WellFormedFile(file: Reader.Catalog)
  {
    && (SENSOR_TABLE in file ==> SensorTable(file[SENSOR_TABLE]))
    && (CELL_OUTPUT_TABLE in file ==> CellTable(file[CELL_OUTPUT_TABLE]))
  }

  /** `_setup`: `CREATE TABLE IF NOT EXISTS` for both tables, on the tables the file already holds. */
  function Setup(file: Reader.Catalog): (r: Reader.Catalog)
    ensures r.Keys == file.Keys + {SENSOR_TABLE, CELL_OUTPUT_TABLE}
    ensures forall name :: name in file ==> r[name] == file[name]
    ensures SENSOR_TABLE !in file ==> r[SENSOR_TABLE] == []
    ensures CELL_OUTPUT_TABLE !in file ==> r[CELL_OUTPUT_TABLE] == []
  {
    var withSensor := if SENSOR_TABLE in file then file else file[SENSOR_TABLE := []];
    if CELL_OUTPUT_TABLE in withSensor then withSensor else withSensor[CELL_OUTPUT_TABLE := []]
  }

  /** Running `_setup` again changes nothing: existing rows are kept. */
  lemma SetupIdempotent(file: Reader.Catalog)
    ensures Setup(Setup(file)) == Setup(file)
  {
  }

  lemma SetupWellFormed(file: Reader.Catalog)
    requires WellFormedFile(file)
    ensures SensorTable(Setup(file)[SENSOR_TABLE]) && CellTable(Setup(file)[CELL_OUTPUT_TABLE])
  {
  }

  // -------------------------------------------------- the inserts, on values

  /** The row `insert_data` asks SQLite to store, columns in schema order. */
  function SensorRowOf(data: SensorData): Row
    requires data.timestamp.Some?
  {
    Sensor(data.timestamp.value, data.lux, data.temperature, data.humidity)
  }

  /** `INSERT INTO sensor_data`: refused when the timestamp is NULL (NOT NULL)
      or already stored (primary key); otherwise exactly one row is appended. */
  function InsertSensorRow(rows: seq<Row>, data: SensorData): (r: Result<seq<Row>>)
    ensures r.Ok? <==> data.timestamp.Some? && !HasTimestamp(rows, data.timestamp.value)
    ensures data.timestamp.None? ==> r == Err(NotNullViolated("sensor_data.timestamp"))
    ensures r.Err? && data.timestamp.Some? ==> r == Err(UniqueViolated("sensor_data.timestamp"))
    ensures r.Ok? ==> r.value == rows + [Sensor(data.timestamp.value, data.lux, data.temperature, data.humidity)]
    ensures r.Ok? && SensorTable(rows) ==> SensorTable(r.value)
  {
    if data.timestamp.None? then Err(NotNullViolated("sensor_data.timestamp"))
    else if HasTimestamp(rows, data.timestamp.value) then Err(UniqueViolated("sensor_data.timestamp"))
    else Ok(rows + [SensorRowOf(data)])
  }

  /** `INSERT INTO cell_output`: refused when `(timestamp, cell_id)` is already
      stored; otherwise exactly one row is appended. */
  function InsertCellRow(rows: seq<Row>, cellId: int, reading: CellReading, timestamp: string)
    : (r: Result<seq<Row>>)
    ensures r.Ok? <==> !HasCellKey(rows, timestamp, cellId)
    ensures r.Err? ==> r.error == UniqueViolated("cell_output.timestamp, cell_output.cell_id")
    ensures r.Ok? ==> r.value == rows + [Cell(timestamp, cellId, reading.voltage, reading.current, reading.power)]
    ensures r.Ok? && CellTable(rows) ==> CellTable(r.value)
  {
    if HasCellKey(rows, timestamp, cellId) then Err(UniqueViolated("cell_output.timestamp, cell_output.cell_id"))
    else Ok(rows + [Cell(timestamp, cellId, reading.voltage, reading.current, reading.power)])
  }

  /** A second row for a stored timestamp is refused and the table is left as it was. */
  lemma DuplicateTimestampRefused(rows: seq<Row>, data: SensorData, again: SensorData)
    requires InsertSensorRow(rows, data).Ok?
    requires again.timestamp == data.timestamp
    ensures InsertSensorRow(InsertSensorRow(rows, data).value, again).Err?
  {
    var after := InsertSensorRow(rows, data).value;
    assert after[|rows|].timestamp == data.timestamp.value;
  }

  /** The same `(timestamp, cell_id)` twice is refused, while the same
      timestamp with another `cell_id` is accepted whenever it was before. */
  lemma CellKeyIsThePair(rows: seq<Row>, cellId: int, other: int, reading: CellReading, timestamp: string)
    requires InsertCellRow(rows, cellId, reading, timestamp).Ok?
    requires other != cellId
    ensures InsertCellRow(InsertCellRow(rows, cellId, reading, timestamp).value, cellId, reading, timestamp).Err?
    ensures InsertCellRow(InsertCellRow(rows, cellId, reading, timestamp).value, other, reading, timestamp).Ok?
            <==> InsertCellRow(rows, other, reading, timestamp).Ok?
  {
    var after := InsertCellRow(rows, cellId, reading, timestamp).value;
    assert after[|rows|].Cell? && after[|rows|].timestamp == timestamp && after[|rows|].cellId == cellId;
    if HasCellKey(after, timestamp, other) {
      var i :| 0 <= i < |after| && after[i].Cell? && after[i].timestamp == timestamp && after[i].cellId == other;
      assert i < |rows| && rows[i] == after[i];
    }
    if HasCellKey(rows, timestamp, other) {
      var i :| 0 <= i < |rows| && rows[i].Cell? && rows[i].timestamp == timestamp && rows[i].cellId == other;
      assert after[i] == rows[i];
    }
  }

  // ---------------------------------------------------------------- the class

  class SensorDatabase {
    var dbPath: string
    var sensorRows: seq<Row>
    var cellRows: seq<Row>

    /** Each table holds its kind of rows and its primary key is unique. */
    ghost predicate Valid()
      reads this
    {
      SensorTable(sensorRows) && CellTable(cellRows)
    }

    /** The tables of the open file, as `SensorDataReader` sees them. */
    function Catalog(): (c: Reader.Catalog)
      reads this
      ensures Valid() ==> Reader.ValidCatalog(CLASS_ATTRS, c)
    {
      map[SENSOR_TABLE := sensorRows, CELL_OUTPUT_TABLE := cellRows]
    }

    /** `SensorDatabase(db_path)`: connects to the file, which already holds
        `file`, and runs `_setup` on it. */
    constructor (dbPath: Option<string>, file: Reader.Catalog)
      requires WellFormedFile(file)
      ensures Valid()
      ensures this.dbPath == ResolvePath(dbPath)
      ensures sensorRows == Setup(file)[SENSOR_TABLE] && cellRows == Setup(file)[CELL_OUTPUT_TABLE]
    {
      var tables := Setup(file);
      SetupWellFormed(file);
      this.dbPath := ResolvePath(dbPath);
      sensorRows := tables[SENSOR_TABLE];
      cellRows := tables[CELL_OUTPUT_TABLE];
    }

    /** `insert_data(data)`: one row more in `sensor_data`, or the IntegrityError
        SQLite raises with the table unchanged; `cell_output` is never touched. */
    method InsertData(data: SensorData) returns (outcome: Outcome)
      requires Valid()
      modifies this
      ensures Valid()
      ensures dbPath == old(dbPath) && cellRows == old(cellRows)
      ensures match InsertSensorRow(old(sensorRows), data)
              case Ok(rows) => outcome == Pass && sensorRows == rows
              case Err(e) => outcome == Fail(e) && sensorRows == old(sensorRows)
    {
      if data.timestamp.None? {
        return Fail(NotNullViolated("sensor_data.timestamp"));
      }
      if HasTimestamp(sensorRows, data.timestamp.value) {
        return Fail(UniqueViolated("sensor_data.timestamp"));
      }
      sensorRows := sensorRows + [SensorRowOf(data)];
      outcome := Pass;
    }

    /** `insert_cell_output(cell_id, reading, timestamp)`: one row more in
        `cell_output`, or the IntegrityError with the table unchanged;
        `sensor_data` is never touched. */
    method InsertCellOutput(cellId: int, reading: CellReading, timestamp: string) returns (outcome: Outcome)
      requires Valid()
      modifies this
      ensures Valid()
      ensures dbPath == old(dbPath) && sensorRows == old(sensorRows)
      ensures match InsertCellRow(old(cellRows), cellId, reading, timestamp)
              case Ok(rows) => outcome == Pass && cellRows == rows
              case Err(e) => outcome == Fail(e) && cellRows == old(cellRows)
    {
      if HasCellKey(cellRows, timestamp, cellId) {
        return Fail(UniqueViolated("cell_output.timestamp, cell_output.cell_id"));
      }
      cellRows := cellRows + [Cell(timestamp, cellId, reading.voltage, reading.current, reading.power)];
      outcome := Pass;
    }
  }
}

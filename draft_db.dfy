/** `SensorDatabase` of logger/db.py, the earlier store: a single
    `sensor_data` table with no primary key and all four columns NOT NULL.
    Every accepted insert appends, duplicate timestamps included. */
module DraftDatabase {
  import opened Base
  import opened Tables
  import Reader

  const DEFAULT_DB_PATH: string := "sensor_data.db"
  const SENSOR_TABLE: string := "sensor_data"

  /** The class attributes this class defines: only `_DEFAULT_DB_PATH`. */
  const CLASS_ATTRS: Reader.ClassAttrs := map["_DEFAULT_DB_PATH" := DEFAULT_DB_PATH]

  /** `get_db_path()`: the class's default path, also the constructor's default argument. */
  function GetDbPath(): (path: string)
    ensures Reader.Attr(CLASS_ATTRS, "_DEFAULT_DB_PATH") == Ok(path)
    ensures ResolvePath(None) == path
  {
    DEFAULT_DB_PATH
  }

  /** The constructor's `db_path="sensor_data.db"`: None stands for an omitted argument. */
  function ResolvePath(dbPath: Option<string>): (path: string)
    ensures dbPath.Some? ==> path == dbPath.value
    ensures dbPath.None? ==> path == CLASS_ATTRS["_DEFAULT_DB_PATH"]
  {
    if dbPath.Some? then dbPath.value else DEFAULT_DB_PATH
  }

  /** A row this table's NOT NULL columns let in. */
  predicate Complete(row: Row)
  {
    row.Sensor? && row.lux.Some? && row.temperature.Some? && row.humidity.Some?
  }

  /** Every stored row is a complete sensor row; nothing is asked of timestamps. */
  predicate DraftTable(rows: seq<Row>)
  {
    forall i :: 0 <= i < |rows| ==> Complete(rows[i])
  }

  /** `_setup`: `CREATE TABLE IF NOT EXISTS sensor_data`, on the tables the file already holds. */
  function Setup(file: Reader.Catalog): (r: Reader.Catalog)
    ensures r.Keys == file.Keys + {SENSOR_TABLE}
    ensures forall name :: name in file ==> r[name] == file[name]
    ensures SENSOR_TABLE !in file ==> r[SENSOR_TABLE] == []
  {
    if SENSOR_TABLE in file then file else file[SENSOR_TABLE := []]
  }

  /** Running `_setup` again keeps every row. */
  lemma SetupIdempotent(file: Reader.Catalog)
    ensures Setup(Setup(file)) == Setup(file)
  {
  }

  /** The first NULL among the row's columns, in column order, if any. */
  function FirstNull(data: SensorData): Option<string>
  {
    if data.timestamp.None? then Some("sensor_data.timestamp")
    else if data.lux.None? then Some("sensor_data.lux")
    else if data.temperature.None? then Some("sensor_data.temperature")
    else if data.humidity.None? then Some("sensor_data.humidity")
    else None
  }

  /** `INSERT INTO sensor_data`: refused when any value is NULL, naming the
      first such column; otherwise the row is appended, whatever is stored. */
  function AppendSensorRow(rows: seq<Row>, data: SensorData): (r: Result<seq<Row>>)
    ensures r.Ok? <==> data.timestamp.Some? && data.lux.Some? && data.temperature.Some? && data.humidity.Some?
    ensures r.Err? ==> r.error.NotNullViolated?
    ensures data.timestamp.None? ==> r == Err(NotNullViolated("sensor_data.timestamp"))
    ensures r.Ok? ==> r.value == rows + [Sensor(data.timestamp.value, data.lux, data.temperature, data.humidity)]
    ensures r.Ok? && DraftTable(rows) ==> DraftTable(r.value)
  {
    match FirstNull(data)
    case Some(column) => Err(NotNullViolated(column))
    case None => Ok(rows + [Sensor(data.timestamp.value, data.lux, data.temperature, data.humidity)])
  }

  /** With no primary key, the same reading twice is stored twice. */
  lemma DuplicatesAccepted(rows: seq<Row>, data: SensorData)
    requires AppendSensorRow(rows, data).Ok?
    ensures AppendSensorRow(AppendSensorRow(rows, data).value, data).Ok?
    ensures var twice := AppendSensorRow(AppendSensorRow(rows, data).value, data).value;
            |twice| == |rows| + 2 && twice[|rows|] == twice[|rows| + 1]
  {
  }

  /** A freshly created table holds one row after one accepted insert. */
  lemma OneRowAfterFirstInsert(data: SensorData)
    requires AppendSensorRow(Setup(map[])[SENSOR_TABLE], data).Ok?
    ensures |AppendSensorRow(Setup(map[])[SENSOR_TABLE], data).value| == 1
  {
  }

  class SensorDatabase {
    var dbPath: string
    var rows: seq<Row>

    ghost predicate Valid()
      reads this
    {
      DraftTable(rows)
    }

    /** `SensorDatabase(db_path)`: connects to the file, which already holds
        `file`, and runs `_setup`. */
    constructor (dbPath: Option<string>, file: Reader.Catalog)
      requires SENSOR_TABLE in file ==> DraftTable(file[SENSOR_TABLE])
      ensures Valid()
      ensures this.dbPath == ResolvePath(dbPath) && rows == Setup(file)[SENSOR_TABLE]
    {
      this.dbPath := ResolvePath(dbPath);
      rows := Setup(file)[SENSOR_TABLE];
    }

    /** `insert_data(sensor_data)`: one row more, or the NOT NULL
        IntegrityError with the table unchanged. */
    method InsertData(data: SensorData) returns (outcome: Outcome)
      requires Valid()
      modifies this
      ensures Valid() && dbPath == old(dbPath)
      ensures match AppendSensorRow(old(rows), data)
              case Ok(after) => outcome == Pass && rows == after
              case Err(e) => outcome == Fail(e) && rows == old(rows)
    {
      var column := FirstNull(data);
      if column.Some? {
        return Fail(NotNullViolated(column.value));
      }
      rows := rows + [Sensor(data.timestamp.value, data.lux, data.temperature, data.humidity)];
      outcome := Pass;
    }
  }
}

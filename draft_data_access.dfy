/** `SensorDataReader` of logger/data_access.py. Its queries are those of
    database/data_access.py, but the `SensorDatabase` it imports is the one
    of logger/db.py, which defines neither `_SENSOR_TABLE` nor
    `_CELL_OUTPUT_TABLE`. Each query is a function of the file the reader
    opens; the reader's own store runs `_setup` on that file first. */
module DraftDataAccess {
  import opened Base
  import opened Collation
  import opened Tables
  import Reader
  import DraftDatabase

  const SENSOR_TABLE: string := "sensor_data"
  const CELL_OUTPUT_TABLE: string := "cell_output"

  /** What the file may hold when the reader opens it: the draft's sensor
      table, and a `cell_output` table only as the main store writes it. */
  predicate DraftFile(file: Reader.Catalog)
  {
    && (SENSOR_TABLE in file ==> DraftDatabase.DraftTable(file[SENSOR_TABLE]))
    && (CELL_OUTPUT_TABLE in file ==> CellTable(file[CELL_OUTPUT_TABLE]))
  }

  /** The tables the queries see: the file after the reader's `SensorDatabase` ran `_setup`. */
  function Opened(file: Reader.Catalog): Reader.Catalog
  {
    DraftDatabase.Setup(file)
  }

  // ------------------------------------------------------------- as written

  /** `get_all_data()` as written: the class attribute lookup raises AttributeError. */
  function GetAllData(file: Reader.Catalog): (r: Result<seq<Reader.Record>>)
    ensures r == Err(MissingAttribute("_SENSOR_TABLE"))
  {
    Reader.GetAllData(DraftDatabase.CLASS_ATTRS, Opened(file))
  }

  /** `get_all_dssc_data()` as written: AttributeError on `_CELL_OUTPUT_TABLE`. */
  function GetAllDsscData(file: Reader.Catalog): (r: Result<seq<Reader.Record>>)
    ensures r == Err(MissingAttribute("_CELL_OUTPUT_TABLE"))
  {
    Reader.GetAllDsscData(DraftDatabase.CLASS_ATTRS, Opened(file))
  }

  /** `get_latest_entry(table)` as written: the set of valid names is built
      from the missing attributes before `table` is looked at, so every
      call, with any name, raises AttributeError rather than ValueError. */
  function GetLatestEntry(file: Reader.Catalog, table: string): (r: Result<Reader.Record>)
    ensures r == Err(MissingAttribute("_SENSOR_TABLE"))
  {
    Reader.GetLatestEntry(DraftDatabase.CLASS_ATTRS, Opened(file), table)
  }

  /** `get_data_between(table, start, end)` as written: AttributeError for every name. */
  function GetDataBetween(file: Reader.Catalog, table: string, start: string, end: string)
    : (r: Result<seq<Reader.Record>>)
    ensures r == Err(MissingAttribute("_SENSOR_TABLE"))
  {
    Reader.GetDataBetween(DraftDatabase.CLASS_ATTRS, Opened(file), table, start, end)
  }

  /** An unknown table name is never reported as ValueError by the queries as written. */
  lemma UnknownTableNotRejectedAsWritten(file: Reader.Catalog, table: string, start: string, end: string)
    ensures GetLatestEntry(file, table) != Err(InvalidTable)
    ensures GetDataBetween(file, table, start, end) != Err(InvalidTable)
  {
  }

  // --------------------------------------------------------------- repaired

  /** The attributes the queries expect: those of logger/db.py's class plus
      the two table names, as database/db.py's class defines them. */
  const FIXED_ATTRS: Reader.ClassAttrs :=
    DraftDatabase.CLASS_ATTRS["_SENSOR_TABLE" := SENSOR_TABLE]["_CELL_OUTPUT_TABLE" := CELL_OUTPUT_TABLE]

  lemma OpenedSensorTyped(file: Reader.Catalog)
    requires DraftFile(file)
    ensures Reader.TypedTable(FIXED_ATTRS, Opened(file), SENSOR_TABLE)
  {
    var rows := Opened(file)[SENSOR_TABLE];
    assert DraftDatabase.DraftTable(rows);
  }

  lemma OpenedCellTyped(file: Reader.Catalog)
    requires DraftFile(file) && CELL_OUTPUT_TABLE in file
    ensures Reader.TypedTable(FIXED_ATTRS, Opened(file), CELL_OUTPUT_TABLE)
  {
  }

  /** `get_all_data()` once the attributes exist: one dictionary per stored row. */
  function FixedGetAllData(file: Reader.Catalog): (r: Result<seq<Reader.Record>>)
    requires DraftFile(file)
    ensures r.Ok? && |r.value| == |Opened(file)[SENSOR_TABLE]|
    ensures forall i :: 0 <= i < |r.value| ==> r.value[i] == Reader.RecordOf(Opened(file)[SENSOR_TABLE][i])
  {
    OpenedSensorTyped(file);
    Reader.GetAllData(FIXED_ATTRS, Opened(file))
  }

  /** `get_all_dssc_data()` once the attributes exist: the draft store never
      creates `cell_output`, so unless the main store made it in the same
      file the query raises OperationalError. */
  function FixedGetAllDsscData(file: Reader.Catalog): (r: Result<seq<Reader.Record>>)
    requires DraftFile(file)
    ensures CELL_OUTPUT_TABLE !in file <==> r == Err(NoSuchTable(CELL_OUTPUT_TABLE))
    ensures CELL_OUTPUT_TABLE in file ==> r.Ok?
    ensures r.Ok? ==> r.value == Reader.Records(file[CELL_OUTPUT_TABLE])
  {
    if CELL_OUTPUT_TABLE in file then
      OpenedCellTyped(file);
      Reader.GetAllDsscData(FIXED_ATTRS, Opened(file))
    else
      Reader.GetAllDsscData(FIXED_ATTRS, Opened(file))
  }

  /** `get_latest_entry(table)` with both repairs: ValueError for an unknown
      name, OperationalError for a missing `cell_output`, None on an empty
      table, otherwise a stored row whose timestamp no other row exceeds. */
  function FixedGetLatestEntry(file: Reader.Catalog, table: string): (r: Result<Option<Reader.Record>>)
    requires DraftFile(file)
    ensures table != SENSOR_TABLE && table != CELL_OUTPUT_TABLE <==> r == Err(InvalidTable)
    ensures table == CELL_OUTPUT_TABLE && CELL_OUTPUT_TABLE !in file <==> r == Err(NoSuchTable(CELL_OUTPUT_TABLE))
    ensures table == SENSOR_TABLE || (table == CELL_OUTPUT_TABLE && CELL_OUTPUT_TABLE in file) ==> r.Ok?
    ensures r.Ok? ==> (r.value.None? <==> Opened(file)[table] == [])
    ensures r.Ok? && r.value.Some? ==>
              exists row :: row in Opened(file)[table] && r.value.value == Reader.RecordOf(row) &&
                forall i :: 0 <= i < |Opened(file)[table]| ==> Le(Opened(file)[table][i].timestamp, row.timestamp)
  {
    if table == SENSOR_TABLE then
      OpenedSensorTyped(file);
      Reader.LatestEntryOrNoneAnswers(FIXED_ATTRS, Opened(file), table);
      Reader.LatestEntryOrNone(FIXED_ATTRS, Opened(file), table)
    else if table == CELL_OUTPUT_TABLE && CELL_OUTPUT_TABLE in file then
      OpenedCellTyped(file);
      Reader.LatestEntryOrNoneAnswers(FIXED_ATTRS, Opened(file), table);
      Reader.LatestEntryOrNone(FIXED_ATTRS, Opened(file), table)
    else
      Reader.LatestEntryOrNone(FIXED_ATTRS, Opened(file), table)
  }

  /** `get_data_between(table, start, end)` once the attributes exist:
      ValueError for an unknown name, OperationalError for a missing
      `cell_output`, otherwise the inclusive range in ascending order,
      duplicates of the keyless table included. */
  function FixedGetDataBetween(file: Reader.Catalog, table: string, start: string, end: string)
    : (r: Result<seq<Reader.Record>>)
    requires DraftFile(file)
    ensures table != SENSOR_TABLE && table != CELL_OUTPUT_TABLE <==> r == Err(InvalidTable)
    ensures table == CELL_OUTPUT_TABLE && CELL_OUTPUT_TABLE !in file <==> r == Err(NoSuchTable(CELL_OUTPUT_TABLE))
    ensures table == SENSOR_TABLE || (table == CELL_OUTPUT_TABLE && CELL_OUTPUT_TABLE in file) ==> r.Ok?
    ensures r.Ok? ==> Reader.RangeAnswer(r.value, Opened(file)[table], start, end)
  {
    if table == SENSOR_TABLE then
      OpenedSensorTyped(file);
      Reader.DataBetweenAnswers(FIXED_ATTRS, Opened(file), table, start, end);
      Reader.GetDataBetween(FIXED_ATTRS, Opened(file), table, start, end)
    else if table == CELL_OUTPUT_TABLE && CELL_OUTPUT_TABLE in file then
      OpenedCellTyped(file);
      Reader.DataBetweenAnswers(FIXED_ATTRS, Opened(file), table, start, end);
      Reader.GetDataBetween(FIXED_ATTRS, Opened(file), table, start, end)
    else
      Reader.GetDataBetween(FIXED_ATTRS, Opened(file), table, start, end)
  }
}

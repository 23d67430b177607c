/** The session of the reader test in utils/tests/test_data_access.py.
    `setUp` empties both tables, then stores three readings taken a minute
    apart, newest first, in `sensor_data`, and one `cell_output` row per
    timestamp with cell ids 0, 1 and 2. The tests then ask both tables for
    the range from the oldest to the newest timestamp, expecting three rows
    each, and for the latest entry, expecting the newest timestamp.
    The test imports the classes of logger/db.py and logger/data_access.py,
    which lack the table-name attributes and `insert_cell_output`; the
    session is run here against database/db.py and database/data_access.py,
    which have them. The clock is a parameter: `t0`, `t1` and `t2` are the
    ISO texts of `now`, `now - 1 minute` and `now - 2 minutes`. */
module Scenario {
  import opened Base
  import opened Collation
  import opened Tables
  import Reader
  import opened Database
  import opened DataAccess

  /** `sample_data[i]` at timestamp `ts`. */
  function SampleData(ts: string, i: int): SensorData
  {
    SensorData(Some(ts), Some(100.0 + i as real), Some(22.1 + i as real), Some(45.0 + i as real))
  }

  /** The `reading` of `sample_cell_data[i]`. */
  function SampleReading(i: int): CellReading
  {
    CellReading(Some(0.5 + i as real), Some(0.01 + i as real), Some(0.005 + i as real))
  }

  /** The row `insert_cell_output(i, SampleReading(i), ts)` stores. */
  function SampleCell(ts: string, i: int): Row
  {
    Cell(ts, i, SampleReading(i).voltage, SampleReading(i).current, SampleReading(i).power)
  }

  /** Three times, each strictly below the one before in the BINARY order:
      the last is strictly below the first too. */
  lemma Decreasing(t0: string, t1: string, t2: string)
    requires Lt(t1, t0) && Lt(t2, t1)
    ensures Lt(t2, t0)
  {
    LeTransitive(t2, t1, t0);
    if t2 == t0 {
      LeAntisymmetric(t1, t0);
    }
  }

  /** When every row is in range, the selection is the whole table. */
  lemma AllInRange(rows: seq<Row>, start: string, end: string)
    requires forall i :: 0 <= i < |rows| ==> InRange(rows[i], start, end)
    ensures forall x :: multiset(rows)[x] == if InRange(x, start, end) then multiset(rows)[x] else 0
  {
    forall x | !InRange(x, start, end) ensures multiset(rows)[x] == 0 {
      assert x !in rows;
    }
  }

  /** Three rows stored newest first all lie between the oldest and the newest
      timestamp, so reversed they are exactly the selection, each as often as stored. */
  lemma ThreeRowsSelected(a: Row, b: Row, c: Row)
    requires Lt(b.timestamp, a.timestamp) && Lt(c.timestamp, b.timestamp)
    ensures forall x :: multiset([c, b, a])[x] ==
              if InRange(x, c.timestamp, a.timestamp) then multiset([a, b, c])[x] else 0
  {
    Decreasing(a.timestamp, b.timestamp, c.timestamp);
    LeReflexive(a.timestamp);
    LeReflexive(c.timestamp);
    AllInRange([a, b, c], c.timestamp, a.timestamp);
    assert multiset([c, b, a]) == multiset([a, b, c]);
  }

  /** The dictionaries of three rows, in their order. */
  lemma RecordsOfThree(x: Row, y: Row, z: Row)
    ensures Reader.Records([x, y, z]) == [Reader.RecordOf(x), Reader.RecordOf(y), Reader.RecordOf(z)]
  {
    assert [x, y, z][1..] == [y, z];
    assert [y, z][1..] == [z];
  }

  /** A witness arrangement makes its records an answer to the range query. */
  lemma AnsweredBy(records: seq<Reader.Record>, rows: seq<Row>, start: string, end: string, ordered: seq<Row>)
    requires Ascending(ordered)
    requires forall x :: multiset(ordered)[x] == if InRange(x, start, end) then multiset(rows)[x] else 0
    requires records == Reader.Records(ordered)
    ensures Reader.RangeAnswer(records, rows, start, end)
  {
  }

  /** Three rows, each below the next, are ascending. */
  lemma AscendingThree(x: Row, y: Row, z: Row)
    requires Le(x.timestamp, y.timestamp) && Le(y.timestamp, z.timestamp) && Le(x.timestamp, z.timestamp)
    ensures Ascending([x, y, z])
  {
  }

  /** Three rows stored newest first answer the range from the oldest to the
      newest timestamp with all three, oldest first. */
  lemma ThreeRowsAnswerTheirRange(a: Row, b: Row, c: Row)
    requires Lt(b.timestamp, a.timestamp) && Lt(c.timestamp, b.timestamp)
    ensures Reader.RangeAnswer([Reader.RecordOf(c), Reader.RecordOf(b), Reader.RecordOf(a)],
                               [a, b, c], c.timestamp, a.timestamp)
  {
    Decreasing(a.timestamp, b.timestamp, c.timestamp);
    AscendingThree(c, b, a);
    ThreeRowsSelected(a, b, c);
    RecordsOfThree(c, b, a);
    AnsweredBy([Reader.RecordOf(c), Reader.RecordOf(b), Reader.RecordOf(a)], [a, b, c], c.timestamp, a.timestamp, [c, b, a]);
  }

  /** Three rows stored newest first have three different timestamps. */
  lemma DistinctThree(a: Row, b: Row, c: Row)
    requires Lt(b.timestamp, a.timestamp) && Lt(c.timestamp, b.timestamp)
    ensures DistinctTimestamps([a, b, c])
  {
    Decreasing(a.timestamp, b.timestamp, c.timestamp);
  }

  /** That answer is the only one: the three timestamps differ. */
  lemma RangeOfThree(a: Row, b: Row, c: Row, records: seq<Reader.Record>)
    requires Lt(b.timestamp, a.timestamp) && Lt(c.timestamp, b.timestamp)
    requires Reader.RangeAnswer(records, [a, b, c], c.timestamp, a.timestamp)
    ensures records == [Reader.RecordOf(c), Reader.RecordOf(b), Reader.RecordOf(a)]
  {
    DistinctThree(a, b, c);
    ThreeRowsAnswerTheirRange(a, b, c);
    RangeAnswerUnique([a, b, c], c.timestamp, a.timestamp, records,
                      [Reader.RecordOf(c), Reader.RecordOf(b), Reader.RecordOf(a)]);
  }

  /** Of three rows stored newest first, only the first has the largest timestamp. */
  lemma LatestOfThree(a: Row, b: Row, c: Row, row: Row)
    requires Lt(b.timestamp, a.timestamp) && Lt(c.timestamp, b.timestamp)
    requires row in [a, b, c]
    requires forall i :: 0 <= i < 3 ==> Le([a, b, c][i].timestamp, row.timestamp)
    ensures row == a
  {
    Decreasing(a.timestamp, b.timestamp, c.timestamp);
    assert Le([a, b, c][0].timestamp, row.timestamp);
    if row == b {
      LeAntisymmetric(a.timestamp, b.timestamp);
    } else if row == c {
      LeAntisymmetric(a.timestamp, c.timestamp);
    }
  }

  /** The range query on a table holding three rows stored newest first,
      from the oldest to the newest timestamp, gives the three rows oldest first. */
  lemma RangeOnThreeRows(attrs: Reader.ClassAttrs, file: Reader.Catalog, table: string, a: Row, b: Row, c: Row)
    requires Reader.TypedTable(attrs, file, table)
    requires file[table] == [a, b, c]
    requires Lt(b.timestamp, a.timestamp) && Lt(c.timestamp, b.timestamp)
    ensures Reader.GetDataBetween(attrs, file, table, c.timestamp, a.timestamp)
            == Ok([Reader.RecordOf(c), Reader.RecordOf(b), Reader.RecordOf(a)])
  {
    Reader.DataBetweenAnswers(attrs, file, table, c.timestamp, a.timestamp);
    RangeOfThree(a, b, c, Reader.GetDataBetween(attrs, file, table, c.timestamp, a.timestamp).value);
  }

  /** The latest entry of a table holding three rows stored newest first is the first row. */
  lemma LatestOnThreeRows(attrs: Reader.ClassAttrs, file: Reader.Catalog, table: string, a: Row, b: Row, c: Row)
    requires Reader.TypedTable(attrs, file, table)
    requires file[table] == [a, b, c]
    requires Lt(b.timestamp, a.timestamp) && Lt(c.timestamp, b.timestamp)
    ensures Reader.LatestEntryOrNone(attrs, file, table) == Ok(Some(Reader.RecordOf(a)))
  {
    var rows := file[table];
    Reader.LatestEntryOrNoneAnswers(attrs, file, table);
    var latest := Reader.LatestEntryOrNone(attrs, file, table);
    var row :| row in rows && latest.value.value == Reader.RecordOf(row) &&
               forall i :: 0 <= i < |rows| ==> Le(rows[i].timestamp, row.timestamp);
    LatestOfThree(a, b, c, row);
  }

  /** The dictionary of a stored row carries its timestamp under "timestamp". */
  lemma TimestampOfRecord(row: Row)
    ensures "timestamp" in Reader.RecordOf(row) && Reader.RecordOf(row)["timestamp"] == Text(row.timestamp)
  {
    Reader.RecordOfByPosition(row);
    assert Reader.ColumnsOf(row)[0] == "timestamp";
  }

  /** The seeding of `setUp`: delete both tables' rows, then insert
      `sample_data[0..3]` at `t0`, `t1`, `t2` and the matching cell rows with
      cell ids 0, 1, 2. Every insert succeeds, since the timestamps differ. */
  method SetUp(db: SensorDatabase, t0: string, t1: string, t2: string)
    requires db.Valid()
    requires Lt(t1, t0) && Lt(t2, t1)
    modifies db
    ensures db.Valid() && db.dbPath == old(db.dbPath)
    ensures db.sensorRows == [SensorRowOf(SampleData(t0, 0)), SensorRowOf(SampleData(t1, 1)), SensorRowOf(SampleData(t2, 2))]
    ensures db.cellRows == [SampleCell(t0, 0), SampleCell(t1, 1), SampleCell(t2, 2)]
  {
    Decreasing(t0, t1, t2);
    // DELETE FROM both tables
    db.sensorRows := [];
    db.cellRows := [];
    var s0, s1 := SensorRowOf(SampleData(t0, 0)), SensorRowOf(SampleData(t1, 1));
    var o := db.InsertData(SampleData(t0, 0));
    assert db.sensorRows == [s0];
    assert !HasTimestamp([s0], t1);
    o := db.InsertData(SampleData(t1, 1));
    assert db.sensorRows == [s0, s1];
    assert !HasTimestamp([s0, s1], t2);
    o := db.InsertData(SampleData(t2, 2));
    var c0, c1 := SampleCell(t0, 0), SampleCell(t1, 1);
    o := db.InsertCellOutput(0, SampleReading(0), t0);
    assert db.cellRows == [c0];
    assert !HasCellKey([c0], t1, 1);
    o := db.InsertCellOutput(1, SampleReading(1), t1);
    assert db.cellRows == [c0, c1];
    assert !HasCellKey([c0, c1], t2, 2);
    o := db.InsertCellOutput(2, SampleReading(2), t2);
  }

  /** `setUp` followed by the two tests: open the store on `file`, delete
      both tables' rows, insert `sample_data[0..3]` at `t0`, `t1`, `t2` and
      the matching cell rows, then query both tables through a reader on the
      same file. Both ranges hold three rows, oldest first, and both latest
      entries carry `t0`. */
  method SeededSession(file: Reader.Catalog, t0: string, t1: string, t2: string)
    returns (sensorRange: Result<seq<Reader.Record>>, cellRange: Result<seq<Reader.Record>>,
             sensorLatest: Result<Option<Reader.Record>>, cellLatest: Result<Option<Reader.Record>>)
    requires WellFormedFile(file)
    requires Lt(t1, t0) && Lt(t2, t1)
    ensures sensorRange == Ok([Reader.RecordOf(SensorRowOf(SampleData(t2, 2))),
                               Reader.RecordOf(SensorRowOf(SampleData(t1, 1))),
                               Reader.RecordOf(SensorRowOf(SampleData(t0, 0)))])
    ensures cellRange == Ok([Reader.RecordOf(SampleCell(t2, 2)), Reader.RecordOf(SampleCell(t1, 1)),
                             Reader.RecordOf(SampleCell(t0, 0))])
    ensures sensorLatest == Ok(Some(Reader.RecordOf(SensorRowOf(SampleData(t0, 0)))))
    ensures cellLatest == Ok(Some(Reader.RecordOf(SampleCell(t0, 0))))
    ensures |sensorRange.value| == 3 && |cellRange.value| == 3
    ensures sensorLatest.value.value["timestamp"] == Text(t0) && cellLatest.value.value["timestamp"] == Text(t0)
  {
    Decreasing(t0, t1, t2);
    var s0, s1, s2 := SensorRowOf(SampleData(t0, 0)), SensorRowOf(SampleData(t1, 1)), SensorRowOf(SampleData(t2, 2));
    var c0, c1, c2 := SampleCell(t0, 0), SampleCell(t1, 1), SampleCell(t2, 2);
    var db := new SensorDatabase(Some("test_sensor_data.db"), file);
    SetUp(db, t0, t1, t2);
    var reader := new SensorDataReader(Some("test_sensor_data.db"), db.Catalog());
    var tables := reader.db.Catalog();
    assert tables == map[SENSOR_TABLE := [s0, s1, s2], CELL_OUTPUT_TABLE := [c0, c1, c2]];
    assert Reader.ValidCatalog(CLASS_ATTRS, tables);
    Reader.ValidCatalogTyped(CLASS_ATTRS, tables, SENSOR_TABLE);
    Reader.ValidCatalogTyped(CLASS_ATTRS, tables, CELL_OUTPUT_TABLE);
    RangeOnThreeRows(CLASS_ATTRS, tables, SENSOR_TABLE, s0, s1, s2);
    RangeOnThreeRows(CLASS_ATTRS, tables, CELL_OUTPUT_TABLE, c0, c1, c2);
    LatestOnThreeRows(CLASS_ATTRS, tables, SENSOR_TABLE, s0, s1, s2);
    LatestOnThreeRows(CLASS_ATTRS, tables, CELL_OUTPUT_TABLE, c0, c1, c2);
    TimestampOfRecord(s0);
    TimestampOfRecord(c0);
    sensorRange := reader.GetDataBetween(SENSOR_TABLE, t2, t0);
    cellRange := reader.GetDataBetween(CELL_OUTPUT_TABLE, t2, t0);
    sensorLatest := reader.GetLatestEntry(SENSOR_TABLE);
    cellLatest := reader.GetLatestEntry(CELL_OUTPUT_TABLE);
  }
}

/** `SensorDataReader` of database/data_access.py: read-only queries over the
    store a `SensorDatabase` holds, and the confirmed `clear_all_data`. The
    queries are functions of the store (they change nothing); clearing is a
    method that empties both tables in place. */
module DataAccess {
  import opened Base
  import opened Collation
  import opened Tables
  import opened Confirmation
  import Reader
  import opened Database

  class SensorDataReader {
    /** The store the reader opens in its constructor. */
    const db: SensorDatabase

    /** `SensorDataReader(db_path)`: opens its own `SensorDatabase` on the file. */
    constructor (dbPath: Option<string>, file: Reader.Catalog)
      requires WellFormedFile(file)
      ensures fresh(db) && db.Valid()
      ensures db.dbPath == ResolvePath(dbPath)
      ensures db.sensorRows == Setup(file)[SENSOR_TABLE] && db.cellRows == Setup(file)[CELL_OUTPUT_TABLE]
    {
      db := new SensorDatabase(dbPath, file);
    }

    /** The rows of the table a (known) name designates. */
    function RowsOf(table: string): seq<Row>
      reads db
    {
      if table == SENSOR_TABLE then db.sensorRows else db.cellRows
    }

    /** `get_all_data()`: one dictionary per stored `sensor_data` row, keyed by column name. */
    function GetAllData(): (r: Result<seq<Reader.Record>>)
      reads db
      requires db.Valid()
      ensures r.Ok? && |r.value| == |db.sensorRows|
      ensures forall i :: 0 <= i < |r.value| ==>
                Reader.RecordOf(db.sensorRows[i]) == r.value[i] && r.value[i].Keys == set c | c in Reader.SENSOR_COLUMNS
    {
      Reader.AllDataAnswers(CLASS_ATTRS, db.Catalog());
      Reader.GetAllData(CLASS_ATTRS, db.Catalog())
    }

    /** `get_all_dssc_data()`: one dictionary per stored `cell_output` row, keyed by column name. */
    function GetAllDsscData(): (r: Result<seq<Reader.Record>>)
      reads db
      requires db.Valid()
      ensures r.Ok? && |r.value| == |db.cellRows|
      ensures forall i :: 0 <= i < |r.value| ==>
                Reader.RecordOf(db.cellRows[i]) == r.value[i] && r.value[i].Keys == set c | c in Reader.CELL_COLUMNS
    {
      Reader.AllDataAnswers(CLASS_ATTRS, db.Catalog());
      Reader.GetAllDsscData(CLASS_ATTRS, db.Catalog())
    }

    /** `get_latest_entry(table)` with the empty-table case repaired: ValueError
        for an unknown name, None exactly when the table is empty, otherwise
        the dictionary of a stored row no other row's timestamp exceeds. */
    function GetLatestEntry(table: string): (r: Result<Option<Reader.Record>>)
      reads db
      requires db.Valid()
      ensures table != SENSOR_TABLE && table != CELL_OUTPUT_TABLE <==> r == Err(InvalidTable)
      ensures table == SENSOR_TABLE || table == CELL_OUTPUT_TABLE ==> r.Ok?
      ensures r.Ok? ==> (r.value.None? <==> RowsOf(table) == [])
      ensures r.Ok? && r.value.Some? ==>
                exists row :: row in RowsOf(table) && r.value.value == Reader.RecordOf(row) &&
                  forall i :: 0 <= i < |RowsOf(table)| ==> Le(RowsOf(table)[i].timestamp, row.timestamp)
    {
      if table == SENSOR_TABLE || table == CELL_OUTPUT_TABLE then
        Reader.ValidCatalogTyped(CLASS_ATTRS, db.Catalog(), table);
        Reader.LatestEntryOrNoneAnswers(CLASS_ATTRS, db.Catalog(), table);
        Reader.LatestEntryOrNone(CLASS_ATTRS, db.Catalog(), table)
      else
        Reader.LatestEntryOrNone(CLASS_ATTRS, db.Catalog(), table)
    }

    /** `get_data_between(table, start, end)`: ValueError for an unknown name,
        otherwise the dictionaries of exactly the rows with
        `start <= timestamp <= end`, in ascending timestamp order. */
    function GetDataBetween(table: string, start: string, end: string): (r: Result<seq<Reader.Record>>)
      reads db
      requires db.Valid()
      ensures table != SENSOR_TABLE && table != CELL_OUTPUT_TABLE <==> r == Err(InvalidTable)
      ensures table == SENSOR_TABLE || table == CELL_OUTPUT_TABLE ==> r.Ok?
      ensures r.Ok? ==> Reader.RangeAnswer(r.value, RowsOf(table), start, end)
    {
      if table == SENSOR_TABLE || table == CELL_OUTPUT_TABLE then
        Reader.ValidCatalogTyped(CLASS_ATTRS, db.Catalog(), table);
        Reader.DataBetweenAnswers(CLASS_ATTRS, db.Catalog(), table, start, end);
        Reader.GetDataBetween(CLASS_ATTRS, db.Catalog(), table, start, end)
      else
        Reader.GetDataBetween(CLASS_ATTRS, db.Catalog(), table, start, end)
    }

    /** `clear_all_data()`, with the operator's answer to the prompt as a
        parameter: PermissionError and nothing deleted unless the answer is
        "YES" after `strip().upper()`; otherwise both tables become empty. */
    method ClearAllData(confirm: string) returns (outcome: Outcome)
      requires db.Valid()
      modifies db
      ensures db.Valid() && db.dbPath == old(db.dbPath)
      ensures Confirmed(confirm) ==> outcome == Pass && db.sensorRows == [] && db.cellRows == []
      ensures !Confirmed(confirm) ==>
                outcome == Fail(DeletionAborted) && db.sensorRows == old(db.sensorRows) && db.cellRows == old(db.cellRows)
    {
      if Upper(Strip(confirm)) != "YES" {
        return Fail(DeletionAborted);
      }
      db.sensorRows := [];
      db.cellRows := [];
      outcome := Pass;
    }
  }

  /** The sensor table has unique timestamps, so its range answer is one
      list: any two lists that answer the same range query are equal. The
      same holds for any table whose stored timestamps happen to differ. */
  lemma RangeAnswerUnique(rows: seq<Row>, start: string, end: string, a: seq<Reader.Record>, b: seq<Reader.Record>)
    requires DistinctTimestamps(rows)
    requires Reader.RangeAnswer(a, rows, start, end) && Reader.RangeAnswer(b, rows, start, end)
    ensures a == b
  {
    var s :| Ascending(s) && (forall x :: multiset(s)[x] == if InRange(x, start, end) then multiset(rows)[x] else 0)
             && a == Reader.Records(s);
    var t :| Ascending(t) && (forall x :: multiset(t)[x] == if InRange(x, start, end) then multiset(rows)[x] else 0)
             && b == Reader.Records(t);
    SameSelection(rows, s, t, start, end);
    DistinctInSelection(rows, s, start, end);
    AscendingPermutationUnique(s, t);
  }

  /** Two selections of the same range from the same rows hold the same rows. */
  lemma SameSelection(rows: seq<Row>, s: seq<Row>, t: seq<Row>, start: string, end: string)
    requires forall x :: multiset(s)[x] == if InRange(x, start, end) then multiset(rows)[x] else 0
    requires forall x :: multiset(t)[x] == if InRange(x, start, end) then multiset(rows)[x] else 0
    ensures multiset(s) == multiset(t)
  {
    forall x ensures multiset(s)[x] == multiset(t)[x] {
    }
  }

  /** A selection (by multiplicity) from a table with unique timestamps has unique timestamps. */
  lemma DistinctInSelection(rows: seq<Row>, s: seq<Row>, start: string, end: string)
    requires DistinctTimestamps(rows)
    requires forall x :: multiset(s)[x] == if InRange(x, start, end) then multiset(rows)[x] else 0
    ensures DistinctTimestamps(s)
  {
    forall i, j | 0 <= i < j < |s| ensures s[i].timestamp != s[j].timestamp {
      assert s[i] in multiset(s) && s[j] in multiset(s);
      assert s[i] in rows && s[j] in rows;
      var p :| 0 <= p < |rows| && rows[p] == s[i];
      var q :| 0 <= q < |rows| && rows[q] == s[j];
      if s[i].timestamp == s[j].timestamp {
        assert p == q;
        assert s[i] == s[j];
        assert multiset(rows)[s[i]] == 1 by { UniqueKeyCountsOnce(rows, p); }
        assert multiset(s)[s[i]] >= 2 by { TwoPositions(s, i, j); }
        assert false;
      }
    }
  }

  /** In a table with unique timestamps each row is stored once. */
  lemma {:induction false} UniqueKeyCountsOnce(rows: seq<Row>, p: int)
    requires DistinctTimestamps(rows) && 0 <= p < |rows|
    ensures multiset(rows)[rows[p]] == 1
  {
    if p == 0 {
      assert rows == [rows[0]] + rows[1..];
      assert rows[0] !in rows[1..] by {
        forall k | 0 <= k < |rows[1..]| ensures rows[1..][k] != rows[0] {
          assert rows[1..][k] == rows[k + 1];
        }
      }
    } else {
      assert rows == [rows[0]] + rows[1..];
      assert rows[1..][p - 1] == rows[p];
      UniqueKeyCountsOnce(rows[1..], p - 1);
      assert rows[0] != rows[p];
    }
  }

  /** A value at two positions of a sequence occurs at least twice in it. */
  lemma TwoPositions(s: seq<Row>, i: int, j: int)
    requires 0 <= i < j < |s| && s[i] == s[j]
    ensures multiset(s)[s[i]] >= 2
  {
    assert s == s[..j] + s[j..];
    assert s[i] == s[..j][i];
    assert s[j] == s[j..][0];
  }
}

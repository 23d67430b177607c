/** The two SQLite tables, `sensor_data` and `cell_output`, as sequences of
    rows, and the parts of SQL the storage layer relies on: the primary keys,
    `SELECT *` column order, `WHERE timestamp BETWEEN ? AND ?`,
    `ORDER BY timestamp ASC` and `ORDER BY timestamp DESC LIMIT 1`.
    Readings are opaque: `None` is SQL NULL, `Some(x)` a stored REAL. */
module Tables {
  import opened Base
  import opened Collation

  /** One stored row of `sensor_data` (Sensor) or of `cell_output` (Cell). */
  datatype Row =
    | Sensor(timestamp: string, lux: Option<real>, temperature: Option<real>, humidity: Option<real>)
    | Cell(timestamp: string, cellId: int, voltage: Option<real>, current: Option<real>, power: Option<real>)

  /** The dictionary handed to `insert_data`; `None` stands for a Python None value. */
  datatype SensorData = SensorData(timestamp: Option<string>, lux: Option<real>,
                                   temperature: Option<real>, humidity: Option<real>)

  /** The `reading` dictionary handed to `insert_cell_output`. */
  datatype CellReading = CellReading(voltage: Option<real>, current: Option<real>, power: Option<real>)

  function Column(v: Option<real>): SqlValue
  {
    match v
    case None => Null
    case Some(x) => Real(x)
  }

  /** The tuple `SELECT *` yields for a row: its columns in declaration order. */
  function Tuple(row: Row): seq<SqlValue>
  {
    match row
    case Sensor(ts, lux, temperature, humidity) =>
      [Text(ts), Column(lux), Column(temperature), Column(humidity)]
    case Cell(ts, id, voltage, current, power) =>
      [Text(ts), Integer(id), Column(voltage), Column(current), Column(power)]
  }

  // ---------------------------------------------------------------- keys

  predicate HasTimestamp(rows: seq<Row>, ts: string)
  {
    exists i :: 0 <= i < |rows| && rows[i].timestamp == ts
  }

  predicate HasCellKey(rows: seq<Row>, ts: string, cellId: int)
  {
    exists i :: 0 <= i < |rows| && rows[i].Cell? && rows[i].timestamp == ts && rows[i].cellId == cellId
  }

  predicate DistinctTimestamps(rows: seq<Row>)
  {
    forall i, j :: 0 <= i < j < |rows| ==> rows[i].timestamp != rows[j].timestamp
  }

  /** `sensor_data` holds sensor rows and its primary key `timestamp` is unique. */
  predicate SensorTable(rows: seq<Row>)
  {
    (forall i :: 0 <= i < |rows| ==> rows[i].Sensor?) && DistinctTimestamps(rows)
  }

  /** `cell_output` holds cell rows and its primary key `(timestamp, cell_id)` is unique. */
  predicate CellTable(rows: seq<Row>)
  {
    && (forall i :: 0 <= i < |rows| ==> rows[i].Cell?)
    && (forall i, j :: 0 <= i < j < |rows| ==>
          rows[i].timestamp != rows[j].timestamp || rows[i].cellId != rows[j].cellId)
  }

  // ------------------------------------------------- ORDER BY timestamp ASC

  predicate Ascending(rows: seq<Row>)
  {
    forall i, j :: 0 <= i < j < |rows| ==> Le(rows[i].timestamp, rows[j].timestamp)
  }

  /** Places `x` before the first row of `s` whose timestamp is not below it. */
  function InsertInOrder(x: Row, s: seq<Row>): seq<Row>
  {
    if |s| == 0 then [x]
    else if Le(x.timestamp, s[0].timestamp) then [x] + s
    else [s[0]] + InsertInOrder(x, s[1..])
  }

  /** One arrangement SQLite may return for `ORDER BY timestamp ASC`; rows with
      equal timestamps keep no promised order in SQL, and the lemmas below
      only rely on the result being an ascending permutation. */
  function SortByTimestamp(rows: seq<Row>): seq<Row>
  {
    if |rows| == 0 then [] else InsertInOrder(rows[0], SortByTimestamp(rows[1..]))
  }

  lemma {:induction false} InsertInOrderPermutes(x: Row, s: seq<Row>)
    ensures multiset(InsertInOrder(x, s)) == multiset(s) + multiset{x}
  {
    if |s| > 0 && !Le(x.timestamp, s[0].timestamp) {
      InsertInOrderPermutes(x, s[1..]);
      assert s == [s[0]] + s[1..];
    }
  }

  lemma {:induction false} InsertInOrderAscending(x: Row, s: seq<Row>)
    requires Ascending(s)
    ensures Ascending(InsertInOrder(x, s))
  {
    if |s| == 0 {
    } else if Le(x.timestamp, s[0].timestamp) {
      var r := [x] + s;
      forall i, j | 0 <= i < j < |r| ensures Le(r[i].timestamp, r[j].timestamp) {
        if i == 0 && j > 1 {
          LeTransitive(x.timestamp, s[0].timestamp, s[j - 1].timestamp);
        }
      }
    } else {
      LeTotal(x.timestamp, s[0].timestamp);
      var tail := InsertInOrder(x, s[1..]);
      InsertInOrderAscending(x, s[1..]);
      InsertInOrderPermutes(x, s[1..]);
      var r := [s[0]] + tail;
      forall i, j | 0 <= i < j < |r| ensures Le(r[i].timestamp, r[j].timestamp) {
        if i == 0 {
          var y := tail[j - 1];
          assert y in multiset(tail);
          if y != x {
            assert y in multiset(s[1..]);
            var k :| 0 <= k < |s[1..]| && s[1..][k] == y;
            assert s[k + 1] == y;
          }
        }
      }
    }
  }

  /** The arrangement is an ascending permutation of its input. */
  lemma {:induction false} SortIsAscendingPermutation(rows: seq<Row>)
    ensures Ascending(SortByTimestamp(rows))
    ensures multiset(SortByTimestamp(rows)) == multiset(rows)
  {
    if |rows| > 0 {
      SortIsAscendingPermutation(rows[1..]);
      InsertInOrderAscending(rows[0], SortByTimestamp(rows[1..]));
      InsertInOrderPermutes(rows[0], SortByTimestamp(rows[1..]));
      assert rows == [rows[0]] + rows[1..];
    }
  }

  lemma TailMultiset(s: seq<Row>)
    requires |s| > 0
    ensures multiset(s[1..]) == multiset(s) - multiset{s[0]}
  {
    assert s == [s[0]] + s[1..];
  }

  /** Two ascending arrangements of the same rows with distinct timestamps
      start with the same row. */
  lemma HeadsAgree(s: seq<Row>, t: seq<Row>)
    requires |s| > 0 && |t| > 0
    requires Ascending(s) && Ascending(t)
    requires multiset(s) == multiset(t)
    requires DistinctTimestamps(s)
    ensures s[0] == t[0]
  {
    assert s[0] in multiset(t);
    var k :| 0 <= k < |t| && t[k] == s[0];
    assert t[0] in multiset(s);
    var m :| 0 <= m < |s| && s[m] == t[0];
    if m != 0 {
      if k != 0 {
        LeAntisymmetric(s[0].timestamp, t[0].timestamp);
      }
      assert false;
    }
  }

  /** With distinct timestamps `ORDER BY timestamp` leaves no choice: any two
      ascending arrangements of the same rows are equal. */
  lemma {:induction false} AscendingPermutationUnique(s: seq<Row>, t: seq<Row>)
    requires Ascending(s) && Ascending(t)
    requires multiset(s) == multiset(t)
    requires DistinctTimestamps(s)
    ensures s == t
  {
    assert |s| == |multiset(s)| == |multiset(t)| == |t|;
    if |s| > 0 {
      HeadsAgree(s, t);
      TailMultiset(s);
      TailMultiset(t);
      AscendingPermutationUnique(s[1..], t[1..]);
      assert s == [s[0]] + s[1..];
      assert t == [t[0]] + t[1..];
    }
  }

  // ------------------------------------- WHERE timestamp BETWEEN start AND end

  predicate InRange(row: Row, start: string, end: string)
  {
    Le(start, row.timestamp) && Le(row.timestamp, end)
  }

  /** The rows that pass `timestamp BETWEEN start AND end`, in stored order. */
  function Between(rows: seq<Row>, start: string, end: string): seq<Row>
  {
    if |rows| == 0 then []
    else (if InRange(rows[0], start, end) then [rows[0]] else []) + Between(rows[1..], start, end)
  }

  /** The filter keeps every in-range row as often as it is stored, and nothing else. */
  lemma {:induction false} BetweenSelects(rows: seq<Row>, start: string, end: string)
    ensures forall x :: multiset(Between(rows, start, end))[x] ==
                        if InRange(x, start, end) then multiset(rows)[x] else 0
  {
    if |rows| > 0 {
      BetweenSelects(rows[1..], start, end);
      assert rows == [rows[0]] + rows[1..];
    }
  }

  /** `BETWEEN` with `start > end` selects nothing: an empty answer, not an error. */
  lemma {:induction false} EmptyRangeWhenStartAfterEnd(rows: seq<Row>, start: string, end: string)
    requires Lt(end, start)
    ensures Between(rows, start, end) == []
  {
    if |rows| > 0 {
      if InRange(rows[0], start, end) {
        LeTransitive(start, rows[0].timestamp, end);
        LeAntisymmetric(start, end);
        assert false;
      }
      EmptyRangeWhenStartAfterEnd(rows[1..], start, end);
    }
  }

  lemma {:induction false} PointRangeMissing(rows: seq<Row>, t: string)
    requires !HasTimestamp(rows, t)
    ensures Between(rows, t, t) == []
  {
    if |rows| > 0 {
      if InRange(rows[0], t, t) {
        LeAntisymmetric(t, rows[0].timestamp);
        assert false;
      }
      assert !HasTimestamp(rows[1..], t);
      PointRangeMissing(rows[1..], t);
    }
  }

  /** On a table keyed by timestamp, `BETWEEN t AND t` for a stored `t` selects exactly that row. */
  lemma {:induction false} PointRangeOnUniqueKeys(rows: seq<Row>, t: string)
    requires DistinctTimestamps(rows) && HasTimestamp(rows, t)
    ensures |Between(rows, t, t)| == 1 && Between(rows, t, t)[0].timestamp == t
  {
    LeReflexive(t);
    if rows[0].timestamp == t {
      assert !HasTimestamp(rows[1..], t);
      PointRangeMissing(rows[1..], t);
    } else {
      if InRange(rows[0], t, t) {
        LeAntisymmetric(t, rows[0].timestamp);
        assert false;
      }
      var i :| 0 <= i < |rows| && rows[i].timestamp == t;
      assert rows[1..][i - 1].timestamp == t;
      PointRangeOnUniqueKeys(rows[1..], t);
    }
  }

  // ------------------------------------ ORDER BY timestamp DESC LIMIT 1

  /** The row `fetchone()` returns after `ORDER BY timestamp DESC LIMIT 1`,
      or None on an empty table. Among rows sharing the largest timestamp SQL
      promises none in particular; this picks the last stored one. */
  function Latest(rows: seq<Row>): Option<Row>
  {
    if |rows| == 0 then None
    else match Latest(rows[1..])
      case None => Some(rows[0])
      case Some(m) => if Le(rows[0].timestamp, m.timestamp) then Some(m) else Some(rows[0])
  }

  /** The latest row exists exactly when the table is non-empty, is one of its
      rows, and no row has a larger timestamp. */
  lemma {:induction false} LatestIsMaximum(rows: seq<Row>)
    ensures Latest(rows).None? <==> |rows| == 0
    ensures Latest(rows).Some? ==>
              Latest(rows).value in rows &&
              forall i :: 0 <= i < |rows| ==> Le(rows[i].timestamp, Latest(rows).value.timestamp)
  {
    if |rows| > 0 {
      LatestIsMaximum(rows[1..]);
      var r := Latest(rows).value;
      LeReflexive(rows[0].timestamp);
      match Latest(rows[1..])
      case None =>
      case Some(m) =>
        LeTotal(rows[0].timestamp, m.timestamp);
        forall i | 0 <= i < |rows| ensures Le(rows[i].timestamp, r.timestamp) {
          if i > 0 {
            assert rows[i] == rows[1..][i - 1];
            if r != m {
              LeTransitive(rows[i].timestamp, m.timestamp, r.timestamp);
            }
          }
        }
    }
  }

  /** Appending a row newer than every stored one makes it the latest. */
  lemma {:induction false} LatestAfterNewerAppend(rows: seq<Row>, x: Row)
    requires forall i :: 0 <= i < |rows| ==> Lt(rows[i].timestamp, x.timestamp)
    ensures Latest(rows + [x]) == Some(x)
  {
    if |rows| > 0 {
      assert (rows + [x])[1..] == rows[1..] + [x];
      LatestAfterNewerAppend(rows[1..], x);
    }
  }
}

# dssc_monitor storage layer in Dafny

This project models the storage layer of dssc_monitor. That is the code that stores environmental readings (lux, temperature, humidity) and the electrical output of dye-sensitised solar cells in SQLite, queries them back, and feeds them in from the sensors.

SQLite is replaced by sequences of rows. Each table is a `seq<Row>`, and SQL is modelled as follows:

- `TEXT` timestamps are compared with the BINARY collation, which is char-wise lexicographic order (`Collation.Le`).
- `ORDER BY timestamp` is a stable insertion sort. Queries are specified by what any correct sort must return.
- Primary keys are predicates on the row sequence.

The modules follow the repository's files:

| module | file | form |
|---|---|---|
| `Database` | database/db.py | `SensorDatabase` class, two keyed tables, insert methods |
| `DataAccess` | database/data_access.py | `SensorDataReader` class: query functions and the gated `ClearAllData` method |
| `DraftDatabase` | logger/db.py | earlier `SensorDatabase`: one keyless table, all columns NOT NULL |
| `DraftDataAccess` | logger/data_access.py | the earlier reader's queries, as written and repaired |
| `SensorLogger` | logger/sensor_logger.py | `SensorLogger` class, one insert per `log_data` |
| `Ina219` | sensors/ina219.py | sensors as values; `Ina219Manager.ReadAll` is a loop |
| `Reader` | both data_access.py files | the query code both readers share, parametrised by the imported class's attributes |
| `Tables`, `Collation`, `Confirmation`, `Base` | — | rows and keys, sorting and ranges, string order, the `strip().upper()` gate, errors |
| `Scenario` | utils/tests/test_data_access.py | the reader test's session: three sensor rows and three cell rows a minute apart, then range and latest queries on both tables |

Python exceptions are values of `Base.Error` inside `Result` or `Outcome`. The clock, the operator's typed answer and the I2C register reads are parameters.

## Model

| member | source | states |
|---|---|---|
| Database.GetSensorTableName | database/db.py:24-29 | the accessor returns the table named by the class attribute `_SENSOR_TABLE`, which differs from the cell table's name |
| Database.GetCellOutputTableName | database/db.py:31-36 | the accessor returns the table named by `_CELL_OUTPUT_TABLE` |
| Database.ResolvePath | database/db.py:11-19 | `db_path or default`: a non-empty path is kept; None or "" gives `_DEFAULT_DB_PATH`, "sensor_data.db" |
| Database.Setup | database/db.py:38-62 | both tables exist afterwards; existing tables keep their rows; missing ones start empty |
| Database.SetupIdempotent | database/db.py:42-61 | running `_setup` twice is the same as running it once |
| Database.SetupWellFormed | database/db.py:42-61 | after setup the sensor table has unique timestamps and the cell table has unique (timestamp, cell_id) |
| Database.InsertSensorRow | database/db.py:65-84 | accepted iff the timestamp is non-NULL and not stored; otherwise NOT NULL or UNIQUE error; on success exactly the row of the dict's fields is appended, and the primary key stays unique |
| Database.InsertCellRow | database/db.py:86-108 | accepted iff (timestamp, cell_id) is not stored; on success exactly one row built from the arguments is appended, and the key stays unique |
| Database.DuplicateTimestampRefused | database/db.py:43-84 | a second insert with a stored timestamp fails |
| Database.CellKeyIsThePair | database/db.py:53-108 | the same (timestamp, cell_id) twice fails; the same timestamp with another cell_id is accepted exactly when it was before |
| Database.SensorDatabase.constructor | database/db.py:11-22 | the path is resolved; the tables are the file's tables after `_setup`; the keys hold |
| Database.SensorDatabase.InsertData | database/db.py:65-84 | the sensor table gains the row, or is unchanged with the IntegrityError; the cell table and path never change; keys stay unique |
| Database.SensorDatabase.InsertCellOutput | database/db.py:86-108 | the cell table gains the row, or is unchanged with the IntegrityError; the sensor table never changes |
| Reader.RowToDict | database/data_access.py:99-126 | "sensor" maps positions 0..3 and "cell" maps 0..4 to their column names; None raises TypeError; a short tuple raises IndexError; any other type gives `{}` |
| Reader.RecordOfByPosition | database/data_access.py:111-125 | a stored row's dict has exactly its table's column names as keys, and the value under column k is tuple position k |
| Reader.RecordOfInjective | database/data_access.py:111-125 | distinct stored rows give distinct dicts, so nothing stored is lost in the mapping |
| Reader.MapRowToDict | database/data_access.py:94-96 | when every row is of the requested type, the list comprehension raises nothing and yields one dict per row, in order |
| Reader.UnknownTableRejected | database/data_access.py:56-84 | for any name other than the two the class gives, `get_latest_entry` and `get_data_between` raise ValueError, whatever the file holds |
| Reader.DataBetweenAnswers | database/data_access.py:83-96 | on either table the result is the dicts of an ascending arrangement of exactly the rows with start <= timestamp <= end, each as often as stored |
| Reader.LatestEntryAnswers | database/data_access.py:56-66 | on a non-empty table the result is the dict of a stored row whose timestamp no row exceeds |
| Reader.LatestEntryOnEmptyTableRaises | database/data_access.py:59-66 | as written, an empty table raises TypeError instead of returning None |
| Reader.LatestEntryOrNoneAnswers | database/data_access.py:43-66 | corrected query: None exactly on an empty table, otherwise a maximal-timestamp row's dict |
| Reader.AllDataAnswers | database/data_access.py:21-41 | `get_all_data` and `get_all_dssc_data` give one dict per stored row of their table |
| Tables.SortIsAscendingPermutation | database/data_access.py:86-96 | `ORDER BY timestamp ASC` yields an ascending permutation of its input |
| Tables.AscendingPermutationUnique | database/data_access.py:86-96 | with unique timestamps, only one ascending arrangement of a set of rows exists |
| Tables.BetweenSelects | database/data_access.py:86-92 | `WHERE timestamp BETWEEN ? AND ?` keeps every in-range row as often as stored and drops every other row |
| Tables.EmptyRangeWhenStartAfterEnd | database/data_access.py:86-92 | start > end selects nothing |
| Tables.PointRangeOnUniqueKeys | database/data_access.py:86-92 | with unique timestamps, the range [t, t] for a stored t selects exactly one row, the one at t |
| Tables.PointRangeMissing | database/data_access.py:86-92 | the range [t, t] for a timestamp not stored selects nothing |
| Tables.LatestIsMaximum | database/data_access.py:59-65 | `ORDER BY timestamp DESC LIMIT 1` gives no row iff the table is empty; otherwise a stored row that no row's timestamp exceeds |
| Tables.LatestAfterNewerAppend | database/data_access.py:59-65 | after appending a row later than all stored rows, that row is the latest |
| Collation.LeReflexive | database/data_access.py:89 | the BINARY order on timestamps is reflexive |
| Collation.LeAntisymmetric | database/data_access.py:89 | the BINARY order is antisymmetric |
| Collation.LeTransitive | database/data_access.py:89 | the BINARY order is transitive |
| Collation.LeTotal | database/data_access.py:89 | any two timestamps are comparable |
| Collation.LtAtFirstDifference | database/data_access.py:89 | the first differing character decides the order |
| Confirmation.ConfirmedIff | database/data_access.py:185-186 | the gate passes exactly for "yes" in any case with any surrounding whitespace |
| Confirmation.UpperIsYes | database/data_access.py:185 | `upper()` gives "YES" exactly for the eight case mixes of "yes" |
| Confirmation.StripLeadingSplit | database/data_access.py:185 | `lstrip` removes exactly a whitespace prefix, up to the first non-space |
| Confirmation.StripTrailingSplit | database/data_access.py:185 | `rstrip` removes exactly a whitespace suffix, back to the last non-space |
| DataAccess.SensorDataReader.constructor | database/data_access.py:10-19 | the reader opens its own store on the file, running `_setup` |
| DataAccess.SensorDataReader.GetAllData | database/data_access.py:21-30 | one dict per stored sensor row, position for position, keyed by the four column names |
| DataAccess.SensorDataReader.GetAllDsscData | database/data_access.py:32-41 | one dict per stored cell row, keyed by the five column names |
| DataAccess.SensorDataReader.GetLatestEntry | database/data_access.py:43-66 | corrected: ValueError iff the name is unknown; a known table always answers; None iff the table is empty; otherwise a stored row with the maximum timestamp |
| DataAccess.SensorDataReader.GetDataBetween | database/data_access.py:68-96 | ValueError iff the name is unknown; a known table always answers, with exactly the in-range rows, each as often as stored, ascending |
| DataAccess.SensorDataReader.ClearAllData | database/data_access.py:172-191 | without confirmation: PermissionError, both tables unchanged; with confirmation: both tables empty |
| DataAccess.RangeAnswerUnique | database/data_access.py:86-96 | on a table with unique timestamps, such as the keyed sensor table, the range answer is determined: two answers to the same query are equal |
| DataAccess.DistinctInSelection | database/db.py:48 | a selection from a table with unique timestamps has unique timestamps |
| DataAccess.UniqueKeyCountsOnce | database/db.py:48 | under the timestamp key each stored row occurs once |
| DraftDatabase.GetDbPath | logger/db.py:45-50 | returns the class's `_DEFAULT_DB_PATH`, which is also the constructor's default |
| DraftDatabase.ResolvePath | logger/db.py:9-10 | a given path is kept as is (no `or`); an omitted one is "sensor_data.db" |
| DraftDatabase.Setup | logger/db.py:15-24 | only `sensor_data` is created; existing tables keep their rows |
| DraftDatabase.SetupIdempotent | logger/db.py:15-24 | running `_setup` twice is the same as running it once |
| DraftDatabase.AppendSensorRow | logger/db.py:27-40 | accepted iff all four values are non-NULL; a NULL gives the NOT NULL error; on success exactly the dict's row is appended |
| DraftDatabase.DuplicatesAccepted | logger/db.py:16-40 | with no primary key, the same reading inserted twice is stored twice |
| DraftDatabase.OneRowAfterFirstInsert | logger/db.py:15-40 | a fresh table holds one row after one accepted insert |
| DraftDatabase.SensorDatabase.constructor | logger/db.py:9-13 | the path is resolved and the table is the file's after `_setup` |
| DraftDatabase.SensorDatabase.InsertData | logger/db.py:27-40 | the table gains the row, or is unchanged with the NOT NULL error |
| DraftDataAccess.GetAllData | logger/data_access.py:20-29 | as written: AttributeError on `_SENSOR_TABLE` for every file |
| DraftDataAccess.GetAllDsscData | logger/data_access.py:31-40 | as written: AttributeError on `_CELL_OUTPUT_TABLE` for every file |
| DraftDataAccess.GetLatestEntry | logger/data_access.py:42-65 | as written: AttributeError for every table name, the invalid ones included |
| DraftDataAccess.GetDataBetween | logger/data_access.py:67-95 | as written: AttributeError for every table name and range |
| DraftDataAccess.UnknownTableNotRejectedAsWritten | logger/data_access.py:55-83 | as written, no unknown table name is reported as ValueError |
| DraftDataAccess.FixedGetAllData | logger/data_access.py:20-29 | with the attributes defined: one dict per stored row |
| DraftDataAccess.FixedGetAllDsscData | logger/data_access.py:31-40 | with the attributes defined: OperationalError iff the file has no `cell_output`; when it has one, the query answers with one dict per row |
| DraftDataAccess.FixedGetLatestEntry | logger/data_access.py:42-65 | ValueError iff the name is unknown; OperationalError iff the cell table is asked for and missing; the sensor table and an existing cell table always answer: None iff empty, otherwise a maximal row |
| DraftDataAccess.FixedGetDataBetween | logger/data_access.py:67-95 | ValueError iff the name is unknown; OperationalError iff the cell table is asked for and missing; the sensor table and an existing cell table always answer, with the in-range rows ascending, duplicates included |
| SensorLogger.ResolveTimestamp | logger/sensor_logger.py:32 | a non-empty timestamp is kept verbatim; None or "" is replaced by the clock value |
| SensorLogger.SensorLogger.constructor | logger/sensor_logger.py:6-13 | the logger keeps the injected store |
| SensorLogger.SensorLogger.LogData | logger/sensor_logger.py:15-41 | the store gains exactly one row: the resolved timestamp and the three readings unchanged |
| Ina219.Ina219Sensor.ReadVoltage | sensors/ina219.py:16-18 | the bus voltage register as a float, or the bus error |
| Ina219.Ina219Sensor.ReadCurrentAsWritten | sensors/ina219.py:20-22 | as written: the tuple (current, 3) |
| Ina219.CurrentIsNotAFloatAsWritten | sensors/ina219.py:20-22 | as written, a successful current read is never a float, and it differs from the corrected read |
| Ina219.Ina219Sensor.ReadCurrent | sensors/ina219.py:20-22 | corrected: the current register as a float, or the bus error |
| Ina219.Ina219Sensor.ReadPower | sensors/ina219.py:24-26 | the power register as a float, or the bus error |
| Ina219.Ina219Sensor.ReadCurrentBy | sensors/ina219.py:20-22 | the chosen `read_current`: the tuple (current, 3) as written, the float when corrected; the bus error either way |
| Ina219.ReadEntry | sensors/ina219.py:43-48 | one entry succeeds iff all three registers of its device read; its cell_id is idx + 1; voltage and power are floats; the current is a float exactly with the corrected `read_current` (as written it is the tuple); on failure, the first failing read's error |
| Ina219.Ina219Manager.constructor | sensors/ina219.py:31-37 | one sensor per address, in the given order |
| Ina219.Ina219Manager.ReadAll | sensors/ina219.py:39-49 | Ok iff every device reads; then one entry per sensor, numbered 1..N in configuration order, each with its own device's three readings, the current being the tuple (current, 3) as written and the float when corrected, so as written no entry's current is a float; otherwise the error of the first failing sensor, and no list |
| Scenario.RangeOfThree | utils/tests/test_data_access.py:72-87 | three rows stored newest first answer the range from the oldest to the newest timestamp with exactly their three dicts, oldest first |
| Scenario.LatestOfThree | utils/tests/test_data_access.py:90-98 | of three rows stored newest first, only the first has the maximum timestamp |
| Scenario.RangeOnThreeRows | utils/tests/test_data_access.py:72-87 | `get_data_between` on such a table gives the three dicts, oldest first |
| Scenario.LatestOnThreeRows | utils/tests/test_data_access.py:90-98 | `get_latest_entry` on such a table gives the newest row's dict |
| Scenario.TimestampOfRecord | database/data_access.py:111-125 | a stored row's dict holds its timestamp under "timestamp" |
| Scenario.SetUp | utils/tests/test_data_access.py:15-61 | after deleting both tables' rows, the three sensor inserts (timestamps now, now - 1 min, now - 2 min) and the three cell inserts (cell ids 0, 1, 2) all succeed, and the tables hold exactly those rows in insertion order |
| Scenario.SeededSession | utils/tests/test_data_access.py:15-98 | after `setUp`, the range from the oldest to the newest timestamp gives three dicts on each table, oldest first, and the latest entry of each table carries the newest timestamp |

## Left out

- The SQLite engine is not modelled: connections, cursors, `commit`, `close_conn` and the readers' and logger's `close`. `INA219Manager.close` does nothing and is not modelled either.
- `show_all_dataframes` and `export_to_csv` (pandas and CSV file output) are left out, and so is all `print` output.
- `input()` is replaced by a `confirm` parameter of `ClearAllData`, and `datetime.now()` by a `now` parameter of `LogData`.
- Confirmation: `strip` and `upper` are modelled on ASCII and the ASCII whitespace Python recognises. Non-ASCII whitespace and case mappings such as `'ſ'.upper() == 'S'` are not modelled.
- The I2C bus and the INA219 driver objects are a `read(address, channel)` parameter. Failures while building them are not modelled, and each register is read once per entry.
- Ina219.Ina219Sensor.ReadVoltage: `round(..., 3)` is not modelled; the register value is carried exactly. This applies to `ReadPower` and `ReadCurrent` too.
- SQL `SELECT *` without `ORDER BY` promises no order. The model returns rows in stored order, and only the one-dict-per-row correspondence is relied on.
- Ties on equal timestamps in `ORDER BY` have no promised order. The model's sort is stable and picks the later stored row as latest. The contracts claim only "a maximal row" and "an ascending arrangement".
- The schema of a table that already exists with other columns is not modelled: `WellFormedFile` and `DraftFile` require the file's tables to match this schema. SQLite type affinity and Python values of unexpected types are not modelled; readings are reals or NULL.
- `KeyError` from a dict missing one of its keys is not modelled: inserts take typed records.
- Database.SensorDatabase.InsertCellOutput: the timestamp is a `string`, as its type hint says. A None timestamp, which the NOT NULL column would refuse, is not modelled.
- DraftDatabase.ResolvePath: the `Path(db_path)` normalisation (for example `""` becoming `"."`) is not modelled.
- DataAccess.SensorDataReader.GetLatestEntry: it states the repaired behaviour, None on an empty table. As written the query raises TypeError there; see Findings and `Reader.GetLatestEntry`.
- DataAccess.SensorDataReader.constructor: the reader's store is built from the file's tables at open time. Later writes through another connection to the same file are not reflected, because separate connections are not modelled.
- SensorLogger.SensorLogger.LogData: the injected store is typed as logger/db.py's `SensorDatabase`, as the annotation says. Injecting the main store, which works by duck typing, is not modelled.
- `read_all` has no `try`: the first failing register read propagates out of the loop, and failures are not isolated per sensor. `Ina219.Ina219Manager.ReadAll` models exactly that.
- `get_all_data` and `get_all_dssc_data` have no `ORDER BY`, so no order of their rows is promised (see the `SELECT *` line above).
- Only `Reader.GetLatestEntry` follows the code of `get_latest_entry` on an empty table, raising TypeError. `DataAccess.SensorDataReader.GetLatestEntry` and the `Fixed` queries of `DraftDataAccess` are the repaired query, which returns None there.
- Scenario.SeededSession: the test imports logger/db.py and logger/data_access.py, whose class has neither the table-name attributes nor `insert_cell_output`, so its `setUp` cannot get past its first `DELETE`. Its latest-entry test also reads the undefined names `latest_sensor` and `latest_cell`. The session is run against database/db.py and database/data_access.py, and it states what the test's assertions check: three rows per range and the newest timestamp as latest.
- sensors/tsl2591.py, sensors/dht11.py, sensors/ads1256.py and main.py are not part of this model.

## Findings

| source | as written | input that shows it | evidently intended | confidence | as-written member | corrected member |
|---|---|---|---|---|---|---|
| database/data_access.py:59-66 | `fetchone()` gives None on an empty table and `_row_to_dict` subscripts it: TypeError. The same code is at logger/data_access.py:58-65 | `get_latest_entry("sensor_data")` on an empty table | return None, as the docstring says at line 51 | high; not executed | Reader.GetLatestEntry, Reader.LatestEntryOnEmptyTableRaises | Reader.LatestEntryOrNone, Reader.LatestEntryOrNoneAnswers |
| logger/data_access.py:27 | the queries read `SensorDatabase._SENSOR_TABLE` and `_CELL_OUTPUT_TABLE`, which logger/db.py's class does not define: every query raises AttributeError, an invalid table name included | `get_data_between("sensor_data", start, end)`, or any other call | the class attributes as database/db.py defines them | high; not executed | DraftDataAccess.GetDataBetween, DraftDataAccess.UnknownTableNotRejectedAsWritten | DraftDataAccess.FixedGetDataBetween, DraftDataAccess.FixedGetLatestEntry |
| sensors/ina219.py:22 | `return(self.device.current, 3)` returns the tuple (current, 3) | any successful `read_current()` | `round(self.device.current, 3)`, a float, as the float check at tests/test_ina219.py:30 expects | high; not executed | Ina219.Ina219Sensor.ReadCurrentAsWritten, Ina219.CurrentIsNotAFloatAsWritten | Ina219.Ina219Sensor.ReadCurrent, Ina219.Ina219Manager.ReadAll |

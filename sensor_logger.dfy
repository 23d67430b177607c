/** `SensorLogger` of logger/sensor_logger.py: turns one set of readings into
    one row of the injected store. The clock is a parameter: `now` is the
    ISO text `datetime.now().isoformat()` would give at the call. */
module SensorLogger {
  import opened Base
  import opened Tables
  import DraftDatabase

  /** `timestamp or now`: None and the empty string are both falsy. */
  function ResolveTimestamp(timestamp: Option<string>, now: string): (ts: string)
    ensures timestamp.Some? && timestamp.value != "" ==> ts == timestamp.value
    ensures timestamp.None? || timestamp.value == "" ==> ts == now
  {
    if timestamp.Some? && timestamp.value != "" then timestamp.value else now
  }

  class SensorLogger {
    const db: DraftDatabase.SensorDatabase

    /** `SensorLogger(db=...)`: keeps the injected store. */
    constructor (db: DraftDatabase.SensorDatabase)
      ensures this.db == db
    {
      this.db := db;
    }

    /** `log_data(lux=, temperature=, humidity=, timestamp=)`: exactly one
        insert on the injected store, which gains one row holding the three
        readings unchanged under the resolved timestamp. */
    method LogData(lux: real, temperature: real, humidity: real, timestamp: Option<string>, now: string)
      requires db.Valid()
      modifies db
      ensures db.Valid() && db.dbPath == old(db.dbPath)
      ensures db.rows == old(db.rows) + [Sensor(ResolveTimestamp(timestamp, now), Some(lux), Some(temperature), Some(humidity))]
    {
      var resolved := ResolveTimestamp(timestamp, now);
      var data := SensorData(Some(resolved), Some(lux), Some(temperature), Some(humidity));
      var outcome := db.InsertData(data);
      assert outcome == Pass;
    }
  }
}

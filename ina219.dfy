/** `INA219Sensor` and `INA219Manager` of sensors/ina219.py: one power
    monitor per configured I2C address, read in configuration order into
    numbered cell entries. The bus is a parameter: `read(address, channel)`
    is what the driver's register read at that address yields, or the
    error it raises. Rounding to three places is not modelled. */
module Ina219 {
  import opened Base

  /** The three registers `read_all` reads from each device. */
  datatype Channel = BusVoltage | Current | Power

  /** A value the sensor methods return: a float, or the tuple `(x, 3)`. */
  datatype Value = Float(x: real) | Pair(first: real, second: int)

  /** Which `read_current` the entries are built with: the one in the file,
      which returns the tuple `(current, 3)`, or the intended float. */
  datatype CurrentRead = AsWritten | Corrected

  /** The value an entry's `"current"` holds for a register value `c`. */
  function CurrentValue(variant: CurrentRead, c: real): Value
  {
    match variant
    case AsWritten => Pair(c, 3)
    case Corrected => Float(c)
  }

  /** One dictionary of `read_all`'s list. */
  datatype CellEntry = CellEntry(cellId: int, voltage: Value, current: Value, power: Value)

  /** `INA219Sensor(i2c_bus, address)`: the driver object is the bus at `address`. */
  datatype Ina219Sensor = Ina219Sensor(address: int) {

    /** `read_voltage()`: the bus voltage register. */
    function ReadVoltage(read: (int, Channel) -> Result<real>): (r: Result<Value>)
      ensures r.Ok? <==> read(address, BusVoltage).Ok?
      ensures r.Ok? ==> r.value == Float(read(address, BusVoltage).value)
      ensures r.Err? ==> r.error == read(address, BusVoltage).error
    {
      var v :- read(address, BusVoltage);
      Ok(Float(v))
    }

    /** `read_current()` as written: the parenthesised pair is a tuple, not a call to `round`. */
    function ReadCurrentAsWritten(read: (int, Channel) -> Result<real>): (r: Result<Value>)
      ensures r.Ok? <==> read(address, Current).Ok?
      ensures r.Ok? ==> r.value == Pair(read(address, Current).value, 3)
      ensures r.Err? ==> r.error == read(address, Current).error
    {
      var c :- read(address, Current);
      Ok(Pair(c, 3))
    }

    /** `read_current()` as intended: the current register as a float. */
    function ReadCurrent(read: (int, Channel) -> Result<real>): (r: Result<Value>)
      ensures r.Ok? <==> read(address, Current).Ok?
      ensures r.Ok? ==> r.value == Float(read(address, Current).value)
      ensures r.Err? ==> r.error == read(address, Current).error
    {
      var c :- read(address, Current);
      Ok(Float(c))
    }

    /** `read_power()`: the power register. */
    function ReadPower(read: (int, Channel) -> Result<real>): (r: Result<Value>)
      ensures r.Ok? <==> read(address, Power).Ok?
      ensures r.Ok? ==> r.value == Float(read(address, Power).value)
      ensures r.Err? ==> r.error == read(address, Power).error
    {
      var p :- read(address, Power);
      Ok(Float(p))
    }

    /** The `read_current` of the chosen variant. */
    function ReadCurrentBy(variant: CurrentRead, read: (int, Channel) -> Result<real>): (r: Result<Value>)
      ensures r.Ok? <==> read(address, Current).Ok?
      ensures r.Ok? ==> r.value == CurrentValue(variant, read(address, Current).value)
      ensures r.Err? ==> r.error == read(address, Current).error
    {
      match variant
      case AsWritten => ReadCurrentAsWritten(read)
      case Corrected => ReadCurrent(read)
    }
  }

  /** As written, a successful `read_current` never yields a float, so the
      float check on every entry's current cannot pass. */
  lemma CurrentIsNotAFloatAsWritten(sensor: Ina219Sensor, read: (int, Channel) -> Result<real>)
    requires read(sensor.address, Current).Ok?
    ensures !sensor.ReadCurrentAsWritten(read).value.Float?
    ensures sensor.ReadCurrentAsWritten(read).value != sensor.ReadCurrent(read).value
  {
  }

  /** All three registers of the device at `address` can be read. */
  predicate Readable(address: int, read: (int, Channel) -> Result<real>)
  {
    read(address, BusVoltage).Ok? && read(address, Current).Ok? && read(address, Power).Ok?
  }

  /** The error the first failing read at `address` raises, in the order
      voltage, current, power. */
  function FirstError(address: int, read: (int, Channel) -> Result<real>): Error
    requires !Readable(address, read)
  {
    if read(address, BusVoltage).Err? then read(address, BusVoltage).error
    else if read(address, Current).Err? then read(address, Current).error
    else read(address, Power).error
  }

  /** Entry `idx` of `read_all`'s list: every value from the same device.
      Its current is a float exactly when the corrected `read_current` is used. */
  function ReadEntry(idx: int, sensor: Ina219Sensor, read: (int, Channel) -> Result<real>, variant: CurrentRead)
    : (r: Result<CellEntry>)
    ensures r.Ok? <==> Readable(sensor.address, read)
    ensures r.Err? ==> r.error == FirstError(sensor.address, read)
    ensures r.Ok? ==> r.value.cellId == idx + 1 && r.value.voltage.Float? && r.value.power.Float?
    ensures r.Ok? ==> (r.value.current.Float? <==> variant == Corrected)
  {
    var voltage :- sensor.ReadVoltage(read);
    var current :- sensor.ReadCurrentBy(variant, read);
    var power :- sensor.ReadPower(read);
    Ok(CellEntry(idx + 1, voltage, current, power))
  }

  class Ina219Manager {
    const sensors: seq<Ina219Sensor>

    /** `INA219Manager(addresses)`: one sensor per address, in the given order. */
    constructor (addresses: seq<int>)
      ensures |sensors| == |addresses|
      ensures forall i :: 0 <= i < |addresses| ==> sensors[i].address == addresses[i]
    {
      sensors := seq(|addresses|, i requires 0 <= i < |addresses| => Ina219Sensor(addresses[i]));
    }

    /** `read_all()`: one entry per configured sensor, numbered 1..N in
        configuration order, each holding the three readings of its own
        device; the first failing read raises out of the loop and no list
        is returned. With `AsWritten` every entry's current is the tuple
        `(current, 3)`; with `Corrected` it is the float. */
    method ReadAll(read: (int, Channel) -> Result<real>, variant: CurrentRead) returns (r: Result<seq<CellEntry>>)
      ensures r.Ok? <==> forall i :: 0 <= i < |sensors| ==> Readable(sensors[i].address, read)
      ensures r.Ok? ==> |r.value| == |sensors|
      ensures r.Ok? ==> forall i :: 0 <= i < |sensors| ==>
                && r.value[i].cellId == i + 1
                && r.value[i].voltage == Float(read(sensors[i].address, BusVoltage).value)
                && r.value[i].current == CurrentValue(variant, read(sensors[i].address, Current).value)
                && r.value[i].power == Float(read(sensors[i].address, Power).value)
      ensures r.Ok? && variant == AsWritten ==> forall i :: 0 <= i < |r.value| ==> !r.value[i].current.Float?
      ensures r.Err? ==> (exists k :: 0 <= k < |sensors| && !Readable(sensors[k].address, read) &&
                           (forall i :: 0 <= i < k ==> Readable(sensors[i].address, read)) &&
                           r.error == FirstError(sensors[k].address, read))
    {
      var readings: seq<CellEntry> := [];
      var idx := 0;
      while idx < |sensors|
        invariant 0 <= idx <= |sensors| && |readings| == idx
        invariant forall i :: 0 <= i < idx ==> Readable(sensors[i].address, read)
        invariant forall i :: 0 <= i < idx ==>
                    && readings[i].cellId == i + 1
                    && readings[i].voltage == Float(read(sensors[i].address, BusVoltage).value)
                    && readings[i].current == CurrentValue(variant, read(sensors[i].address, Current).value)
                    && readings[i].power == Float(read(sensors[i].address, Power).value)
      {
        var entry := ReadEntry(idx, sensors[idx], read, variant);
        if entry.Err? {
          return Err(entry.error);
        }
        readings := readings + [entry.value];
        idx := idx + 1;
      }
      return Ok(readings);
    }
  }
}

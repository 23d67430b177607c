/** Values and failures shared by every module of the model: the values SQLite
    hands back in a row tuple, the exceptions the Python code raises, and the
    failure-compatible wrappers that carry them. */
module Base {

  datatype Option<+T> = None | Some(value: T)

  /** The exceptions the modelled code can raise, one constructor per cause. */
  datatype Error =
    | NotNullViolated(column: string)     // sqlite3.IntegrityError: NOT NULL constraint failed
    | UniqueViolated(table: string)       // sqlite3.IntegrityError: UNIQUE constraint failed
    | NoSuchTable(table: string)          // sqlite3.OperationalError: no such table
    | InvalidTable                        // ValueError("Invalid table specified.")
    | DeletionAborted                     // PermissionError("Data deletion aborted by user.")
    | NoneNotSubscriptable                // TypeError: 'NoneType' object is not subscriptable
    | TupleIndexOutOfRange                // IndexError: tuple index out of range
    | MissingAttribute(name: string)      // AttributeError on a class attribute lookup
    | DeviceError(address: int)           // an I2C transfer to the device at this address raised

  /** A value or the exception that replaced it; usable with `:-`. */
  datatype Result<+T> = Ok(value: T) | Err(error: Error) {
    predicate IsFailure() {
      Err?
    }

    function PropagateFailure<U>(): Result<U>
      requires Err?
    {
      Err(error)
    }

    function Extract(): T
      requires Ok?
    {
      value
    }
  }

  /** The result of a call made only for its effect: it returned, or it raised. */
  datatype Outcome = Pass | Fail(error: Error)

  /** A value as SQLite hands it back in a row tuple. */
  datatype SqlValue = Null | Text(text: string) | Integer(i: int) | Real(r: real)
}

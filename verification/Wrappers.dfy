/** Results shared by all components. */
module Wrappers {

  datatype Option<+T> = None | Some(value: T)

  /** The exceptions the readers raise, by kind. */
  datatype Error =
    | InvalidDatabase   // InvalidDatabaseError
    | BadStruct         // struct.error: a fixed-width field was cut short
    | OutOfRange        // IndexError: a single byte past the end of the buffer
    | BadValue          // ValueError
    | BadText           // UnicodeDecodeError
    | BadKey            // TypeError: a list or dictionary as a map key
    | SystemFailure     // OSError
    | LockFailure       // RuntimeError: the lock could not be taken
    | NoMemory          // MemoryError

  datatype Result<+T> = Success(value: T) | Failure(error: Error)
}

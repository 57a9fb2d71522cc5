/** Result shapes shared by the modules: Python's None, and an uncaught KeyError. */
module Wrappers {

  datatype Option<+T> = None | Some(value: T)

  /** The outcome of a Python call that may end in an uncaught `KeyError`:
      it either returns a value or raises with the missing key. */
  datatype Outcome<+T> = Returns(value: T) | RaisesKeyError(key: string)
}

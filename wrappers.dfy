/** Small result types for the Python behaviours the model keeps: a value that
    may be absent, and a call that either returns or raises an exception. */
module Wrappers {

  datatype Option<+T> = None | Some(value: T)

  /** The Python exceptions the modelled code can raise. */
  datatype Exception = ValueError | IndexError

  /** The outcome of a Python call: it returns a value or raises. */
  datatype Outcome<+T> = Returned(value: T) | Raised(error: Exception)
}

/** Optional values and the outcome of an operation that may hit a fault. */
module Outcomes {

  datatype Option<T> = None | Some(value: T)

  /** The run-time errors the construction can raise: a dictionary lookup of
      an edge key that is not there (Python's KeyError) and a string index
      past the end (Python's IndexError). */
  datatype Fault = MissingEdge | IndexOutOfRange

  datatype Result<T> = Ok(value: T) | Err(fault: Fault)
}

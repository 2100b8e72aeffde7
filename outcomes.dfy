/** Error kinds raised by the percolation core, and the wrappers that carry them. */
module Outcomes {

  /** The two failures the core signals: a bad grid size, a coordinate off the grid. */
  datatype Error = InvalidArgument | IndexOutOfRange

  /** The result of a query that may fail. */
  datatype Result<+T> = Ok(value: T) | Err(error: Error)

  /** An optional value, such as a neighbour that may lie off the grid. */
  datatype Option<+T> = None | Some(value: T)

  /** The result of a command that may fail and returns nothing otherwise. */
  datatype Outcome = Pass | Fail(error: Error)
}

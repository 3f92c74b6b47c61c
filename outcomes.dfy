/** Failure-carrying results shared by the record model and the employee table. */
module Outcomes {

  /** The two kinds of failure the roster tool raises: `ParseError` when a birth date
      does not parse, `StorageError` when the store rejects a statement (for instance
      because the `employees` table does not exist yet). */
  datatype Error = ParseError | StorageError

  datatype Option<+T> = None | Some(value: T)

  /** A value or the error that prevented it. */
  datatype Result<+T> = Ok(value: T) | Err(error: Error)

  /** The outcome of an operation that returns nothing on success. */
  datatype Outcome = Pass | Fail(error: Error)
}

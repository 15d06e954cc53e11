/** Failure-compatible wrappers and the error taxonomy of the well-log toolkit. */
module Common {

  /** Optional value; for log samples `None` stands for NaN. */
  datatype Option<+T> = None | Some(value: T)

  /** The exception kinds the toolkit raises, and the IndexError numpy raises
      when a boolean mask does not fit its array. Messages are advisory and not
      modelled; `ValueError` carries the names it reports (the missing columns
      of a tops table). */
  datatype Error =
    | PropertyNotFoundError
    | PropertyTypeError
    | DepthAlignmentError
    | WellError
    | WellNameMismatchError
    | ValueError(names: seq<string>)
    | KeyError
    | IndexError

  /** Either a value or the error the operation raised. */
  datatype Result<+T> = Ok(value: T) | Err(error: Error)
}

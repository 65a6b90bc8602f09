/** Failure values shared by the seam carver: the Java class reports every
    rejected call with an IllegalArgumentException, modelled here as an
    `Err` carrying the reason. */
module Errors {

  /** Why a call was rejected. */
  datatype Error =
    | NullPicture               // the constructor was given no picture
    | ColumnOutOfRange(col: int) // a column index outside [0, width)
    | RowOutOfRange(row: int)    // a row index outside [0, height)
    | InvalidSeam               // wrong seam length, or the dimension is already 1

  /** An optional value; `None` stands for a Java null reference. */
  datatype Option<+T> = None | Some(value: T)

  /** The value of a call that either returns or throws. */
  datatype Result<+T> = Ok(value: T) | Err(error: Error)

  /** The outcome of a check that returns nothing when it passes. */
  datatype Outcome = Pass | Fail(error: Error)
}

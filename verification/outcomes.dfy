/** Failure values of the matrix library.

    Every `throw` of the library becomes an `Err` of the matching kind; the
    comments give the message each one carries. */
module Outcomes {

  /** A JavaScript value that may be `undefined`/`null` (absent). */
  datatype Option<+T> = None | Some(value: T)

  /** The ways a matrix operation can fail. */
  datatype MatrixError =
    | NotSquare        // 'not square'
    | SizeNotMatch     // 'size not match'
    | Small            // 'small'
    | NotImplemented   // 'not implemented'
    | NotAFunction     // TypeError: the called method does not exist

  /** The outcome of an operation that can throw. */
  datatype Result<+T> = Ok(value: T) | Err(error: MatrixError)
}

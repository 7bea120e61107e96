/** Results and errors shared by every module: the exceptions the source throws become `Err` values. */
module Wrappers {

  datatype Option<+T> = None | Some(value: T)

  /** The kinds of exception the engine raises. */
  datatype Error =
    | RangeError                      // get/set outside [0,cols) x [0,rows)
    | DimensionMismatch               // multiply, add, dot, AugmentedMatrix with incompatible shapes
    | NotSquare                       // inverse/det of a non-square matrix
    | SingularMatrix                  // "Can't compute inverse of singular matrix"
    | UnsupportedCommand(name: string)
    | MissingArgument(name: string)   // a generator called with too few numbers
    | PercentOutOfRange               // lighten/makeBlue with percent outside [0,1]
    | InvalidImageSize                // ImageData with a zero or negative dimension

  datatype Result<+T> = Ok(value: T) | Err(error: Error)

  datatype Outcome = Pass | Fail(error: Error)
}

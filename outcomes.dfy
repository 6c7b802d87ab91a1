/**
 * Failure-compatible wrappers shared by the slicer model, and the errors the
 * slicer raises. Each error stands for one Python exception site.
 */
module Outcomes {

  datatype Option<+T> = None | Some(value: T)

  /** The ways a slicer operation can fail. */
  datatype Error =
    | InvalidLiteral(text: string)          // int() raising ValueError
    | ColumnOutOfRange(col: int, numCols: int) // `assert x_coord < num_cols`
    | BoxColumnsNotIncreasing               // first assertion of box_select
    | BoxRowsNotIncreasing                  // second assertion of box_select
    | DivisionByZero                        // `//`, `%` or `/` by zero
    | EmptyInput                            // `assert images`

  datatype Result<+T> = Success(value: T) | Failure(error: Error) {

    predicate IsFailure() {
      Failure?
    }

    function PropagateFailure<U>(): Result<U>
      requires Failure?
    {
      Failure(error)
    }

    function Extract(): T
      requires Success?
    {
      value
    }
  }
}

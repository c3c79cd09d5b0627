/** Values that may be missing, and computations that may raise. */
module Outcomes {

  /** A value that a library call produced, or `None` when the call raised. */
  datatype Option<+T> = None | Some(value: T)

  /** The exceptions that escape the graph feature engine. */
  datatype Failure =
    | NullGraph         // connectivity asked of a graph with no nodes
    | StatisticRaised   // a graph-library statistic raised
    | DivisionByZero    // a Python division by zero

  /** The result of a computation that may raise one of the failures above. */
  datatype Result<+T> = Ok(value: T) | Err(error: Failure)

  /** How a procedure that updates state in place ended: normally, or by raising. */
  datatype Status = Completed | Aborted(error: Failure)
}

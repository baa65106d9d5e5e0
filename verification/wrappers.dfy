/** Option and Result for the operations of the integrator that can fail, and the
    failures the Python code raises. */
module Wrappers {

  datatype Option<+T> = None | Some(value: T)

  datatype Result<+R> = Success(value: R) | Failure(error: Error)

  /** The exceptions raised by the modelled code. */
  datatype Error =
    | NotCompiled        // RuntimeError: "Compile must be ran before running any iterations"
    | ZeroDivision       // ZeroDivisionError from a Python division or modulo by zero
    | IndexOutOfRange    // IndexError from indexing an empty or too short list
    | NonFiniteWeight    // an iteration error of zero: 1/sigma^2 is not a finite number
    | InvalidBudget      // a step budget below one event for a positive iteration
}

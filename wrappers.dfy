/** Failure-carrying results for the operations whose Python counterparts raise. */
module Wrappers {

  /** The exceptions the modelled Python code can raise, one constructor per cause. */
  datatype Error =
    | UnknownNode(node: int)          // networkx: a node id that is not in the graph
    | IndexOutOfRange(index: int)     // numpy / list indexing beyond the bounds
    | ValueError                      // int() on a malformed string, randint on an empty range
    | BlankLine(lineNumber: nat)      // strippedLine[0] on an empty line

  datatype Option<+T> = None | Some(value: T)

  datatype Result<+T> = Ok(value: T) | Err(error: Error) {
    predicate IsFailure() { Err? }

    function PropagateFailure<U>(): Result<U>
      requires Err?
    {
      Err(error)
    }

    function Extract(): T
      requires Ok?
    {
      value
    }
  }
}

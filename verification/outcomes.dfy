/** Outcomes of the operations that the graph library reports by throwing. */
module Outcomes {

  /** One constructor per cause of an exception in the modelled code. */
  datatype Failure =
    | InvalidArgument        // ArgumentException: Edge.OtherNode, a bad Random.Next or Enumerable.Range range
    | TooManyEdges           // ArgumentException("too many edges") from the generator
    | TooManyEdgesAboveNode  // ArgumentException("too many egdes above node") from the generator
    | Overflow               // OverflowException: a checked Int32 sum, or a negative array size
    | IndexOutOfRange        // IndexOutOfRangeException from an array access
    | Exhausted              // the supplied random draws ran out before enough edges were accepted

  /** The value an operation returns, or the exception it throws. */
  datatype Result<+T> = Ok(value: T) | Err(error: Failure)
}

/**
 Option and Result values, standing in for the empty tuple `()` that
 find_fittest returns when it finds nothing, and for the exceptions the
 program raises on empty input.
 */
module Wrappers {

  datatype Option<+T> = None | Some(value: T)

  /** The two exceptions the core can raise. */
  datatype Error =
    | EmptyRange   // random.randint(0, -1): no index can be drawn from an empty string
    | NoMedian     // statistics.median_low([]): no data point to take the median of

  datatype Result<+T> = Success(value: T) | Failure(error: Error)
}

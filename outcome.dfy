/** Failure-compatible results for the two places where the analysis script raises
    instead of returning a value. */
module Outcome {

  /** Why a step produced no value. */
  datatype Failure =
    | NoCirclesDetected  // the detection step raises: no circle array to index, or `min` of an empty list
    | NoPartitions       // `Npos / (Npos + Nneg)` with no fitted intensities at all

  datatype Result<T> = Ok(value: T) | Err(failure: Failure)
}

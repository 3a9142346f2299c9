/**
 The Option and Result datatypes used across the model, and the ways a run of
 the contour selector can end abnormally.
 */
module Results {

  /** A value that may be missing: the operator's parsed index, a lookup result. */
  datatype Option<T> = None | Some(value: T)

  /** Either a value or the reason it could not be produced. */
  datatype Result<R, E> = Success(value: R) | Failure(error: E)

  /** The two faults raised by the interactive routine itself; both reach the
      top-level handler of the program. */
  datatype Fault =
    | NoLargeContours        // no contour reached the minimum point count
    | SplineRejected         // the curve fitter refused the normalized points
}

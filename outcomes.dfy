/** Nullable values, outcomes that carry an error, and the error kinds the services raise as exceptions. */
module Outcomes {

  /** A nullable reference or an optional argument (`T?` in the source). */
  datatype Option<+T> = None | Some(value: T) {
    /** `x ?? default` */
    function GetOr(default: T): T {
      match this
      case Some(v) => v
      case None => default
    }
  }

  /** The exceptions thrown by the domain services, one constructor per exception type. */
  datatype Error =
    | InvalidRentDates      // InvalidRentDatesException
    | CarNotAvailable       // CarNotAvailableException
    | RentalNotFound        // RentalNotFoundException
    | RentalCancellation    // RentalCancellationException
    | NoElements            // InvalidOperationException from First() on an empty sequence

  /** Either the value an operation returns or the exception it throws. */
  datatype Result<+T> = Success(value: T) | Failure(error: Error)
}

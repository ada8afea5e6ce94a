/** Failure-carrying datatypes used in place of the NaN sentinel and of the
    exceptions raised by the dominant-wavelength computations. */
module Wrappers {

  /** An optional value: `None` stands where the library marks a missing
      intersection with NaN coordinates. */
  datatype Option<+T> = None | Some(value: T)

  /** Either a computed value or the reason it could not be computed. */
  datatype Result<+R, +E> = Success(value: R) | Failure(error: E)
}

/** The optional and error-carrying results of the closest-pair model.
    `Option` stands for the source's `Option` values and for its
    "no pair seen yet" infinity sentinels; `Result` stands for a computation
    that the source aborts with a panic. */
module Outcomes {

  datatype Option<+T> = None | Some(value: T)

  datatype Result<+T, +E> = Success(value: T) | Failure(error: E)
}

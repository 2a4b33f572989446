/** Failure-carrying values shared by every module of the model. */
module Results {

  /** `None` stands for a value Python represents as NaN or as "absent". */
  datatype Option<+T> = None | Some(value: T)

  /** Outcome of a call that may raise: `Failure` carries the raised error. */
  datatype Result<+R, +E> = Success(value: R) | Failure(error: E)
}

/** Outcomes of the analysis operations: a value, or the reason there is none. */
module Results {

  /** A value that may be undefined; `None` stands for the NaN numpy yields. */
  datatype Option<+T> = None | Some(value: T)

  /** Why a statistic could not be computed. */
  datatype Error = EmptyInput

  datatype Result<+T> = Success(value: T) | Failure(error: Error)
}

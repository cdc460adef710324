/** Failure-carrying wrappers used across the model. */
module Results {

  /** An optional value: `None` stands for a table `get_budget_fp` did not open, or for a
      column that `get_budget`'s bounds assertion rejects. */
  datatype Option<+T> = None | Some(value: T)

  /** Either the value an operation computed or the error that stopped it. */
  datatype Result<+R, +E> = Success(value: R) | Failure(error: E)
}

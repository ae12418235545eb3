/** Failure-carrying wrappers shared by every module: `None` stands for Java's
    `null`, `Failure` for an exception that aborts the operation. */
module Common {
  datatype Option<T> = None | Some(value: T)

  datatype Result<T, E> = Success(value: T) | Failure(error: E)
}

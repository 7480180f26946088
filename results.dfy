/** Failure-carrying results shared by the repositories. */
module Results {

  /** A value that may be absent: the `None` an ORM `.first()` returns when nothing matches. */
  datatype Option<+T> = None | Some(value: T)

  /** The outcome of an operation that can raise. */
  datatype Result<+R, +E> = Success(value: R) | Failure(error: E)

  /** What the database raises when a write breaks a UNIQUE column constraint. */
  datatype StoreError = UniqueViolation
}

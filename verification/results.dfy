/** Failure-carrying result types used across the model: the places where the
    Java program would throw become a `Failure` or a `None`. */
module Results {

  datatype Option<+T> = None | Some(value: T)

  datatype Result<+R, +E> = Success(value: R) | Failure(error: E)
}

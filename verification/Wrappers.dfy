/** Result types shared by the whole model: an optional value, and a value or a thrown error. */
module Wrappers {
  datatype Option<+T> = None | Some(value: T)

  /** `Failure` stands for an exception; what was thrown is not distinguished. */
  datatype Result<+T> = Success(value: T) | Failure
}

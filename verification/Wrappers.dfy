/** Results and optional values shared by every module. */
module Wrappers {

  datatype Option<+T> = None | Some(value: T)

  // The sentinel errors of pkg/error that these operations can produce, and the two constraint
  // violations the vehicle INSERT could raise.
  datatype Error = NotFound | Conflict | Validation | ForeignKey | DuplicateKey

  datatype Result<+T> = Ok(value: T) | Err(error: Error)
}

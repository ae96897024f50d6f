/** Failure-carrying values shared by the decoder modules. */
module Wrappers {

  /** A value that may be absent; `None` stands for a lookup that has no entry. */
  datatype Option<+T> = None | Some(value: T)

  /** Either a decoded value or the reason decoding stopped. */
  datatype Result<+T, +E> = Ok(value: T) | Err(error: E)
}

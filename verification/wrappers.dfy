/** The optional and fallible results used by the decoder and the loader. */
module Wrappers {

  /** An optional value: what Go expresses with a value and an `error`. */
  datatype Option<+T> = None | Some(value: T)

  /** Either a value or an error describing why there is none. */
  datatype Result<+T, +E> = Ok(value: T) | Err(error: E)
}

/** The two sum types of Rust's `core` library that the modelled code relies on. */
module Core {

  /** `core::option::Option`. */
  datatype Option<+T> = None | Some(value: T)

  /** `core::result::Result`. */
  datatype Result<+T, +E> = Ok(value: T) | Err(error: E)
}

/** The two sum types of Rust's core library that the modelled API returns. */
module RustCore {

  /** `core::option::Option`: what an iterator's `next` returns. */
  datatype Option<T> = None | Some(value: T)

  /** `core::result::Result`: the outcome of a checked construction. */
  datatype Result<T, E> = Ok(value: T) | Err(error: E)
}

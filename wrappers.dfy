/** Optional values and success-or-error results, as the router and the
    store hand them back: `Option` stands for a nullable column or an
    omitted argument, `Result` for a procedure that either returns a value
    or throws an error code. */
module Wrappers {

  datatype Option<+T> = None | Some(value: T)

  datatype Result<+R, +E> = Ok(value: R) | Err(error: E)
}

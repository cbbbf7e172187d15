/** Optional and success/failure values, the Dafny counterparts of Rust's
    `Option<T>` and `Result<T, E>`. */
module Results {

  datatype Option<T> = None | Some(value: T) {

    /** `unwrap_or_else` whose closure yields a fixed value. */
    function UnwrapOr(fallback: T): T {
      if Some? then value else fallback
    }
  }

  datatype Result<+T, +E> = Ok(value: T) | Err(error: E)
}

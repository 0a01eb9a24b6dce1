/** Optional values and results, used for Python values that may be `None`
    and for checks that either accept an input or name the reason they refuse it. */
module Options {

  datatype Option<T> = None | Some(value: T)

  datatype Result<T, E> = Ok(value: T) | Err(error: E)
}

/** Optional values and the outcome of a dictionary lookup. */
module Results {

  datatype Option<T> = None | Some(value: T)

  /** A lookup either finds its value or fails the way a Python `dict[key]`
      does, with a `KeyError` naming the missing key. */
  datatype Result<T> = Ok(value: T) | KeyError(key: string)
}

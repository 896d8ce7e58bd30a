/** Optional values and fallible results, shared by every other module. */
module Results {

  datatype Option<+T> = None | Some(value: T)
  {
    /** This value when present, `other` otherwise (`Option::or`). */
    function Or(other: Option<T>): Option<T>
    {
      if Some? then this else other
    }
  }

  datatype Result<+T, +E> = Ok(value: T) | Err(error: E)
  {
    /** Drops the error, as Rust's `Result::ok` does. */
    function ToOption(): Option<T>
    {
      if Ok? then Some(value) else None
    }
  }
}

/** Optional values, and the outcome of reading a value from the front of a stream. */
module Results {
  import opened Bits

  datatype Option<+T> = None | Some(value: T)

  datatype Result<+T> = Ok(value: T, rest: seq<byte>) | Failure
}

/** Optional values and the success/internal-error outcome of a render. */
module Results {

  datatype Option<+T> = None | Some(value: T)

  /** Outcome of the operational-data callback: a value, or SR_ERR_INTERNAL. */
  datatype Result<+T> = Ok(value: T) | InternalError
}

/** Outcomes of operations that reject their input. */
module Results {
  /** The rejections the modelled code raises. */
  datatype Error = InvalidKey | InvalidTtl | InvalidTag

  datatype Option<+T> = None | Some(value: T)

  datatype Result<+T> = Ok(value: T) | Err(error: Error)
}

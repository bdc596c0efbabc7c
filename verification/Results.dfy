/** Outcomes of operations that can fail, and of searches that can come up empty. */
module Results {
  datatype Result<T> = Ok(value: T) | Err(error: string)
  datatype Option<T> = None | Some(value: T)
}

/** Success-or-failure values shared by the other modules. */
module Results {

  datatype Option<+T> = None | Some(value: T)

  /** The source's `anyhow::Result`.  Error texts are not modelled. */
  datatype Result<+T> = Ok(value: T) | Err
}

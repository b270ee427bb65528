/** Outcome types shared by the modules of the model: a failure of the
    program is a value, not a process abort. */
module Results {

  datatype Option<+T> = None | Some(value: T)

  datatype Result<+T, +E> = Ok(value: T) | Err(error: E)
}

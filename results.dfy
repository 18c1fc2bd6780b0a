/** Outcome types shared by the statement-reconstruction modules. */
module Results {

  datatype Option<T> = None | Some(value: T)

  /** The outcome of a step that may raise a driver exception; `code` is the
      exception's error code (a SQLSTATE string such as "HY000"). */
  datatype Result<T> = Ok(value: T) | Err(code: string)
}

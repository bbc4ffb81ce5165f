/** Small value wrappers shared by the other modules. */
module Common {

  /** A value that may be absent: a nullable column, a failed lookup. */
  datatype Option<T> = None | Some(value: T)

  /** The one error the command interpreter can raise: a new-reminder message
      that does not split into exactly three fields. */
  datatype Error = MalformedCommand

  datatype Result<T> = Ok(value: T) | Err(error: Error)
}

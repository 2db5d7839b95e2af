/** The `anyhow::Result` values the core returns: a value, or an error carrying its message. */
module Outcomes {

  datatype Result<T> = Ok(value: T) | Err(message: string)

}

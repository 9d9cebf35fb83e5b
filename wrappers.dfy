/** The outcome of an operation that the source aborts with a panic on bad arguments. */
module Wrappers {

  /** `Err` carries the panic message the source would raise. */
  datatype Result<T> = Ok(value: T) | Err(message: string)
}

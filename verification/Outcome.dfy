/** What an operation that may fail gives back: the source's std::optional and its exceptions. */
module Outcome {
  datatype Option<+T> = None | Some(value: T)

  datatype Result<+T> = Ok(value: T) | Error(reason: string)
}

/** Result types shared by the model. */
module Wrappers {

  datatype Option<+T> = None | Some(value: T)

  /** What a piece of the engine hands back: a value, or the end of the process because
      one of the engine's own assertions fired. */
  datatype Outcome<+T> = Ok(value: T) | Aborted
}

/** Results, options and outcomes shared by all models. */
module Wrappers {

  datatype Option<+T> = None | Some(value: T)

  datatype Result<+T, +E> = Ok(value: T) | Err(error: E)

  /** What a call comes to when overflow and slice checks are on: it returns, or
      a failed check stops the kernel. */
  datatype Outcome<+T> = Returned(value: T) | Panicked
}

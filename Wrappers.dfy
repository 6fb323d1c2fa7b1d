/** Option and the outcome of a call that may throw. */
module Wrappers {

  datatype Option<+T> = None | Some(value: T)

  /** What a call into a collaborator produced: the value it returned, or the
      message of the exception it raised instead. */
  datatype Try<+T> = Returned(value: T) | Threw(message: string)
}

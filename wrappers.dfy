/** Small result types shared by the whole model. */
module Wrappers {

  /** Python's `None` or a value. */
  datatype Option<+T> = None | Some(value: T)

  /** The outcome of a call into a library that is not modelled: it either
      returns a value or raises an exception, of which only `str(e)` is kept. */
  datatype Attempt<+T> = Done(value: T) | Raised(message: string)
}

/** The result of a lookup, a decoder or a call that may fail; errors carry no text. */
module Wrappers {

  datatype Option<+T> = None | Some(value: T)
}

/** How a call that can panic ends. */
module Outcomes {

  /** A value, an error return, or a run-time panic. */
  datatype Outcome<T> = Done(value: T) | Failed | Panicked
}

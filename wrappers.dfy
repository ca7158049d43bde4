/** Small wrapper datatypes shared by the model. */
module Wrappers {

  /** Swift's `Optional`: `nil` or a wrapped value. */
  datatype Option<+T> = None | Some(value: T)

  /** The outcome of Swift code that may stop the process: a runtime trap
      (an out-of-range subscript, an invalid range, a call to `fatalError`)
      or a value. */
  datatype Trapping<+T> = Value(value: T) | Trap(reason: string)
}

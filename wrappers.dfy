/** Small value types shared by the rest of the model. */
module Wrappers {

  datatype Option<+T> = None | Some(value: T)

  /** A thrown .NET exception, reduced to the one part the model observes: its message. */
  datatype Exception = Exception(Message: string)
}

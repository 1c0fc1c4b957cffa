/** Small value wrappers shared by the download component model. */
module Wrappers {

  /** A value that may be absent. Used for C# references that may be null
      and for a completion source that has not been resolved yet. */
  datatype Option<+T> = None | Some(value: T)

  /** What a call into the download manager did: it either returned a value
      or raised an exception that propagates to the component's caller. */
  datatype Reply<+T> = Returned(value: T) | Raised
}

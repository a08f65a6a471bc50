/** The return codes of `EebusError` that the modelled operations use, and values that may be missing. */
module Errors {
  datatype EebusError =
    | Ok
    | NoChange
    | InputArgument
    | MemoryAllocate
    | InputArgumentOutOfRange
    | Time
    | Parse
    | Undefined  // not a code of the source: C leaves the behaviour undefined from here on

  datatype Option<T> = None | Some(value: T)

  datatype Result<T> = Done(value: T) | Failed(err: EebusError)
}

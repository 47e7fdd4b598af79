/** The optional value used for the editing slot and for a server reply that may be missing. */
module Wrappers {

  /** `None` stands for "nothing there": an empty editing slot, or a request that failed. */
  datatype Option<+T> = None | Some(value: T)
}

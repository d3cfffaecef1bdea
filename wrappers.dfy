/** The optional value the aligner keeps for "no paragraph chosen yet" (Python's `None`). */
module Wrappers {

  datatype Option<+T> = None | Some(value: T)
}

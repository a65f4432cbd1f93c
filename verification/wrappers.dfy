/** Small failure-compatible datatype shared by the other modules. */
module Wrappers {

  /** `None` stands for a missing key or an absent value. */
  datatype Option<+T> = None | Some(value: T)
}

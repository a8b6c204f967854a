/** The optional-result datatype shared by the statistics modules. */
module Wrappers {

  /** `None` is the explicit "no result" of an operation; `Some` carries its value. */
  datatype Option<+T> = None | Some(value: T)
}

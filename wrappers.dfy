/** Small failure-compatible wrapper shared by the modules of this model. */
module Wrappers {

  /** A value that may be absent; stands for Python's `None` in `(url, parent_id)` queue items. */
  datatype Option<+T> = None | Some(value: T)
}

/** Small failure-compatible helper types shared by the other modules. */
module Wrappers {

  /** An optional value: the page cache holds `None` for a slot that was never loaded. */
  datatype Option<+T> = None | Some(value: T)
}

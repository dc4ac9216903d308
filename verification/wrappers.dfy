/** Small failure-compatible helper shared by the modules of this project. */
module Wrappers {

  /** A value that may be absent; `None` also stands for a Python call that raised. */
  datatype Option<+T> = None | Some(value: T)
}

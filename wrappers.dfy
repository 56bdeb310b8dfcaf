/** The present/absent result used wherever the script returns `None`. */
module Wrappers {
  datatype Option<+T> = None | Some(value: T)
}

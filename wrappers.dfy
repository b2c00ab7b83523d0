/** Small failure-compatible wrapper used where the C code returns NULL or a default value. */
module Wrappers {

  datatype Option<+T> = None | Some(value: T)
}

/** Optional values, used for results that the Python code represents as a raised exception or as `None`. */
module Wrappers {

  datatype Option<+T> = None | Some(value: T)
}

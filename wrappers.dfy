/** Optional values: the model's stand-in for Python functions that return `None`. */
module Wrappers {

  datatype Option<+T> = None | Some(value: T)

}

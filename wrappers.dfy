/** Optional values: `None` stands for a Python function that falls off its end. */
module Wrappers {

  datatype Option<+T> = None | Some(value: T)
}

/** Optional values, used wherever the C++ code signals failure with a `false` return
    or an empty image. */
module Wrappers {

  datatype Option<+T> = None | Some(value: T)

}

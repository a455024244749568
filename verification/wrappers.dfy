/** Optional results. `None` marks an outcome the C++ source leaves undefined
    (an out-of-range float-to-integer cast, a shift by the full register
    width), so that no contract claims anything about it. */
module Wrappers {

  datatype Option<T> = None | Some(value: T)
}

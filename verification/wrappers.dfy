/** Optional values. `None` stands for a result the program cannot produce
    as a number (JavaScript's NaN). */
module Wrappers {

  datatype Option<+T> = None | Some(value: T)
}

/** The usual optional value, used for the results of coercions that can fail
    (a JavaScript NaN, an unparseable date). */
module Wrappers {
  datatype Option<+T> = None | Some(value: T)
}

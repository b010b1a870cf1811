/** The optional value used for JavaScript's `undefined`, `null` and the
    NaN that an unparseable date produces. */
module Wrappers {

  datatype Option<+T> = None | Some(value: T)
}

/** The optional value used for a result that may be missing: NaN from
    parseInt, or a display text that does not read back. */
module Wrappers {
  datatype Option<T> = None | Some(value: T)
}

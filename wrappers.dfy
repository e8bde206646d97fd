/** The Some/None datatype used wherever the source produces `undefined`, `NaN`
    or no message at all. */
module Wrappers {

  datatype Option<+T> = None | Some(value: T)
}

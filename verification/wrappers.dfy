/** The optional value used wherever the extension works with `T | null`,
    `T | undefined` or an optional parameter. */
module Wrappers {

  datatype Option<+T> = None | Some(value: T)
}

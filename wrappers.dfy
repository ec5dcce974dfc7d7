/** The optional value used wherever the page or a service has a value that may be absent
    (a missing JSON field, `null`, Python's `None`). */
module Wrappers {

  datatype Option<+T> = None | Some(value: T)
}

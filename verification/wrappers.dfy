/** The optional result used wherever the source returns `None`, prints a
    message and gives up, or raises an assertion the caller cannot rule out. */
module Wrappers {

  datatype Option<+T> = None | Some(value: T)
}

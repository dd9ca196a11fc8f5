/** The optional value used for the source's `None` results and for JSON
    members that are absent or null. */
module Wrappers {

  datatype Option<+T> = None | Some(value: T)
}

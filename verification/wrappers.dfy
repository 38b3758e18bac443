/** A value that may be absent: an HTML attribute that is not set, a page
    that could not be rendered, a message that is not sent. */
module Wrappers {
  datatype Option<+T> = None | Some(value: T)
}

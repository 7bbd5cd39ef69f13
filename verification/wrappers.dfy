/** The plain optional value used across the model. */
module Wrappers {

  /** An optional value: an XML element's `text` is `None` when the element
      has no text before its first child, and a report is `None` when none is
      produced. */
  datatype Option<+T> = None | Some(value: T)
}

/**
 * Optional values.  A `name`, `message` or `emoji` field that is absent
 * (`undefined`) or `null` is `None`: the handlers treat the two alike, since
 * both are falsy and neither is an allowed emoji.  An unset environment
 * variable is `None` too.
 */
module Wrappers {

  datatype Option<+T> = None | Some(value: T)
}

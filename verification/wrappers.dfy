/** Python's `None`-or-value, as the mailer's helpers return it. */
module Wrappers {

  datatype Option<+T> = None | Some(value: T)
}

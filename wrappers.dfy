/** The optional value used for Ruby's `nil`-or-value inputs. */
module Wrappers {
  datatype Option<+T> = None | Some(value: T)
}

/** An optional value: an unset environment variable or an absent JSON field. */
module Wrappers {

  datatype Option<+T> = None | Some(value: T)
}

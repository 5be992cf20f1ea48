/** An optional value: a lookup that may miss. */
module Opt {

  datatype Option<+T> = None | Some(value: T)
}

/** The conventional optional value, used for "no range", "no sibling" and "nothing shown". */
module Wrappers {

  datatype Option<+T> = None | Some(value: T)
}

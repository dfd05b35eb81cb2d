/** The optional value used for PHP's nullable values (`null` is `None`). */
module Wrappers {

  datatype Option<+T> = None | Some(value: T)
}

/** The usual optional-value datatype; `None` stands for PHP's null or a missing array key. */
module Wrappers {
  datatype Option<+T> = None | Some(value: T)
}

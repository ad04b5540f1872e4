/** The absent-or-present value of one extracted cell: `None` stands for pandas' NaN. */
module Wrappers {

  datatype Option<+T> = None | Some(value: T)
}

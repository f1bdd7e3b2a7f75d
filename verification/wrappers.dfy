/** The optional-value datatype used for JavaScript's `undefined`, `null` and `false` sentinels. */
module Wrappers {

  /** `None` stands for an absent value; `Some(v)` carries one. */
  datatype Option<+T> = None | Some(value: T)
}

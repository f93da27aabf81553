/** The optional-value datatype used for JavaScript's nullable fields and for
    steps that may fail (a URL that does not parse, a link that is not found). */
module Wrappers {

  /** `None` stands for JavaScript's `null`/`undefined`; `Some(v)` for a present value. */
  datatype Option<+T> = None | Some(value: T)
}

/** An optional value: `None` stands for JavaScript's `undefined` (an absent field or
    an index past the end of an array). */
module Wrappers {

  datatype Option<+T> = None | Some(value: T)
}

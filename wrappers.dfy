/** The optional value the model uses for JavaScript's `undefined` results
    (a `find` that matches nothing, a contract read that has not returned). */
module Wrappers {

  datatype Option<+T> = None | Some(value: T)
}

/** The optional value shared by the models: `None` stands for Python's `None`
    (an empty cell, a missing move, "no solution") or for a raised exception. */
module Wrappers {

  datatype Option<+T> = None | Some(value: T)
}

/** The optional value used wherever the Python code returns a value or a sentinel (`None`,
    `float('inf')`). */
module Wrappers {

  datatype Option<+T> = None | Some(value: T)
}

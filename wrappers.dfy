/** The optional value used for the planner's parent and action maps
    (Python's `None`) and for a search that ran out of fuel. */
module Wrappers {
  datatype Option<+T> = None | Some(value: T)
}

/** The optional-value datatype: stands for a pointer that may be null
    (an absent `unique_ptr`) or for "not found". */
module Wrappers {

  datatype Option<+T> = None | Some(value: T)
}

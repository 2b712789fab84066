/** Small failure-carrying datatypes shared by the assembler modules. */
module Wrappers {

  /** A value that may be absent, as a dictionary lookup that can miss. */
  datatype Option<+T> = None | Some(value: T)
}

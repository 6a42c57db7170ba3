/** The Option datatype: a value that may be missing, used for the results of
    Python's int() (None where int() raises) and for a file that may not exist. */
module Wrappers {

  datatype Option<+T> = None | Some(value: T)

}

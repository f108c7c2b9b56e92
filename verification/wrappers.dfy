/** The optional value used wherever the program may produce nothing
    (a line without a colon) or may fail (a number that does not parse). */
module Wrappers {

  datatype Option<+T> = None | Some(value: T)
}

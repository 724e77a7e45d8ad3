/** The optional value used wherever the program returns a possibly-null pointer
    or a sentinel meaning "nothing here". */
module Wrappers {

  datatype Option<+T> = None | Some(value: T)

}

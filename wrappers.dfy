/** The optional value used wherever the program may or may not have a value:
    file metadata that could not be read, a path that is not under a root. */
module Wrappers {

  datatype Option<+T> = None | Some(value: T)

}

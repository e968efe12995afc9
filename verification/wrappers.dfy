/** The optional value the scripts express with `None` (an `Optional[str]` return,
    an argument that was not given on the command line). */
module Wrappers {

  datatype Option<+T> = None | Some(value: T)
}

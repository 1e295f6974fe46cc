/** Option: the model's stand-in for a Java reference that may be null,
    and for the Optional a repository lookup returns. */
module Wrappers {

  datatype Option<+T> = None | Some(value: T)
}

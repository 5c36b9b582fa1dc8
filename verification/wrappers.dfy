/** An Option type, used where the source either
    throws (std::map::at) or has nothing to report. */
module Wrappers {

  datatype Option<+T> = None | Some(value: T)
}

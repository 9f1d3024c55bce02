/** A Java reference that may be null. */
module Nullable {

  datatype Option<+T> = None | Some(value: T)
}

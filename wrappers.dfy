/** The optional value used where the source has `None`, an empty search
    result or a missing event. */
module Wrappers {

  datatype Option<T> = None | Some(value: T)
}

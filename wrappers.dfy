/** Option type shared by the mergecap modules. */
module Wrappers {

  /** A value that may be absent: a NULL pointer, a missing option, a search that found nothing. */
  datatype Option<+T> = None | Some(value: T)
}

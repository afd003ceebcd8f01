/** The optional value Python expresses with `None`: a missing header, an
    unset environment variable, a bearer token that could not be extracted. */
module Wrappers {
  datatype Option<+T> = None | Some(value: T)
}

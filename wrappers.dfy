/** The optional value returned by the host's recognisers and by the
    pattern matchers of this model. */
module Wrappers {
  datatype Option<+T> = None | Some(value: T)
}

/** The optional value used for absent request fields, absent cookies and
    the verifier's null result. */
module Wrappers {

  datatype Option<+T> = None | Some(value: T)

}

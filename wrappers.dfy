/** The optional value used for a job's handler and for the error `Run` returns. */
module Wrappers {

  datatype Option<+T> = None | Some(value: T)
}

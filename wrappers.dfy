/** The optional value used for every parser or evaluator that may fail. */
module Wrappers {

  datatype Option<+T> = None | Some(value: T)
}

/** Failure-carrying return values shared by the modules of this model. */
module Wrappers {

  datatype Option<+T> = None | Some(value: T)

  /** The Python exceptions the modelled code can raise, by kind. */
  datatype Error =
    | IndexError        // an index past the end of a list
    | ValueError        // e.g. unpacking an empty n-gram, too many targets
    | ZeroDivisionError // a probability whose history count is zero
    | PatternError      // an invalid regular expression

  datatype Result<+T> = Ok(value: T) | Err(error: Error)
}

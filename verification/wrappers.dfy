/** The optional value used for the sample-count limit and for outcomes that
    end the script with an exception. */
module Wrappers {

  datatype Option<+T> = None | Some(value: T)
}

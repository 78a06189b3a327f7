/** A value that may be missing: the model's stand-in for a C variable that is
    left unset, or a division whose divisor is zero. */
module Wrappers {

  datatype Option<+T> = None | Some(value: T)

}

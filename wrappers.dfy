/** Option and Result values used where the source returns null, undefined or throws. */
module Wrappers {

  datatype Option<+T> = None | Some(value: T)

  /** The ways a call of the source can end abruptly instead of returning. */
  datatype Error =
    | NoGroupTwo      // java.util.regex: a replacement refers to "$2" in a pattern with one group
    | NullIndex       // JavaScript: `match(...)[0]` read on a null match

  datatype Result<+T> = Ok(value: T) | Err(error: Error)
}

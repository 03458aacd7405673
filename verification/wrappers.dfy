/** Option and Result, the two shapes the bot's helpers return: `None` for "nothing
    found" and a failure value for an exception the helper lets escape. */
module Wrappers {

  datatype Option<+T> = None | Some(value: T)

  datatype Result<+R, +E> = Success(value: R) | Failure(error: E)
}

/** Option and Result, and the exceptions the grab pipeline can end in. */
module Outcomes {

  datatype Option<+T> = None | Some(value: T)

  datatype Result<+T, +E> = Success(value: T) | Failure(error: E)

  /** The exceptions that escape from a grab. */
  datatype Fault =
    // ExtractText's ArgumentOutOfRangeException; None stands for the null
    // that FirstOrDefault gives on an empty language list
    | LanguageNotInstalled(code: Option<string>)
    // the ArgumentException of `new Bitmap(width, height)` for a non-positive size
    | InvalidBitmapSize(width: int, height: int)
}

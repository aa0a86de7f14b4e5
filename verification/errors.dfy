/** Failure outcomes of the mosaic pipeline.  Each Python exception the
    pipeline can raise on its own inputs becomes one `Error` constructor, and
    every operation that can raise returns a `Result`. */
module Errors {

  datatype Option<+T> = None | Some(value: T)

  datatype Error =
    /** the constructor's intended `ValueError` for a colour mode other than RGB or L */
    | InvalidMode(mode: string)
    /** `AttributeError`: an attribute was read before it was assigned */
    | AttributeError(attribute: string)
    /** `OSError` raised when the candidate folder is not a directory */
    | FolderMissing(folder: string)
    /** the image library's error when the target picture cannot be opened */
    | PictureUnreadable(path: string)
    /** `ZeroDivisionError` from the aspect-ratio arithmetic of a zero-width image */
    | ZeroWidth
    /** the image library's `ValueError` for a resize to a zero height */
    | EmptyTarget
    /** `ValueError` raised by `max` over an empty shortlist */
    | EmptyMax

  datatype Result<+T> = Ok(value: T) | Err(error: Error) {
    predicate IsFailure() {
      Err?
    }

    function PropagateFailure<U>(): Result<U>
      requires Err?
    {
      Err(error)
    }

    function Extract(): T
      requires Ok?
    {
      value
    }
  }
}

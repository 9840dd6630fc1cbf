/** Option and Result types shared by the TIFF model. A `Result` in the
    `Err` state stands for a Python exception that unwinds the whole run. */
module Results {

  datatype Option<+T> = None | Some(value: T)

  /** The exceptions the parser can raise, one variant per distinct cause. */
  datatype Error =
    | NotTiff       // `Exception("Not TIFF")`: the 4-byte magic is not accepted
    | ShortRead     // `struct.error`: fewer bytes than the unpack format needs
    | TooMany       // `AssertionError`: 32 or more directories or sub-directories
    | NoDirectory   // `IndexError`: `self.ifd[0]` on an empty chain
    | BadSeek       // `ValueError`/`TypeError`: seek to a negative or non-integer offset
    | NotIterable   // `TypeError`: iterating or searching the value `None`
    | NoStrip       // `AttributeError`: `rstrip` on a tuple

  datatype Result<+T> = Ok(value: T) | Err(error: Error) {

    predicate IsFailure() {
      Err?
    }

    function PropagateFailure<U>(): Result<U>
      requires Err?
    {
      Err(error)
    }

    function Extract(): T
      requires Ok?
    {
      value
    }
  }
}

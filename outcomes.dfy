/** The ways a keystroke can fail in the editor, and a result type that
    carries either a value or one of them. */
module Outcomes {

  /** The exceptions that escape the editor's session loop. */
  datatype Fault =
    | IndexOutOfRange   // `list.pop(x)` in `_delete_chr` past the end of a shortened row
    | CodeOutOfRange    // `chr(code)` on a continuation code outside 0..255
    | InvalidUtf8       // decoding a lead byte with a byte that is not a continuation byte

  datatype Result<+T> = Ok(value: T) | Err(fault: Fault)
}

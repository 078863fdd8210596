/** Result codes of the index routines that the model distinguishes. */
module UdsStatus {
  datatype Status =
    | Success
    | Overflow           // UDS_OVERFLOW
    | BadState           // UDS_BAD_STATE
    | InvalidArgument    // UDS_INVALID_ARGUMENT
    | DuplicateName      // UDS_DUPLICATE_NAME
    | CorruptData        // UDS_CORRUPT_DATA
    | CorruptComponent   // UDS_CORRUPT_COMPONENT
    | AssertionFailed    // UDS_ASSERTION_FAILED
    | UnexpectedResult   // UDS_UNEXPECTED_RESULT

  datatype Option<+T> = None | Some(value: T)
}
